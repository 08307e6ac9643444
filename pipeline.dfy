/** The second half of cmd/goup.go's main, once a target has been chosen and
    its package downloaded: back the installation root up into a fresh
    temporary directory, remove the root, extract the package into it, probe
    the result, and put the backup back (restore) when extraction or the
    probe fails. */
module Pipeline {
  import opened Text
  import opened Versions
  import opened Probe
  import opened FileSystem
  import opened FileUtil

  /** How a run of the tool ends. */
  datatype Outcome =
    | ProbeFailed       // neither the given executable nor the default one answered `go version`
    | Crashed           // an index out of range while reading `go version` or `go env` output
    | EnvFailed         // `go env` failed or names no GOROOT
    | UpToDate          // the target is the local version
    | Declined          // the user answered n or N
    | Unanswered        // the input ended before a Y/y/n/N answer
    | TempFileFailed    // the temporary file for the package could not be created
    | DownloadFailed
    | BackupDirFailed
    | BackupFailed
    | RemoveFailed
    | Upgraded          // the new installation reports the target version
    | VerifyCrashed     // an index out of range while reading the new `go version`
    | RolledBack        // extraction or the check failed and the backup was put back
    | Unrecoverable     // extraction or the check failed and so did the restore

  /** Nothing at or below `b` differs between `m1` and `m2`. */
  ghost predicate Keeps(m1: Tree, m2: Tree, b: Path) {
    forall q :: IsPrefix(b, q) ==> Lookup(m2, q) == Lookup(m1, q)
  }

  // ---------------------------------------------------------------- subtree facts

  /** A subtree that is kept is the same tree. */
  lemma KeepsSameTree(m1: Tree, m2: Tree, b: Path)
    requires Keeps(m1, m2, b)
    ensures SameTree(m2, b, m1, b)
  {
    forall rel ensures At(m2, b, rel) == At(m1, b, rel) {
      PrefixAppend(b, rel);
    }
  }

  /** A subtree that is kept stays well hung. */
  lemma KeepsTreeWF(m1: Tree, m2: Tree, b: Path)
    requires Keeps(m1, m2, b) && TreeWF(m1, b)
    ensures TreeWF(m2, b)
  {
    forall q | q in m2 && IsPrefix(b, q) && q != b
      ensures Lookup(m2, Parent(q)) == Some(Dir)
    {
      assert Lookup(m1, q) == Lookup(m2, q);
      PrefixOfParent(b, q);
    }
  }

  /** Changes confined to `r` keep every subtree disjoint from it. */
  lemma ConfinedKeeps(m1: Tree, m2: Tree, r: Path, b: Path)
    requires Confined(m1, m2, r) && Disjoint(r, b)
    ensures Keeps(m1, m2, b)
  {
    forall q | IsPrefix(b, q) ensures Lookup(m2, q) == Lookup(m1, q) {
      if IsPrefix(r, q) {
        PrefixesComparable(r, b, q);
      }
    }
  }

  /** Growing toward `r` keeps every subtree disjoint from it. */
  lemma GrowsKeeps(m1: Tree, m2: Tree, r: Path, b: Path)
    requires Grows(m1, m2, r) && Disjoint(r, b)
    ensures Keeps(m1, m2, b)
  {
    forall q | IsPrefix(b, q) ensures Lookup(m2, q) == Lookup(m1, q) {
      if q in m2 && q !in m1 {
        PrefixTransitive(b, q, r);
      }
    }
  }

  /** Adding entries on the way to `d` or below it keeps every subtree disjoint from it. */
  lemma AroundKeeps(m1: Tree, m2: Tree, d: Path, b: Path)
    requires Around(m1, m2, d) && Disjoint(d, b)
    ensures Keeps(m1, m2, b)
  {
    forall q | IsPrefix(b, q) ensures Lookup(m2, q) == Lookup(m1, q) {
      if q in m2 && q !in m1 {
        if IsPrefix(q, d) {
          PrefixTransitive(b, q, d);
        } else {
          PrefixesComparable(d, b, q);
        }
      }
    }
  }

  /** Adding entries that hang from directories keeps a filesystem well hung. */
  lemma AroundKeepsWF(m1: Tree, m2: Tree, d: Path)
    requires Around(m1, m2, d) && WF(m1)
    ensures WF(m2)
  {
    forall q | q in m2 && IsPrefix([], q) && q != []
      ensures Lookup(m2, Parent(q)) == Some(Dir)
    {
      if q in m1 {
        assert Lookup(m1, Parent(q)) == Some(Dir);
      }
    }
  }

  /** A well-hung filesystem is well hung below every path. */
  lemma WFBelow(m: Tree, b: Path)
    requires WF(m)
    ensures TreeWF(m, b)
  {
    forall q | q in m && IsPrefix(b, q) && q != b
      ensures Lookup(m, Parent(q)) == Some(Dir)
    {
      assert IsPrefix([], q);
    }
  }

  /** Readability and permissions below `src` depend only on the subtree there. */
  lemma CopyOkKept(fs1: FS, fs2: FS, src: Path, dst: Path)
    requires fs2.denied == fs1.denied && fs2.full == fs1.full
    requires Keeps(fs1.entries, fs2.entries, src) && CopyOk(fs1, src, dst)
    ensures CopyOk(fs2, src, dst)
  {
    forall q | IsPrefix(src, q) ensures Readable(fs2, q) {
      assert Readable(fs1, q);
    }
  }

  lemma SameTreeChain(m1: Tree, r1: Path, m2: Tree, r2: Path, m3: Tree, r3: Path)
    requires SameTree(m1, r1, m2, r2) && SameTree(m2, r2, m3, r3)
    ensures SameTree(m1, r1, m3, r3)
  {
  }

  /** After RemoveAll emptied `root` and MkdirAll recreated it, `root` is an
      empty directory. */
  lemma RemadeFresh(m1: Tree, m2: Tree, root: Path)
    requires forall q :: q in m1 ==> !IsPrefix(root, q)
    requires Grows(m1, m2, root) && Lookup(m2, root) == Some(Dir)
    ensures Fresh(m2, root)
  {
  }

  // ---------------------------------------------------------------- restore

  /** restore: removes the installation root, recreates it and copies the
      backup into it; the first error stops it. */
  method Restore(fs: FS, backup: Path, root: Path) returns (fs': FS, err: Option<IoError>)
    ensures fs'.denied == fs.denied && fs'.full == fs.full
    ensures RemoveAll(fs, root).1.Some? ==> fs' == RemoveAll(fs, root).0 && err == RemoveAll(fs, root).1
    ensures err.None? ==> root != []
    ensures err.None? && Disjoint(root, backup) && TreeWF(fs.entries, backup) ==>
              SameTree(fs'.entries, root, fs.entries, backup)
    ensures root != [] && Disjoint(root, backup) && Lookup(fs.entries, backup) == Some(Dir) && TreeWF(fs.entries, backup) &&
            Makeable(fs, Parent(root)) && CopyOk(fs, backup, root)
            ==> err.None?
  {
    ghost var ok := root != [] && Disjoint(root, backup) && Lookup(fs.entries, backup) == Some(Dir) &&
                    TreeWF(fs.entries, backup) && Makeable(fs, Parent(root)) && CopyOk(fs, backup, root);
    if ok {
      assert !Pinned(fs, root);
    }
    var removed := RemoveAll(fs, root);
    fs', err := removed.0, removed.1;
    if err.Some? {
      return;
    }
    if ok {
      assert !IsPrefix(root, Parent(root));
      ConfinedMakeable(fs, removed.0, root, Parent(root));
      assert !Blocks(removed.0, root) by {
        assert IsPrefix(root, root);
      }
      MakeableStep(removed.0, root);
    }
    var made := MkdirAll(fs', root);
    if made.1.Some? {
      return made.0, made.1;
    }
    RemadeFresh(removed.0.entries, made.0.entries, root);
    if ok {
      ConfinedKeeps(fs.entries, removed.0.entries, root, backup);
      GrowsKeeps(removed.0.entries, made.0.entries, root, backup);
      KeepsTreeWF(fs.entries, made.0.entries, backup);
      CopyOkKept(fs, made.0, backup, root);
      GrowsMakeable(removed.0, made.0, Parent(root));
      MakeableStep(made.0, root);
    }
    fs', err := RecursiveCopyDir(made.0, backup, root);
    if err.None? && Disjoint(root, backup) && TreeWF(fs.entries, backup) {
      ConfinedKeeps(fs.entries, removed.0.entries, root, backup);
      GrowsKeeps(removed.0.entries, made.0.entries, root, backup);
      KeepsTreeWF(fs.entries, made.0.entries, backup);
      KeepsSameTree(fs.entries, made.0.entries, backup);
      assert Disjoint(backup, root);
      SameTreeChain(fs'.entries, root, made.0.entries, backup, fs.entries, backup);
    }
  }

  // ---------------------------------------------------------------- backup, replace, verify

  /** The check after extraction: `go version` answers, its version parses,
      and it is the target. */
  predicate Confirmed(out: Option<string>, target: VersionInfo) {
    var probed := LocalGoInfo(out);
    probed.Info? && ExtractVersionInfo(probed.info.ver) == Ok(target)
  }

  /** What the backup leaves: `backup` holds a copy of `root` and nothing
      else changed. */
  ghost predicate BackedUp(fs: FS, fsB: FS, root: Path, backup: Path) {
    && Lookup(fs.entries, root) == Some(Dir)
    && SameTree(fsB.entries, backup, fs.entries, root)
    && Keeps(fs.entries, fsB.entries, root)
    && WF(fsB.entries)
  }

  /** TempDir and RecursiveCopyDir of main: a fresh backup directory, and the
      installation copied into it. */
  method Backup(fs: FS, root: Path, backup: Path) returns (fs': FS, outcome: Option<Outcome>)
    ensures fs'.denied == fs.denied && fs'.full == fs.full
    ensures outcome.Some? ==> outcome == Some(BackupDirFailed) || outcome == Some(BackupFailed)
    ensures outcome == Some(BackupDirFailed) <==> Mkdir(fs, backup).1.Some?
    ensures outcome == Some(BackupDirFailed) ==> fs' == fs
    ensures Disjoint(root, backup) ==> Keeps(fs.entries, fs'.entries, root)
    ensures outcome.None? && Disjoint(root, backup) && WF(fs.entries) ==> BackedUp(fs, fs', root, backup)
    ensures forall q :: q in fs.entries ==> q in fs'.entries && fs'.entries[q] == fs.entries[q]
    ensures Lookup(fs.entries, root) == Some(Dir) && Disjoint(root, backup) && WF(fs.entries) &&
            Mkdir(fs, backup).1.None? && CopyOk(fs, root, backup)
            ==> outcome.None?
  {
    var made := Mkdir(fs, backup);
    if made.1.Some? {
      return fs, Some(BackupDirFailed);
    }
    if Lookup(fs.entries, root) == Some(Dir) && Disjoint(root, backup) && WF(fs.entries) && CopyOk(fs, root, backup) {
      assert Keeps(fs.entries, made.0.entries, root) by {
        forall q | IsPrefix(root, q) ensures Lookup(made.0.entries, q) == Lookup(fs.entries, q) {
          assert q != backup;
        }
      }
      assert WF(made.0.entries);
      MkdirFresh(fs, backup);
      WFBelow(made.0.entries, root);
      DirMakeable(made.0, backup);
      CopyOkKept(fs, made.0, root, backup);
    }
    var err;
    fs', err := RecursiveCopyDir(made.0, root, backup);
    outcome := if err.None? then None else Some(BackupFailed);
    if Disjoint(root, backup) {
      assert Keeps(fs.entries, made.0.entries, root) by {
        forall q | IsPrefix(root, q) ensures Lookup(made.0.entries, q) == Lookup(fs.entries, q) {
          assert q != backup;
        }
      }
      AroundKeeps(made.0.entries, fs'.entries, backup, root);
      if err.None? && WF(fs.entries) {
        assert Lookup(made.0.entries, root) == Some(Dir);
        assert WF(made.0.entries);
        MkdirFresh(fs, backup);
        WFBelow(made.0.entries, root);
        KeepsSameTree(fs.entries, made.0.entries, root);
        SameTreeChain(fs'.entries, backup, made.0.entries, root, fs.entries, root);
        AroundKeepsWF(made.0.entries, fs'.entries, backup);
      }
    }
  }

  /** The backed-up tree survives removal and extraction, which are confined
      to `root`. */
  lemma BackupSurvives(fs: FS, fsB: FS, m: Tree, root: Path, backup: Path)
    requires Disjoint(root, backup) && BackedUp(fs, fsB, root, backup)
    requires Keeps(fsB.entries, m, backup)
    ensures TreeWF(m, backup)
    ensures SameTree(m, backup, fs.entries, root)
  {
    WFBelow(fsB.entries, backup);
    KeepsTreeWF(fsB.entries, m, backup);
    KeepsSameTree(fsB.entries, m, backup);
    SameTreeChain(m, backup, fsB.entries, backup, fs.entries, root);
  }

  /** Restore after a failed extraction or check, from the state `fsX`
      the failure left. */
  method RollBack(fs: FS, fsB: FS, fsX: FS, root: Path, backup: Path) returns (fs': FS, err: Option<IoError>)
    ensures fs'.denied == fsX.denied && fs'.full == fsX.full
    ensures RemoveAll(fsX, root).1.Some? ==> fs' == RemoveAll(fsX, root).0 && err == RemoveAll(fsX, root).1
    ensures err.None? && Disjoint(root, backup) && BackedUp(fs, fsB, root, backup) && Keeps(fsB.entries, fsX.entries, backup) ==>
              SameTree(fs'.entries, root, fs.entries, root)
    ensures root != [] && Disjoint(root, backup) && BackedUp(fs, fsB, root, backup) && Keeps(fsB.entries, fsX.entries, backup) &&
            Makeable(fsX, Parent(root)) && CopyOk(fsX, backup, root)
            ==> err.None?
  {
    if Disjoint(root, backup) && BackedUp(fs, fsB, root, backup) && Keeps(fsB.entries, fsX.entries, backup) {
      BackupSurvives(fs, fsB, fsX.entries, root, backup);
      assert At(fsX.entries, backup, []) == At(fs.entries, root, []);
      assert backup + [] == backup && root + [] == root;
    }
    fs', err := Restore(fsX, backup, root);
    if err.None? && Disjoint(root, backup) && BackedUp(fs, fsB, root, backup) && Keeps(fsB.entries, fsX.entries, backup) {
      BackupSurvives(fs, fsB, fsX.entries, root, backup);
      SameTreeChain(fs'.entries, root, fsX.entries, backup, fs.entries, root);
    }
  }

  /** The conditions under which every file operation of an installation
      succeeds: the root is a directory apart from a backup directory that
      can be made, the filesystem hangs together, and copying is allowed
      both ways between them. */
  ghost predicate Healthy(fs: FS, root: Path, backup: Path) {
    && root != [] && Disjoint(root, backup) && WF(fs.entries)
    && Lookup(fs.entries, root) == Some(Dir) && Mkdir(fs, backup).1.None?
    && CopyOk(fs, root, backup) && CopyOk(fs, backup, root)
  }

  /** On a healthy filesystem, whatever extraction left at the root, the
      restore can go through: the way to the root is open and the backup
      can be copied back. */
  lemma RestoreReady(fs: FS, fsB: FS, fsX: FS, root: Path, backup: Path)
    requires Healthy(fs, root, backup) && BackedUp(fs, fsB, root, backup)
    requires forall q :: q in fs.entries ==> q in fsB.entries && fsB.entries[q] == fs.entries[q]
    requires fsX.denied == fs.denied && fsX.full == fs.full
    requires Keeps(fsB.entries, fsX.entries, backup) && Confined(fsB.entries, fsX.entries, root)
    ensures Makeable(fsX, Parent(root)) && CopyOk(fsX, backup, root)
  {
    PrefixOfParentAll(root);
    forall q | IsPrefix(q, Parent(root)) ensures !Blocks(fsX, q) {
      DirsAbove(fs.entries, root, q);
      assert Lookup(fsB.entries, q) == Some(Dir);
    }
    forall q | IsPrefix(backup, q) ensures Readable(fsX, q) {
      var rel := q[|backup|..];
      assert q == backup + rel;
      assert At(fsB.entries, backup, rel) == At(fs.entries, root, rel);
      PrefixAppend(root, rel);
      assert Readable(fs, root + rel);
    }
  }

  /** What the backup keeps below `root` is pinned there only if it was before. */
  lemma PinnedKept(fs: FS, fsB: FS, root: Path)
    requires fsB.denied == fs.denied && Keeps(fs.entries, fsB.entries, root) && Pinned(fsB, root)
    ensures root == [] || Pinned(fs, root)
  {
    var d :| d in fsB.denied && d in fsB.entries && IsPrefix(root, d);
    assert Lookup(fsB.entries, d) == Lookup(fs.entries, d);
  }

  /** The outcomes of a run that got as far as extraction. */
  predicate Reached(outcome: Outcome) {
    outcome in {Upgraded, VerifyCrashed, RolledBack, Unrecoverable}
  }

  /** Lines 130-173 of main: backup, removal, extraction, the check with
      `go version` (whose output `probe` gives for each filesystem state),
      and restore when extraction or the check fails. `fsB` is the state
      after the backup and `fsX` the state after extraction. */
  method Install(fs: FS, root: Path, backup: Path, archive: Archive, probe: FS -> Option<string>, target: VersionInfo)
    returns (outcome: Outcome, fs': FS, ghost fsB: FS, ghost fsX: FS)
    ensures outcome in {BackupDirFailed, BackupFailed, RemoveFailed} || Reached(outcome)
    // the backup
    ensures outcome == BackupDirFailed <==> Mkdir(fs, backup).1.Some?
    ensures outcome == BackupDirFailed ==> fs' == fs
    ensures outcome in {BackupDirFailed, BackupFailed} && Disjoint(root, backup) ==> Keeps(fs.entries, fs'.entries, root)
    ensures outcome !in {BackupDirFailed, BackupFailed} && Disjoint(root, backup) && WF(fs.entries) ==>
              BackedUp(fs, fsB, root, backup)
    // the removal
    ensures outcome !in {BackupDirFailed, BackupFailed} ==> (outcome == RemoveFailed <==> RemoveAll(fsB, root).1.Some?)
    ensures outcome == RemoveFailed ==> fs' == RemoveAll(fsB, root).0
    ensures outcome == RemoveFailed && Disjoint(root, backup) && WF(fs.entries) ==>
              SameTree(fs'.entries, backup, fs.entries, root)
              && forall q :: q in fs'.entries && IsPrefix(root, q) ==> q in fs.entries && fs'.entries[q] == fs.entries[q]
    // extraction and the check
    ensures Reached(outcome) ==> fsX == Extract(RemoveAll(fsB, root).0, root, archive).0
    ensures Reached(outcome) ==> (outcome == Upgraded <==> archive.complete && Confirmed(probe(fsX), target))
    ensures Reached(outcome) ==> (outcome == VerifyCrashed <==> archive.complete && LocalGoInfo(probe(fsX)) == Panicked)
    ensures outcome in {Upgraded, VerifyCrashed} ==> fs' == fsX
    ensures outcome == Upgraded ==> forall rel :: rel in archive.tree ==> At(fs'.entries, root, rel) == Some(archive.tree[rel])
    ensures outcome == Upgraded ==> forall rel :: rel != [] && rel !in archive.tree ==> At(fs'.entries, root, rel) == None
    // restore
    ensures outcome in {RolledBack, Unrecoverable} && RemoveAll(fsX, root).1.Some? ==>
              outcome == Unrecoverable && fs' == RemoveAll(fsX, root).0
    ensures outcome == RolledBack && Disjoint(root, backup) && WF(fs.entries) ==> SameTree(fs'.entries, root, fs.entries, root)
    // the causes of failure
    ensures outcome == BackupFailed ==>
              !(Lookup(fs.entries, root) == Some(Dir) && Disjoint(root, backup) && WF(fs.entries) && CopyOk(fs, root, backup))
    ensures outcome == RemoveFailed && Disjoint(root, backup) && WF(fs.entries) ==> root == [] || Pinned(fs, root)
    ensures Healthy(fs, root, backup) ==> Reached(outcome) && outcome != Unrecoverable
  {
    var failed, saved;
    saved, failed := Backup(fs, root, backup);
    fs', fsB, fsX := saved, saved, saved;
    if failed.Some? {
      return failed.value, fs', fsB, fsX;
    }
    var removed := RemoveAll(saved, root);
    if Healthy(fs, root, backup) {
      assert !Pinned(saved, root);
    }
    if removed.1.Some? {
      if Disjoint(root, backup) && WF(fs.entries) {
        if root != [] {
          PinnedKept(fs, saved, root);
        }
        ConfinedKeeps(saved.entries, removed.0.entries, root, backup);
        BackupSurvives(fs, saved, removed.0.entries, root, backup);
        forall q | q in removed.0.entries && IsPrefix(root, q)
          ensures q in fs.entries && removed.0.entries[q] == fs.entries[q]
        {
          assert Lookup(saved.entries, q) == Lookup(fs.entries, q);
        }
      }
      return RemoveFailed, removed.0, fsB, fsX;
    }
    var extracted := Extract(removed.0, root, archive);
    var unpacked := extracted.0;
    fsX := unpacked;
    if Disjoint(root, backup) && WF(fs.entries) {
      ConfinedKeeps(saved.entries, removed.0.entries, root, backup);
      ConfinedKeeps(removed.0.entries, unpacked.entries, root, backup);
    }
    if extracted.1.None? {
      var out := probe(unpacked);
      if LocalGoInfo(out) == Panicked {
        return VerifyCrashed, unpacked, fsB, fsX;
      }
      if Confirmed(out, target) {
        forall rel | rel != [] && rel !in archive.tree ensures At(unpacked.entries, root, rel) == None {
          PrefixAppend(root, rel);
          assert root + rel !in Placed(root, archive.tree);
        }
        return Upgraded, unpacked, fsB, fsX;
      }
    }
    if Healthy(fs, root, backup) {
      RestoreReady(fs, saved, unpacked, root, backup);
    }
    var err;
    fs', err := RollBack(fs, saved, unpacked, root, backup);
    outcome := if err.None? then RolledBack else Unrecoverable;
  }
}
