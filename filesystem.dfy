/** An in-memory filesystem for the file operations goup performs: entries
    keyed by their path components, a set of paths the process may not open,
    create or remove, and a flag for a full disk. The operating-system calls
    used by the tool (os.Mkdir, os.MkdirAll, os.RemoveAll, ioutil.TempDir and
    archive extraction) are functions from one filesystem value to the next,
    paired with the error Go would return (None for nil). */
module FileSystem {
  import opened Text

  newtype byte = b: int | 0 <= b < 256

  /** A path as its components; [] is the filesystem root. */
  type Path = seq<string>

  datatype Entry = File(data: seq<byte>) | Dir

  type Tree = map<Path, Entry>

  datatype FS = FS(entries: Tree, denied: set<Path>, full: bool)

  datatype IoError = NotExist | Exist | NotDir | Permission | NoSpace | IsDir

  /** What sits at `p`; the root always exists and is a directory. */
  function Lookup(m: Tree, p: Path): Option<Entry> {
    if p == [] then Some(Dir) else if p in m then Some(m[p]) else None
  }

  function Parent(p: Path): Path
    requires p != []
  {
    p[..|p| - 1]
  }

  /** `p` is `q` or one of its ancestors. */
  predicate IsPrefix(p: Path, q: Path) {
    |p| <= |q| && q[..|p|] == p
  }

  /** Neither path lies inside the other. */
  predicate Disjoint(a: Path, b: Path) {
    !IsPrefix(a, b) && !IsPrefix(b, a)
  }

  /** Every entry below `root` hangs from a directory. */
  predicate TreeWF(m: Tree, root: Path) {
    forall q :: q in m && IsPrefix(root, q) && q != root ==> Lookup(m, Parent(q)) == Some(Dir)
  }

  /** Every entry hangs from a directory. */
  predicate WF(m: Tree) {
    TreeWF(m, [])
  }

  /** `p` is an empty directory or absent, with nothing below it. */
  predicate Fresh(m: Tree, p: Path) {
    && (Lookup(m, p) == None || Lookup(m, p) == Some(Dir))
    && forall q :: q in m && IsPrefix(p, q) ==> q == p
  }

  /** The entry at `rel` below `root`. */
  function At(m: Tree, root: Path, rel: Path): Option<Entry> {
    Lookup(m, root + rel)
  }

  /** The tree at `r1` in `m1` is the tree at `r2` in `m2`, entry for entry. */
  ghost predicate SameTree(m1: Tree, r1: Path, m2: Tree, r2: Path) {
    forall rel :: At(m1, r1, rel) == At(m2, r2, rel)
  }

  /** `p` has a direct child entry (what godirwalk.ReadDirents lists). */
  predicate HasChild(m: Tree, p: Path) {
    exists q :: q in m && IsPrefix(p, q) && |q| == |p| + 1
  }

  /** `m2` keeps every entry of `m1`, and every entry it adds lies on the way
      to `p` and hangs from a directory. */
  predicate Grows(m1: Tree, m2: Tree, p: Path) {
    && (forall q :: q in m1 ==> q in m2 && m2[q] == m1[q])
    && (forall q :: q in m2 && q !in m1 ==> IsPrefix(q, p) && q != [] && Lookup(m2, Parent(q)) == Some(Dir))
  }

  /** Entries outside `root` are untouched. */
  ghost predicate Confined(m1: Tree, m2: Tree, root: Path) {
    forall q :: !IsPrefix(root, q) ==> Lookup(m2, q) == Lookup(m1, q)
  }

  /** What makes creating `q` impossible: a file in the way, or a missing
      entry the process may not create. */
  predicate Blocks(fs: FS, q: Path) {
    match Lookup(fs.entries, q)
    case Some(File(_)) => true
    case Some(Dir) => false
    case None => q in fs.denied
  }

  /** Nothing on the way from the root to `p`, `p` included, blocks it:
      what os.MkdirAll needs to make `p` a directory. */
  ghost predicate Makeable(fs: FS, p: Path) {
    forall q :: IsPrefix(q, p) ==> !Blocks(fs, q)
  }

  /** A denied entry at or below `q`, which RemoveAll cannot take away. */
  predicate Pinned(fs: FS, q: Path) {
    exists d :: d in fs.denied && d in fs.entries && IsPrefix(q, d)
  }

  // ---------------------------------------------------------------- path facts

  lemma PrefixTransitive(a: Path, b: Path, c: Path)
    requires IsPrefix(a, b) && IsPrefix(b, c)
    ensures IsPrefix(a, c)
  {
    assert c[..|a|] == c[..|b|][..|a|];
  }

  lemma PrefixOfParent(a: Path, q: Path)
    requires q != [] && IsPrefix(a, q) && a != q
    ensures IsPrefix(a, Parent(q))
  {
    assert Parent(q)[..|a|] == q[..|a|];
  }

  lemma PrefixAppend(a: Path, rel: Path)
    ensures IsPrefix(a, a + rel) && (a + rel)[|a|..] == rel
  {
    assert (a + rel)[..|a|] == a;
  }

  /** Two prefixes of one path are prefixes of each other. */
  lemma PrefixesComparable(a: Path, b: Path, q: Path)
    requires IsPrefix(a, q) && IsPrefix(b, q)
    ensures IsPrefix(a, b) || IsPrefix(b, a)
  {
    if |a| <= |b| {
      assert b[..|a|] == q[..|b|][..|a|];
    } else {
      assert a[..|b|] == q[..|a|][..|b|];
    }
  }

  /** Nothing below one of two disjoint paths is related to the other. */
  lemma DisjointBelow(a: Path, b: Path, rel: Path)
    requires Disjoint(a, b)
    ensures !IsPrefix(a, b + rel) && !IsPrefix(b + rel, a)
  {
    PrefixAppend(b, rel);
    if IsPrefix(a, b + rel) {
      PrefixesComparable(a, b, b + rel);
    }
    if IsPrefix(b + rel, a) {
      PrefixTransitive(b, b + rel, a);
    }
  }

  // ---------------------------------------------------------------- tree facts

  /** In a well-hung tree, every path between `root` and an entry below it
      is a directory. */
  lemma {:induction false} ChainDirs(m: Tree, root: Path, q: Path, a: Path)
    requires TreeWF(m, root)
    requires q in m && IsPrefix(root, q) && IsPrefix(root, a) && IsPrefix(a, q) && a != q
    ensures Lookup(m, a) == Some(Dir)
    decreases |q|
  {
    var pq := Parent(q);
    PrefixOfParent(a, q);
    if a != pq {
      PrefixTransitive(root, a, pq);
      assert pq != root;
      assert pq != [];
      ChainDirs(m, root, pq, a);
    }
  }

  /** Nothing strictly below an absent path or a file, in a well-hung tree. */
  lemma NothingStrictlyBelow(m: Tree, root: Path, p: Path, rel: Path)
    requires TreeWF(m, root) && IsPrefix(root, p)
    requires Lookup(m, p) != Some(Dir) && rel != []
    ensures p + rel !in m
  {
    PrefixAppend(p, rel);
    if p + rel in m {
      NothingBelow(m, root, p, p + rel);
    }
  }

  /** Below a path that is absent or a file there is nothing in a well-hung tree. */
  lemma NothingBelow(m: Tree, root: Path, p: Path, q: Path)
    requires TreeWF(m, root) && IsPrefix(root, p)
    requires Lookup(m, p) != Some(Dir)
    requires q in m && IsPrefix(p, q)
    ensures q == p
  {
    if q != p {
      PrefixTransitive(root, p, q);
      ChainDirs(m, root, q, p);
    }
  }

  /** A directory with an entry somewhere below it has a direct child. */
  lemma {:induction false} DescendantGivesChild(m: Tree, root: Path, p: Path, q: Path)
    requires TreeWF(m, root) && IsPrefix(root, p)
    requires q in m && IsPrefix(p, q) && q != p
    ensures HasChild(m, p)
    decreases |q|
  {
    if |q| == |p| + 1 {
    } else {
      var pq := Parent(q);
      PrefixOfParent(p, q);
      PrefixTransitive(root, p, q);
      assert pq != [] && pq != p;
      assert Lookup(m, pq) == Some(Dir);
      DescendantGivesChild(m, root, p, pq);
    }
  }

  /** `p` can be made when it does not block and its parent can be made. */
  lemma MakeableStep(fs: FS, p: Path)
    requires p != []
    ensures Makeable(fs, p) <==> !Blocks(fs, p) && Makeable(fs, Parent(p))
  {
    PrefixOfParentAll(p);
    forall q | IsPrefix(q, p) && q != p ensures IsPrefix(q, Parent(p)) {
      PrefixOfParent(q, p);
    }
  }

  /** In a well-hung tree, every path on the way to a directory is a directory. */
  lemma DirsAbove(m: Tree, p: Path, q: Path)
    requires WF(m) && Lookup(m, p) == Some(Dir) && IsPrefix(q, p)
    ensures Lookup(m, q) == Some(Dir)
  {
    if q != p && p != [] {
      ChainDirs(m, [], p, q);
    }
  }

  /** In a well-hung tree, a directory can always be made again. */
  lemma DirMakeable(fs: FS, p: Path)
    requires Lookup(fs.entries, p) == Some(Dir)
    ensures WF(fs.entries) ==> Makeable(fs, p)
  {
    if WF(fs.entries) {
      forall q | IsPrefix(q, p) ensures !Blocks(fs, q) {
        DirsAbove(fs.entries, p, q);
      }
    }
  }

  /** Adding directories keeps a path makeable. */
  lemma GrowsMakeable(fs1: FS, fs2: FS, p: Path)
    requires fs2.denied == fs1.denied && Makeable(fs1, p)
    requires forall q :: q in fs1.entries ==> q in fs2.entries && fs2.entries[q] == fs1.entries[q]
    requires forall q :: q in fs2.entries && q !in fs1.entries ==> fs2.entries[q] == Dir
    ensures Makeable(fs2, p)
  {
    forall q | IsPrefix(q, p) ensures !Blocks(fs2, q) {
      assert !Blocks(fs1, q);
    }
  }

  /** Changes confined below `r` keep a path outside `r` makeable. */
  lemma ConfinedMakeable(fs1: FS, fs2: FS, r: Path, p: Path)
    requires fs2.denied == fs1.denied && Makeable(fs1, p)
    requires Confined(fs1.entries, fs2.entries, r) && !IsPrefix(r, p)
    ensures Makeable(fs2, p)
  {
    forall q | IsPrefix(q, p) ensures !Blocks(fs2, q) {
      assert !Blocks(fs1, q);
      if IsPrefix(r, q) {
        PrefixTransitive(r, q, p);
      }
    }
  }

  lemma GrowsTransitive(m1: Tree, m2: Tree, m3: Tree, p: Path)
    requires Grows(m1, m2, p) && Grows(m2, m3, p)
    ensures Grows(m1, m3, p)
  {
  }

  /** Growing keeps a tree well hung. */
  lemma GrowsKeepsTreeWF(m1: Tree, m2: Tree, p: Path, root: Path)
    requires Grows(m1, m2, p) && TreeWF(m1, root)
    ensures TreeWF(m2, root)
  {
    forall q | q in m2 && IsPrefix(root, q) && q != root
      ensures Lookup(m2, Parent(q)) == Some(Dir)
    {
      if q in m1 {
        assert Lookup(m1, Parent(q)) == Some(Dir);
      }
    }
  }

  // ---------------------------------------------------------------- operations

  /** os.Mkdir: creates one directory whose parent is a directory. */
  function Mkdir(fs: FS, p: Path): (r: (FS, Option<IoError>))
    ensures r.0.denied == fs.denied && r.0.full == fs.full
    ensures r.1.None? <==> Lookup(fs.entries, p) == None && p !in fs.denied && Lookup(fs.entries, Parent(p)) == Some(Dir)
    ensures r.1.None? ==> r.0.entries == fs.entries[p := Dir]
    ensures r.1.Some? ==> r.0 == fs
  {
    if Lookup(fs.entries, p).Some? then (fs, Some(Exist))
    else if Lookup(fs.entries, Parent(p)) == None then (fs, Some(NotExist))
    else if Lookup(fs.entries, Parent(p)) != Some(Dir) then (fs, Some(NotDir))
    else if p in fs.denied then (fs, Some(Permission))
    else (fs.(entries := fs.entries[p := Dir]), None)
  }

  /** os.MkdirAll: nothing to do for an existing directory, an error for an
      existing file; otherwise the parent first, then `p` itself. */
  function MkdirAll(fs: FS, p: Path): (r: (FS, Option<IoError>))
    ensures r.0.denied == fs.denied && r.0.full == fs.full
    ensures Grows(fs.entries, r.0.entries, p)
    ensures forall q :: q in r.0.entries && q !in fs.entries ==> r.0.entries[q] == Dir
    ensures r.1.None? ==> Lookup(r.0.entries, p) == Some(Dir)
    ensures Makeable(fs, p) ==> r.1.None?
    ensures WF(fs.entries) ==> (r.1.None? <==> Makeable(fs, p))
    ensures r.1 != Some(NoSpace)
    decreases |p|
  {
    match Lookup(fs.entries, p)
    case Some(Dir) =>
      DirMakeable(fs, p);
      (fs, None)
    case Some(File(_)) =>
      assert IsPrefix(p, p) && Blocks(fs, p);
      (fs, Some(NotDir))
    case None =>
      var up := MkdirAll(fs, Parent(p));
      PrefixOfParentAll(p);
      MakeableStep(fs, p);
      if up.1.Some? then
        up
      else
        assert Lookup(up.0.entries, p) == None;
        Mkdir(up.0, p)
  }

  /** Every prefix of the parent is a prefix of the path. */
  lemma PrefixOfParentAll(p: Path)
    requires p != []
    ensures forall q :: IsPrefix(q, Parent(p)) ==> IsPrefix(q, p)
  {
    forall q | IsPrefix(q, Parent(p)) ensures IsPrefix(q, p) {
      assert p[..|q|] == Parent(p)[..|q|];
    }
  }

  /** os.RemoveAll: removes `p` and everything below it, except denied
      entries and their ancestors, and reports an error if any remain. The
      filesystem root cannot be removed. */
  function RemoveAll(fs: FS, p: Path): (r: (FS, Option<IoError>))
    ensures r.0.denied == fs.denied && r.0.full == fs.full
    ensures forall q :: q in r.0.entries ==> q in fs.entries && r.0.entries[q] == fs.entries[q]
    ensures p != [] ==> Confined(fs.entries, r.0.entries, p)
    ensures r.1.None? <==> p != [] && !Pinned(fs, p)
    ensures r.1.None? ==> forall q :: q in r.0.entries ==> !IsPrefix(p, q)
  {
    if p == [] then (fs, Some(Permission))
    else
      var kept := map q | q in fs.entries && (!IsPrefix(p, q) || Pinned(fs, q)) :: fs.entries[q];
      assert !Pinned(fs, p) ==> forall q :: q in fs.entries && IsPrefix(p, q) ==> !Pinned(fs, q) by {
        forall q, d | IsPrefix(p, q) && IsPrefix(q, d) ensures IsPrefix(p, d) {
          PrefixTransitive(p, q, d);
        }
      }
      (fs.(entries := kept), if Pinned(fs, p) then Some(Permission) else None)
  }

  /** Removal keeps a filesystem well hung: what stays below a removed
      path is pinned, and so is its parent. */
  lemma RemoveAllKeepsWF(fs: FS, p: Path)
    requires WF(fs.entries)
    ensures WF(RemoveAll(fs, p).0.entries)
  {
    if p != [] {
      var m := RemoveAll(fs, p).0.entries;
      forall q | q in m && IsPrefix([], q) && q != []
        ensures Lookup(m, Parent(q)) == Some(Dir)
      {
        var pq := Parent(q);
        assert Lookup(fs.entries, pq) == Some(Dir);
        if pq != [] && IsPrefix(p, pq) {
          assert IsPrefix(p, q) by { PrefixTransitive(p, pq, q); assert IsPrefix(pq, q); }
          assert Pinned(fs, q);
          var d :| d in fs.denied && d in fs.entries && IsPrefix(q, d);
          PrefixTransitive(pq, q, d);
          assert Pinned(fs, pq);
        }
      }
    }
  }

  /** Mkdir on an absent path of a well-hung filesystem yields an empty directory. */
  lemma MkdirFresh(fs: FS, p: Path)
    requires WF(fs.entries) && Mkdir(fs, p).1.None?
    ensures Fresh(Mkdir(fs, p).0.entries, p)
  {
    forall q | q in fs.entries && IsPrefix(p, q)
      ensures q == p
    {
      NothingBelow(fs.entries, [], p, q);
    }
  }

  /** An archive as the tree it unpacks to, relative to the target directory,
      and whether it unpacks to the end. */
  datatype Archive = Archive(tree: Tree, complete: bool)

  /** `tree` moved below `root`. */
  function Placed(root: Path, tree: Tree): (r: Tree)
    ensures forall rel :: rel in tree ==> root + rel in r && r[root + rel] == tree[rel]
    ensures forall q :: q in r ==> IsPrefix(root, q) && q[|root|..] in tree
  {
    var keys := set rel | rel in tree :: root + rel;
    assert forall q :: q in keys ==> |root| <= |q| && q[|root|..] in tree by {
      forall q | q in keys ensures |root| <= |q| && q[|root|..] in tree {
        var rel :| rel in tree && q == root + rel;
        PrefixAppend(root, rel);
      }
    }
    var r := map q | q in keys :: tree[q[|root|..]];
    assert forall rel :: rel in tree ==> root + rel in keys && (root + rel)[|root|..] == rel by {
      forall rel | rel in tree ensures root + rel in keys && (root + rel)[|root|..] == rel {
        PrefixAppend(root, rel);
      }
    }
    assert forall q :: q in r ==> IsPrefix(root, q) && q[|root|..] in tree by {
      forall q | q in r ensures IsPrefix(root, q) && q[|root|..] in tree {
        var rel :| rel in tree && q == root + rel;
        PrefixAppend(root, rel);
      }
    }
    r
  }

  /** Extraction (ExtractArchive): writes the archive's entries below `root`
      and fails when the archive ends early, after what it did write. */
  function Extract(fs: FS, root: Path, archive: Archive): (r: (FS, Option<IoError>))
    ensures r.0.denied == fs.denied && r.0.full == fs.full
    ensures Confined(fs.entries, r.0.entries, root)
    ensures r.1.None? <==> archive.complete
  {
    var placed := Placed(root, archive.tree);
    var fs' := fs.(entries := fs.entries + placed);
    assert Confined(fs.entries, fs'.entries, root) by {
      forall q | !IsPrefix(root, q) ensures Lookup(fs'.entries, q) == Lookup(fs.entries, q) {
        assert q !in placed;
      }
    }
    (fs', if archive.complete then None else Some(NotExist))
  }
}
