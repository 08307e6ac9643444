/** fileutil.go: copying one file without overwriting, through a reusable
    buffer of BufSize bytes, and copying a directory tree by walking it. */
module FileUtil {
  import opened Text
  import opened FileSystem

  const BufSize: nat := 10 * 1024

  /** srcFile.Read: fills the front of `buf` with the next bytes of `data`
      from `off`, as many as fit, and says how many. */
  method ReadChunk(data: seq<byte>, off: nat, buf: array<byte>) returns (n: nat)
    requires off <= |data|
    modifies buf
    ensures n <= buf.Length && off + n <= |data|
    ensures n == buf.Length || off + n == |data|
    ensures buf[..n] == data[off..off + n]
  {
    n := if |data| - off < buf.Length then |data| - off else buf.Length;
    var k := 0;
    while k < n
      invariant 0 <= k <= n
      invariant buf[..k] == data[off..off + k]
    {
      buf[k] := data[off + k];
      k := k + 1;
    }
  }

  /** Adding an entry below a directory, on the way to `p`, grows a tree. */
  lemma AddEntry(m0: Tree, m1: Tree, p: Path, q: Path, e: Entry)
    requires Grows(m0, m1, p) && q !in m1 && IsPrefix(q, p) && q != []
    requires Lookup(m1, Parent(q)) == Some(Dir)
    ensures Grows(m0, m1[q := e], p)
  {
  }

  /** Growing toward a path is growing toward anything below it. */
  lemma GrowsFurther(m0: Tree, m1: Tree, p: Path, q: Path)
    requires Grows(m0, m1, p) && IsPrefix(p, q)
    ensures Grows(m0, m1, q)
  {
    forall r | r in m1 && r !in m0 ensures IsPrefix(r, q) {
      PrefixTransitive(r, p, q);
    }
  }

  /** The creation half of copyFile for an absent `dst`: os.OpenFile, and
      when that fails os.MkdirAll of the parent followed by os.Create. */
  method CreateFile(fs: FS, dst: Path) returns (fs': FS, err: Option<IoError>)
    requires Lookup(fs.entries, dst) == None
    ensures fs'.denied == fs.denied && fs'.full == fs.full
    ensures Grows(fs.entries, fs'.entries, dst)
    ensures forall q :: q in fs'.entries && q !in fs.entries && q != dst ==> fs'.entries[q] == Dir
    ensures err != Some(NoSpace)
    ensures err.None? ==> dst in fs'.entries && fs'.entries[dst] == File([])
    ensures err.None? ==> forall x: seq<byte> :: Grows(fs.entries, fs'.entries[dst := File(x)], dst)
    ensures Makeable(fs, dst) ==> err.None?
    ensures WF(fs.entries) ==> (err.None? <==> Makeable(fs, dst))
  {
    MakeableStep(fs, dst);
    if Lookup(fs.entries, Parent(dst)) == Some(Dir) {
      DirMakeable(fs, Parent(dst));
    }
    fs' := fs;
    if Lookup(fs.entries, Parent(dst)) != Some(Dir) || dst in fs.denied {
      var made := MkdirAll(fs, Parent(dst));
      ParentMade(fs, dst);
      fs' := made.0;
      if made.1.Some? {
        return fs', made.1;
      }
      if dst in fs.denied {
        return fs', Some(Permission);
      }
    }
    PlaceFile(fs, fs', dst);
    fs' := fs'.(entries := fs'.entries[dst := File([])]);
    err := None;
  }

  /** os.MkdirAll of the parent grows the tree toward `dst` with directories
      only, and on success leaves `dst` absent below a directory. */
  lemma ParentMade(fs: FS, dst: Path)
    requires Lookup(fs.entries, dst) == None
    ensures dst != []
    ensures var made := MkdirAll(fs, Parent(dst));
      && made.0.denied == fs.denied && made.0.full == fs.full
      && Grows(fs.entries, made.0.entries, dst)
      && (forall q :: q in made.0.entries && q !in fs.entries ==> made.0.entries[q] == Dir)
      && made.1 != Some(NoSpace)
      && (made.1.None? ==> Lookup(made.0.entries, Parent(dst)) == Some(Dir) && Lookup(made.0.entries, dst) == None)
  {
    var made := MkdirAll(fs, Parent(dst));
    PrefixOfParent(Parent(dst), dst);
    GrowsFurther(fs.entries, made.0.entries, Parent(dst), dst);
  }

  /** os.Create once the parent directory exists: the new empty file keeps
      the growth toward `dst`, whatever is later written to it. */
  lemma PlaceFile(fs: FS, base: FS, dst: Path)
    requires Lookup(fs.entries, dst) == None
    requires base.denied == fs.denied && base.full == fs.full
    requires Grows(fs.entries, base.entries, dst)
    requires forall q :: q in base.entries && q !in fs.entries ==> base.entries[q] == Dir
    requires Lookup(base.entries, Parent(dst)) == Some(Dir) && Lookup(base.entries, dst) == None
    ensures var made := base.(entries := base.entries[dst := File([])]);
      && Grows(fs.entries, made.entries, dst)
      && (forall q :: q in made.entries && q !in fs.entries && q != dst ==> made.entries[q] == Dir)
      && (forall x: seq<byte> :: Grows(fs.entries, made.entries[dst := File(x)], dst))
  {
    var m := base.entries;
    forall x: seq<byte> ensures Grows(fs.entries, m[dst := File(x)], dst) {
      AddEntry(fs.entries, m, dst, dst, File(x));
    }
    forall x: seq<byte> ensures m[dst := File([])][dst := File(x)] == m[dst := File(x)] {
    }
  }

  /** An entry the walk can read and copy: nothing the process may not open,
      and no bytes to write on a full disk. */
  predicate Readable(fs: FS, q: Path) {
    match Lookup(fs.entries, q)
    case None => true
    case Some(Dir) => q !in fs.denied
    case Some(File(d)) => q !in fs.denied && (fs.full ==> d == [])
  }

  /** What lets copyFile through: a file it may open and whose bytes fit,
      and an absent `dst` whose way from the root is open. */
  ghost predicate Copyable(fs: FS, src: Path, dst: Path) {
    && Lookup(fs.entries, src).Some? && Lookup(fs.entries, src).value.File?
    && Readable(fs, src)
    && Lookup(fs.entries, dst) == None && Makeable(fs, dst)
  }

  /** The copy loop of copyFile: read a chunk into the buffer, stop when the
      read returns no bytes, otherwise append the chunk to `dst`. A full disk
      fails the first write. */
  method WriteAll(fs: FS, dst: Path, data: seq<byte>) returns (fs': FS, err: Option<IoError>)
    requires dst in fs.entries && fs.entries[dst] == File([])
    ensures fs'.denied == fs.denied && fs'.full == fs.full
    ensures dst in fs'.entries && fs'.entries[dst].File?
    ensures fs'.entries == fs.entries[dst := fs'.entries[dst]]
    ensures err.None? <==> !fs.full || data == []
    ensures err.None? ==> fs'.entries[dst] == File(data)
    ensures err.Some? ==> err == Some(NoSpace)
  {
    var buf := new byte[BufSize];
    var off := 0;
    fs' := fs;
    while true
      invariant 0 <= off <= |data|
      invariant fs'.denied == fs.denied && fs'.full == fs.full
      invariant fs'.entries == fs.entries[dst := File(data[..off])]
      invariant fs.full ==> off == 0
      decreases |data| - off
    {
      var n := ReadChunk(data, off, buf);
      if n == 0 {
        break;
      }
      if fs.full {
        return fs', Some(NoSpace);
      }
      assert data[..off] + buf[..n] == data[..off + n];
      fs' := fs'.(entries := fs'.entries[dst := File(fs'.entries[dst].data + buf[..n])]);
      off := off + n;
    }
    assert data[..off] == data;
    return fs', None;
  }

  /** copyFile: opens `src`, refuses an existing `dst`, creates `dst` (after
      creating its parent directory when the first attempt fails) and copies
      the bytes in chunks of at most BufSize until a read returns none. */
  method CopyFile(fs: FS, src: Path, dst: Path) returns (fs': FS, err: Option<IoError>)
    ensures fs'.denied == fs.denied && fs'.full == fs.full
    ensures Grows(fs.entries, fs'.entries, dst)
    ensures forall q :: q in fs'.entries && q !in fs.entries && q != dst ==> fs'.entries[q] == Dir
    ensures Lookup(fs.entries, src) == None ==> err == Some(NotExist) && fs' == fs
    ensures Lookup(fs.entries, src).Some? && src in fs.denied ==> err == Some(Permission) && fs' == fs
    ensures Lookup(fs.entries, src).Some? && src !in fs.denied && Lookup(fs.entries, dst).Some? ==>
              err == Some(Exist) && fs' == fs
    ensures Lookup(fs.entries, src) == Some(Dir) ==> err.Some?
    ensures err == Some(NoSpace) ==> fs.full
    ensures err.None? ==> Lookup(fs.entries, dst) == None && Lookup(fs.entries, src).Some?
                          && Lookup(fs.entries, src).value.File?
                          && Lookup(fs'.entries, dst) == Lookup(fs.entries, src)
                          && (fs.full ==> Lookup(fs.entries, src).value.data == [])
    ensures Copyable(fs, src, dst) ==> err.None?
    ensures WF(fs.entries) ==> (err.None? <==> Copyable(fs, src, dst))
  {
    // os.Open(src)
    var s := Lookup(fs.entries, src);
    if s.None? {
      return fs, Some(NotExist);
    }
    if src in fs.denied {
      return fs, Some(Permission);
    }
    // os.Stat(dst)
    if Lookup(fs.entries, dst).Some? {
      return fs, Some(Exist);
    }
    fs', err := CreateFile(fs, dst);
    if err.Some? {
      return;
    }
    if s.value.Dir? {
      // reading a directory fails
      return fs', Some(IsDir);
    }
    var created := fs';
    fs', err := WriteAll(created, dst, s.value.data);
    assert fs'.entries == created.entries[dst := File(fs'.entries[dst].data)];
  }

  // ---------------------------------------------------------------- the walk

  /** The relative paths of the entries below `src`, and [] for `src` itself:
      what the walk visits. */
  function Below(m: Tree, src: Path): set<Path>
  {
    {[]} + set q | q in m && IsPrefix(src, q) :: q[|src|..]
  }

  lemma BelowMembers(m: Tree, src: Path)
    ensures forall rel :: rel in Below(m, src) <==> rel == [] || src + rel in m
  {
    var r := Below(m, src);
    forall rel ensures rel in r <==> rel == [] || src + rel in m {
      PrefixAppend(src, rel);
      if rel != [] && rel in r {
        var q :| q in m && IsPrefix(src, q) && q[|src|..] == rel;
        assert q == src + rel;
      }
    }
  }

  /** What the walk owes for `rel`: a file copied with its bytes, or an
      empty directory recreated. */
  ghost predicate Done(m0: Tree, m: Tree, src: Path, dst: Path, rel: Path) {
    match Lookup(m0, src + rel)
    case Some(File(d)) => Lookup(m, dst + rel) == Some(File(d))
    case Some(Dir) => !HasChild(m0, src + rel) ==> Lookup(m, dst + rel) == Some(Dir)
    case None => true
  }

  /** Every entry added below `dst` copies the entry at the same place below `src`. */
  ghost predicate Mirror(m0: Tree, m: Tree, src: Path, dst: Path) {
    forall q :: q in m && q !in m0 && IsPrefix(dst, q) ==> Lookup(m0, src + q[|dst|..]) == Some(m[q])
  }

  /** `m` keeps every entry of `m0`, and each entry it adds lies on the way to
      `dst` or below it and hangs from a directory. */
  ghost predicate Around(m0: Tree, m: Tree, dst: Path) {
    && (forall q :: q in m0 ==> q in m && m[q] == m0[q])
    && (forall q :: q in m && q !in m0 ==> (IsPrefix(q, dst) || IsPrefix(dst, q)) && q != [] && Lookup(m, Parent(q)) == Some(Dir))
  }

  /** One callback of the walk for the entry at `rel`: a file is copied; a
      directory is recreated when it has no children (PostChildrenCallback);
      a directory the process may not read stops the walk. */
  method Visit(fs: FS, src: Path, dst: Path, rel: Path) returns (fs': FS, err: Option<IoError>)
    ensures fs'.denied == fs.denied && fs'.full == fs.full
    ensures Grows(fs.entries, fs'.entries, dst + rel)
    ensures err.None? ==> forall q :: q in fs'.entries && q !in fs.entries && q != dst + rel ==> fs'.entries[q] == Dir
    ensures err.None? && dst + rel in fs'.entries && dst + rel !in fs.entries ==>
              Lookup(fs.entries, src + rel) == Some(fs'.entries[dst + rel])
    ensures err.None? ==> Done(fs.entries, fs'.entries, src, dst, rel)
    ensures Lookup(fs.entries, src + rel).None? ==> fs' == fs && err == Some(NotExist)
    ensures Lookup(fs.entries, src + rel) == Some(Dir) && src + rel in fs.denied ==> fs' == fs && err == Some(Permission)
    ensures Lookup(fs.entries, src + rel) == Some(Dir) && src + rel !in fs.denied && HasChild(fs.entries, src + rel) ==>
              fs' == fs && err.None?
    ensures Lookup(fs.entries, src + rel) == Some(Dir) && src + rel !in fs.denied && !HasChild(fs.entries, src + rel) ==>
              (fs', err) == MkdirAll(fs, dst + rel)
    ensures Copyable(fs, src + rel, dst + rel) ==> err.None?
    ensures VisitOk(fs, src, dst, rel) ==> err.None?
    ensures WF(fs.entries) && Lookup(fs.entries, src + rel).Some? && Lookup(fs.entries, src + rel).value.File? ==>
              (err.None? <==> Copyable(fs, src + rel, dst + rel))
  {
    var p := src + rel;
    match Lookup(fs.entries, p)
    case None =>
      return fs, Some(NotExist);
    case Some(File(_)) =>
      fs', err := CopyFile(fs, p, dst + rel);
    case Some(Dir) =>
      if p in fs.denied {
        return fs, Some(Permission);
      }
      if HasChild(fs.entries, p) {
        return fs, None;
      }
      var made := MkdirAll(fs, dst + rel);
      fs', err := made.0, made.1;
  }

  /** Entries added around `dst` leave a disjoint `src` subtree as it was. */
  lemma SrcUntouched(m0: Tree, m: Tree, src: Path, dst: Path, rel: Path)
    requires Around(m0, m, dst) && Disjoint(src, dst)
    ensures Lookup(m, src + rel) == Lookup(m0, src + rel)
    ensures HasChild(m, src + rel) == HasChild(m0, src + rel)
  {
    PrefixAppend(src, rel);
    forall q | q in m && q !in m0 ensures !IsPrefix(src, q) {
      if IsPrefix(src, q) {
        if IsPrefix(q, dst) {
          PrefixTransitive(src, q, dst);
        } else {
          PrefixesComparable(src, dst, q);
        }
      }
    }
    if HasChild(m, src + rel) {
      var q :| q in m && IsPrefix(src + rel, q) && |q| == |src + rel| + 1;
      PrefixTransitive(src, src + rel, q);
      assert q in m0;
    }
  }

  /** The part of `q` below `dst`, when `q` lies between `dst` and `dst + rel`. */
  lemma RelOf(dst: Path, rel: Path, q: Path)
    requires IsPrefix(dst, q) && IsPrefix(q, dst + rel)
    ensures q == dst + q[|dst|..] && IsPrefix(q[|dst|..], rel)
  {
    assert q == q[..|dst|] + q[|dst|..];
    assert (dst + rel)[..|q|] == q;
    assert rel[..|q| - |dst|] == (dst + rel)[|dst|..|q|];
  }

  /** A prefix of `rel` gives a path between `src` and `src + rel`. */
  lemma AppendPrefix(src: Path, r: Path, rel: Path)
    requires IsPrefix(r, rel)
    ensures IsPrefix(src, src + r) && IsPrefix(src + r, src + rel)
    ensures r != rel ==> src + r != src + rel
  {
    PrefixAppend(src, r);
    assert (src + rel)[..|src + r|] == src + r;
  }

  /** One step of the walk keeps the walk's invariants. */
  lemma VisitKeeps(m0: Tree, m: Tree, m': Tree, src: Path, dst: Path, rel: Path)
    requires Disjoint(src, dst) && TreeWF(m0, src) && Lookup(m0, src) == Some(Dir)
    requires rel == [] || src + rel in m0
    requires Around(m0, m, dst) && Mirror(m0, m, src, dst)
    requires Grows(m, m', dst + rel)
    requires forall q :: q in m' && q !in m && q != dst + rel ==> m'[q] == Dir
    requires dst + rel in m' && dst + rel !in m ==> Lookup(m, src + rel) == Some(m'[dst + rel])
    ensures Around(m0, m', dst) && Mirror(m0, m', src, dst)
  {
    forall q | q in m' && q !in m0
      ensures (IsPrefix(q, dst) || IsPrefix(dst, q)) && q != [] && Lookup(m', Parent(q)) == Some(Dir)
    {
      if q !in m {
        PrefixAppend(dst, rel);
        PrefixesComparable(q, dst, dst + rel);
      } else {
        assert Lookup(m, Parent(q)) == Some(Dir);
      }
    }
    forall q | q in m' && q !in m0 && IsPrefix(dst, q)
      ensures Lookup(m0, src + q[|dst|..]) == Some(m'[q])
    {
      if q !in m {
        RelOf(dst, rel, q);
        var r := q[|dst|..];
        SrcUntouched(m0, m, src, dst, rel);
        if q != dst + rel {
          AppendPrefix(src, r, rel);
          assert r != rel;
          ChainDirs(m0, src, src + rel, src + r);
        }
      }
    }
  }

  /** A direct child of `p`, as `p` plus one component. */
  lemma ChildOf(m0: Tree, p: Path) returns (x: string)
    requires HasChild(m0, p)
    ensures p + [x] in m0
    ensures StrictlyBelow(m0, p + [x]) < StrictlyBelow(m0, p)
  {
    var c :| c in m0 && IsPrefix(p, c) && |c| == |p| + 1;
    x := c[|p|];
    assert c == p + [x];
    forall q | q in StrictlyBelow(m0, c) ensures q in StrictlyBelow(m0, p) {
      PrefixTransitive(p, c, q);
    }
    assert c in StrictlyBelow(m0, p);
  }

  /** An entry present one level below `dst + rel` makes `dst + rel` a directory. */
  lemma ParentPresent(m: Tree, dst: Path, rel: Path, x: string)
    requires TreeWF(m, dst) && dst + (rel + [x]) in m
    ensures Lookup(m, dst + rel) == Some(Dir)
  {
    var dc := dst + (rel + [x]);
    assert dc == (dst + rel) + [x];
    PrefixAppend(dst, rel + [x]);
    assert Parent(dc) == dst + rel;
  }

  /** A done entry with nothing below it is copied as it is. */
  lemma LeafAt(m0: Tree, m: Tree, src: Path, dst: Path, rel: Path)
    requires Lookup(m0, src) == Some(Dir) && (rel == [] || src + rel in m0)
    requires Done(m0, m, src, dst, rel)
    requires !(Lookup(m0, src + rel) == Some(Dir) && HasChild(m0, src + rel))
    ensures At(m, dst, rel) == At(m0, src, rel)
  {
    if rel == [] {
      assert src + rel == src;
    }
  }

  /** Below the two roots, the copy has what the source has, by induction on
      the entries strictly below. */
  lemma {:induction false} MirrorAt(m0: Tree, m: Tree, src: Path, dst: Path, rel: Path)
    requires Lookup(m0, src) == Some(Dir) && TreeWF(m, dst)
    requires forall r :: r in Below(m0, src) ==> Done(m0, m, src, dst, r)
    requires rel == [] || src + rel in m0
    ensures At(m, dst, rel) == At(m0, src, rel)
    decreases |StrictlyBelow(m0, src + rel)|
  {
    var p := src + rel;
    if Lookup(m0, p) == Some(Dir) && HasChild(m0, p) {
      var x := ChildOf(m0, p);
      assert p + [x] == src + (rel + [x]);
      assert StrictlyBelow(m0, src + (rel + [x])) < StrictlyBelow(m0, p);
      SubsetSmaller(StrictlyBelow(m0, src + (rel + [x])), StrictlyBelow(m0, p));
      MirrorAt(m0, m, src, dst, rel + [x]);
      ParentPresent(m, dst, rel, x);
    } else {
      assert rel in Below(m0, src);
      LeafAt(m0, m, src, dst, rel);
    }
  }

  lemma {:induction false} SubsetSmaller<T>(a: set<T>, b: set<T>)
    requires a < b
    ensures |a| < |b|
    decreases |a|
  {
    var x :| x in b && x !in a;
    if a == {} {
      assert x in b;
    } else {
      var y :| y in a;
      assert x in b - {y} && x !in a - {y};
      SubsetSmaller(a - {y}, b - {y});
    }
  }

  function StrictlyBelow(m: Tree, p: Path): set<Path> {
    set q | q in m && IsPrefix(p, q) && q != p
  }

  /** Once every entry below `src` is done, the tree below `dst` is the tree below `src`. */
  lemma WalkComplete(m0: Tree, m: Tree, src: Path, dst: Path)
    requires Fresh(m0, dst) && Lookup(m0, src) == Some(Dir)
    requires Mirror(m0, m, src, dst) && TreeWF(m, dst)
    requires forall r :: r in Below(m0, src) ==> Done(m0, m, src, dst, r)
    ensures SameTree(m, dst, m0, src)
  {
    forall rel ensures At(m, dst, rel) == At(m0, src, rel) {
      if rel == [] || src + rel in m0 {
        MirrorAt(m0, m, src, dst, rel);
      } else {
        var q := dst + rel;
        PrefixAppend(dst, rel);
        assert q !in m0;
        assert q[|dst|..] == rel;
        assert q !in m;
      }
    }
  }

  /** Every file the walk added lies below `dst`, at an entry already done. */
  ghost predicate FilesDone(m0: Tree, m: Tree, dst: Path, done: set<Path>) {
    forall q :: q in m && q !in m0 && m[q].File? ==> IsPrefix(dst, q) && q[|dst|..] in done
  }

  /** The walk's invariant under the conditions of the round trip: the
      copy mirrors the source, hangs together, owes nothing for `done`, and
      holds no file for an entry still to visit. */
  ghost predicate Walked(m0: Tree, m: Tree, src: Path, dst: Path, done: set<Path>) {
    && Mirror(m0, m, src, dst) && TreeWF(m, dst)
    && (forall r :: r in done ==> Done(m0, m, src, dst, r))
    && FilesDone(m0, m, dst, done)
  }

  /** What lets RecursiveCopyDir through, besides an open way to `dst`:
      every entry at or below `src` can be read and copied, and no path at
      or below `dst` is denied. */
  ghost predicate CopyOk(fs: FS, src: Path, dst: Path) {
    && (forall q :: IsPrefix(src, q) ==> Readable(fs, q))
    && (forall q :: IsPrefix(dst, q) ==> q !in fs.denied)
  }

  /** What lets one step of the walk through: the entry at `src + rel`
      exists and can be read, the way to its copy is open, and a file's
      copy is not there yet. */
  ghost predicate VisitOk(fs: FS, src: Path, dst: Path, rel: Path) {
    && Lookup(fs.entries, src + rel).Some? && Readable(fs, src + rel) && Makeable(fs, dst + rel)
    && (Lookup(fs.entries, src + rel).value.File? ==> Lookup(fs.entries, dst + rel) == None)
  }

  /** Before each step of a walk that may succeed, the entry to visit is
      as it was, readable, and its copy can be created. */
  lemma VisitReady(fs0: FS, fs: FS, src: Path, dst: Path, rel: Path, done: set<Path>)
    requires Disjoint(src, dst) && TreeWF(fs0.entries, src) && Lookup(fs0.entries, src) == Some(Dir)
    requires Fresh(fs0.entries, dst) && Makeable(fs0, dst) && CopyOk(fs0, src, dst)
    requires fs.denied == fs0.denied && fs.full == fs0.full
    requires rel in Below(fs0.entries, src) && rel !in done
    requires Around(fs0.entries, fs.entries, dst) && Walked(fs0.entries, fs.entries, src, dst, done)
    ensures VisitOk(fs, src, dst, rel)
  {
    var m0, m := fs0.entries, fs.entries;
    BelowMembers(m0, src);
    SrcUntouched(m0, m, src, dst, rel);
    PrefixAppend(src, rel);
    PrefixAppend(dst, rel);
    assert src + [] == src;
    forall q | IsPrefix(q, dst + rel) ensures !Blocks(fs, q) {
      PrefixesComparable(q, dst, dst + rel);
      if IsPrefix(q, dst) {
        assert !Blocks(fs0, q);
        if q in m && q !in m0 && IsPrefix(dst, q) {
          assert q == dst && q[|dst|..] == [];
        }
      } else {
        RelOf(dst, rel, q);
        var r := q[|dst|..];
        if q in m && q != dst + rel {
          AppendPrefix(src, r, rel);
          ChainDirs(m0, src, src + rel, src + r);
        }
      }
    }
  }

  /** A step that adds one file at `dst + rel` keeps every added file done. */
  lemma FilesDoneStep(m0: Tree, m: Tree, m': Tree, dst: Path, rel: Path, done: set<Path>)
    requires FilesDone(m0, m, dst, done) && Grows(m, m', dst + rel)
    requires forall q :: q in m' && q !in m && q != dst + rel ==> m'[q] == Dir
    ensures FilesDone(m0, m', dst, done + {rel})
  {
    PrefixAppend(dst, rel);
  }

  /** One step of the walk keeps its invariant and adds `rel` to what is done. */
  lemma WalkStep(m0: Tree, m: Tree, m': Tree, src: Path, dst: Path, rel: Path, done: set<Path>)
    requires Disjoint(src, dst) && TreeWF(m0, src) && Lookup(m0, src) == Some(Dir)
    requires rel in Below(m0, src)
    requires Around(m0, m, dst) && Walked(m0, m, src, dst, done)
    requires Grows(m, m', dst + rel)
    requires forall q :: q in m' && q !in m && q != dst + rel ==> m'[q] == Dir
    requires dst + rel in m' && dst + rel !in m ==> Lookup(m, src + rel) == Some(m'[dst + rel])
    requires Done(m, m', src, dst, rel)
    ensures Around(m0, m', dst) && Walked(m0, m', src, dst, done + {rel})
  {
    BelowMembers(m0, src);
    FilesDoneStep(m0, m, m', dst, rel, done);
    VisitKeeps(m0, m, m', src, dst, rel);
    GrowsKeepsTreeWF(m, m', dst + rel, dst);
    SrcUntouched(m0, m, src, dst, rel);
    forall r | r in done + {rel} ensures Done(m0, m', src, dst, r) {
      if r != rel {
        DoneKept(m0, m, m', src, dst, rel, r);
      }
    }
  }

  /** The walk of a directory `src`: every entry below it, in any order,
      and `src` itself, each visited once; the first error stops it. */
  method WalkDir(fs: FS, src: Path, dst: Path) returns (fs': FS, err: Option<IoError>)
    requires Lookup(fs.entries, src) == Some(Dir)
    ensures fs'.denied == fs.denied && fs'.full == fs.full
    ensures Around(fs.entries, fs'.entries, dst)
    ensures err.None? && Disjoint(src, dst) && TreeWF(fs.entries, src) && Fresh(fs.entries, dst) ==>
              SameTree(fs'.entries, dst, fs.entries, src)
    ensures Disjoint(src, dst) && TreeWF(fs.entries, src) && Fresh(fs.entries, dst) && Makeable(fs, dst) && CopyOk(fs, src, dst) ==>
              err.None?
  {
    var m0 := fs.entries;
    ghost var good := Disjoint(src, dst) && TreeWF(m0, src) && Fresh(m0, dst);
    ghost var ok := good && Makeable(fs, dst) && CopyOk(fs, src, dst);
    var all := Below(m0, src);
    var todo := all;
    ghost var done: set<Path> := {};
    fs' := fs;
    if good {
      assert TreeWF(m0, dst);
    }
    while todo != {}
      invariant todo <= all && all <= todo + done && todo !! done
      invariant fs'.denied == fs.denied && fs'.full == fs.full
      invariant Around(m0, fs'.entries, dst)
      invariant good ==> Walked(m0, fs'.entries, src, dst, done)
      decreases |todo|
    {
      var rel :| rel in todo;
      var m := fs'.entries;
      if ok {
        VisitReady(fs, fs', src, dst, rel, done);
      }
      fs', err := Visit(fs', src, dst, rel);
      GrowsAround(m0, m, fs'.entries, dst, rel);
      if err.Some? {
        return;
      }
      if good {
        WalkStep(m0, m, fs'.entries, src, dst, rel, done);
      }
      done := done + {rel};
      todo := todo - {rel};
    }
    err := None;
    if good {
      WalkComplete(m0, fs'.entries, src, dst);
    }
  }

  /** RecursiveCopyDir: walks `src`, copying each file to the same place below
      `dst` and recreating each directory without children, and stops at the
      first error. The walk refuses a `src` that is not a directory, and a
      directory the process may not read stops the walk before it starts. */
  method RecursiveCopyDir(fs: FS, src: Path, dst: Path) returns (fs': FS, err: Option<IoError>)
    ensures fs'.denied == fs.denied && fs'.full == fs.full
    ensures Around(fs.entries, fs'.entries, dst)
    ensures Lookup(fs.entries, src) == None ==> err == Some(NotExist) && fs' == fs
    ensures Lookup(fs.entries, src).Some? && Lookup(fs.entries, src).value.File? ==> err == Some(NotDir) && fs' == fs
    ensures Lookup(fs.entries, src) == Some(Dir) && src in fs.denied ==> err == Some(Permission) && fs' == fs
    ensures err.None? && Disjoint(src, dst) && TreeWF(fs.entries, src) && Fresh(fs.entries, dst) ==>
              SameTree(fs'.entries, dst, fs.entries, src)
    ensures Lookup(fs.entries, src) == Some(Dir) && Disjoint(src, dst) && TreeWF(fs.entries, src) && Fresh(fs.entries, dst) &&
            Makeable(fs, dst) && CopyOk(fs, src, dst)
            ==> err.None?
  {
    match Lookup(fs.entries, src)
    case None =>
      return fs, Some(NotExist);
    case Some(File(_)) =>
      return fs, Some(NotDir);
    case Some(Dir) =>
      if src in fs.denied {
        assert !Readable(fs, src) && IsPrefix(src, src);
        return fs, Some(Permission);
      }
      fs', err := WalkDir(fs, src, dst);
  }

  /** A step that grows toward `dst + rel` keeps the entries kept so far. */
  lemma GrowsAround(m0: Tree, m: Tree, m': Tree, dst: Path, rel: Path)
    requires Around(m0, m, dst) && Grows(m, m', dst + rel)
    ensures Around(m0, m', dst)
  {
    forall q | q in m' && q !in m0
      ensures (IsPrefix(q, dst) || IsPrefix(dst, q)) && q != [] && Lookup(m', Parent(q)) == Some(Dir)
    {
      if q !in m {
        PrefixAppend(dst, rel);
        PrefixesComparable(q, dst, dst + rel);
      } else {
        assert Lookup(m, Parent(q)) == Some(Dir);
      }
    }
  }

  /** What was done stays done as the copy grows. */
  lemma DoneKept(m0: Tree, m: Tree, m': Tree, src: Path, dst: Path, rel: Path, r: Path)
    requires Grows(m, m', dst + rel) && Done(m0, m, src, dst, r)
    ensures Done(m0, m', src, dst, r)
  {
  }
}
