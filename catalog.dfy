/** The remote release catalog of upgrade.go (LatestVersionInfo): anchor texts
    of the tag list are filtered, parsed and sorted newest first with the
    source's comparator. The page is given as its sequence of anchor texts. */
module Catalog {
  import opened Text
  import opened Versions

  /** What one anchor contributes: its version when the text starts with "go"
      and the rest parses, nothing otherwise. */
  function Entry(text: string): (r: Option<VersionInfo>)
    ensures r.Some? ==> Valid(r.value)
  {
    if HasPrefix(text, "go") then
      match ExtractVersionInfo(text[2..])
      case Ok(v) => Some(v)
      case Err(_) => None
    else None
  }

  /** The values of the present options, in order. */
  function Somes<T>(xs: seq<Option<T>>): seq<T>
  {
    if xs == [] then []
    else Somes(xs[..|xs| - 1]) + (if xs[|xs| - 1].Some? then [xs[|xs| - 1].value] else [])
  }

  lemma {:induction false} SomesMembers<T>(xs: seq<Option<T>>, v: T)
    ensures v in Somes(xs) <==> Some(v) in xs
    decreases |xs|
  {
    if xs != [] {
      var init := xs[..|xs| - 1];
      SomesMembers(init, v);
      assert xs == init + [xs[|xs| - 1]];
    }
  }

  /** What each anchor of the page contributes. */
  function Entries(anchors: seq<string>): (r: seq<Option<VersionInfo>>)
    ensures |r| == |anchors|
  {
    seq(|anchors|, i requires 0 <= i < |anchors| => Entry(anchors[i]))
  }

  /** The entries kept from the page, in page order. */
  function Kept(anchors: seq<string>): seq<VersionInfo>
  {
    Somes(Entries(anchors))
  }

  /** Newest first by the comparator: every earlier entry is Newer than every later one. */
  predicate NewestFirst(s: seq<VersionInfo>) {
    forall i, j :: 0 <= i < j < |s| ==> Newer(s[i], s[j])
  }

  predicate AllValid(s: seq<VersionInfo>) {
    forall i :: 0 <= i < |s| ==> Valid(s[i])
  }

  /** A version is kept exactly when some anchor yields it. */
  lemma KeptMembers(anchors: seq<string>, v: VersionInfo)
    ensures v in Kept(anchors) <==> exists i :: 0 <= i < |anchors| && Entry(anchors[i]) == Some(v)
  {
    var xs := Entries(anchors);
    SomesMembers(xs, v);
    if Some(v) in xs {
      var i :| 0 <= i < |xs| && xs[i] == Some(v);
      assert Entry(anchors[i]) == Some(v);
    }
    if exists i :: 0 <= i < |anchors| && Entry(anchors[i]) == Some(v) {
      var i :| 0 <= i < |anchors| && Entry(anchors[i]) == Some(v);
      assert xs[i] == Some(v);
    }
  }

  /** Every kept entry is a parsed version. */
  lemma KeptValid(anchors: seq<string>)
    ensures AllValid(Kept(anchors))
  {
    var s := Kept(anchors);
    forall i | 0 <= i < |s| ensures Valid(s[i]) {
      SomesMembers(Entries(anchors), s[i]);
    }
  }

  /** The comparator chains on parsed versions. */
  lemma NewerTransitive(a: VersionInfo, b: VersionInfo, c: VersionInfo)
    requires Valid(a) && Valid(b) && Valid(c)
    requires Newer(a, b) && Newer(b, c)
    ensures Newer(a, c)
  {
    NewerIsKeyAtLeast(a, b);
    NewerIsKeyAtLeast(b, c);
    NewerIsKeyAtLeast(a, c);
    KeyTransitive(a, b, c);
  }

  /** Any two parsed versions are comparable. */
  lemma NewerTotal(a: VersionInfo, b: VersionInfo)
    requires Valid(a) && Valid(b)
    ensures Newer(a, b) || Newer(b, a)
  {
    NewerIsKeyAtLeast(a, b);
    NewerIsKeyAtLeast(b, a);
    KeyTotal(a, b);
  }

  /** sort.Slice with the comparator `less`, here by insertion: `less` must
      be total and transitive on parsed versions; it need not be strict. */
  method SortSlice(a: array<VersionInfo>, less: (VersionInfo, VersionInfo) -> bool)
    modifies a
    requires forall x, y :: Valid(x) && Valid(y) ==> less(x, y) || less(y, x)
    requires forall x, y, z :: Valid(x) && Valid(y) && Valid(z) && less(x, y) && less(y, z) ==> less(x, z)
    requires AllValid(a[..])
    ensures forall i, j :: 0 <= i < j < a.Length ==> less(a[i], a[j])
    ensures multiset(a[..]) == multiset(old(a[..]))
  {
    var i := 0;
    while i < a.Length
      invariant 0 <= i <= a.Length
      invariant AllValid(a[..])
      invariant multiset(a[..]) == multiset(old(a[..]))
      invariant forall k, l :: 0 <= k < l < i ==> less(a[k], a[l])
    {
      Insert(a, i, less);
      i := i + 1;
    }
  }

  /** One step of the insertion sort: moves a[i] down into the sorted
      prefix a[..i] by swaps. */
  method Insert(a: array<VersionInfo>, i: int, less: (VersionInfo, VersionInfo) -> bool)
    modifies a
    requires 0 <= i < a.Length
    requires forall x, y :: Valid(x) && Valid(y) ==> less(x, y) || less(y, x)
    requires forall x, y, z :: Valid(x) && Valid(y) && Valid(z) && less(x, y) && less(y, z) ==> less(x, z)
    requires AllValid(a[..])
    requires forall k, l :: 0 <= k < l < i ==> less(a[k], a[l])
    ensures AllValid(a[..])
    ensures forall k, l :: 0 <= k < l <= i ==> less(a[k], a[l])
    ensures multiset(a[..]) == multiset(old(a[..]))
  {
    var j := i;
    while j > 0 && !less(a[j - 1], a[j])
      invariant 0 <= j <= i
      invariant AllValid(a[..])
      invariant multiset(a[..]) == multiset(old(a[..]))
      invariant forall k, l :: 0 <= k < l <= i && k != j && l != j ==> less(a[k], a[l])
      invariant forall l :: j < l <= i ==> less(a[j], a[l])
    {
      Swap(a, j - 1, j);
      j := j - 1;
    }
  }

  /** Exchanges two elements of the array. */
  method Swap(a: array<VersionInfo>, i: int, j: int)
    modifies a
    requires 0 <= i < j < a.Length
    ensures a[..] == old(a[..])[i := old(a[j])][j := old(a[i])]
    ensures multiset(a[..]) == multiset(old(a[..]))
  {
    a[i], a[j] := a[j], a[i];
  }

  /** The loop of LatestVersionInfo: keeps the anchors that start with "go"
      and whose rest parses, in page order. */
  method FilterAnchors(anchors: seq<string>) returns (verList: seq<VersionInfo>)
    ensures verList == Kept(anchors)
  {
    verList := [];
    var i := 0;
    while i < |anchors|
      invariant 0 <= i <= |anchors|
      invariant verList == Somes(Entries(anchors)[..i])
    {
      var text := anchors[i];
      assert Entries(anchors)[..i + 1] == Entries(anchors)[..i] + [Entry(text)];
      if HasPrefix(text, "go") {
        match ExtractVersionInfo(text[2..])
        case Ok(v) => verList := verList + [v];
        case Err(_) =>
      }
      i := i + 1;
    }
    assert Entries(anchors)[..i] == Entries(anchors);
  }

  /** LatestVersionInfo over a given page: the kept entries, sorted newest
      first with the source's comparator. */
  method LatestVersionInfo(anchors: seq<string>) returns (versions: seq<VersionInfo>)
    ensures multiset(versions) == multiset(Kept(anchors))
    ensures NewestFirst(versions)
    ensures AllValid(versions)
  {
    var verList := FilterAnchors(anchors);
    KeptValid(anchors);
    var a := new VersionInfo[|verList|](k requires 0 <= k < |verList| => verList[k]);
    assert a[..] == verList;
    forall x, y | Valid(x) && Valid(y) ensures Newer(x, y) || Newer(y, x) {
      NewerTotal(x, y);
    }
    forall x, y, z | Valid(x) && Valid(y) && Valid(z) && Newer(x, y) && Newer(y, z) ensures Newer(x, z) {
      NewerTransitive(x, y, z);
    }
    SortSlice(a, Newer);
    versions := a[..];
    assert forall k :: 0 <= k < |versions| ==> versions[k] in multiset(verList);
  }

  /** The first element of a non-empty newest-first list of parsed versions
      is at least as new as every element of it. */
  lemma HeadIsNewest(s: seq<VersionInfo>, v: VersionInfo)
    requires NewestFirst(s) && AllValid(s) && v in s
    ensures Newer(s[0], v)
  {
    var k :| 0 <= k < |s| && s[k] == v;
    if k == 0 {
      NewerSelf(v);
    }
  }

  /** Two newest-first orders of the same parsed versions start alike. */
  lemma HeadsAgree(s: seq<VersionInfo>, t: seq<VersionInfo>)
    requires NewestFirst(s) && NewestFirst(t) && AllValid(s) && AllValid(t)
    requires multiset(s) == multiset(t) && s != []
    ensures t != [] && s[0] == t[0]
  {
    assert s[0] in multiset(t);
    assert t != [] && t[0] in multiset(s);
    HeadIsNewest(s, t[0]);
    HeadIsNewest(t, s[0]);
    NewerIsKeyAtLeast(s[0], t[0]);
    NewerIsKeyAtLeast(t[0], s[0]);
    KeyAntisymmetric(s[0], t[0]);
  }

  lemma TailsAgree<T>(s: seq<T>, t: seq<T>)
    requires s != [] && t != [] && s[0] == t[0] && multiset(s) == multiset(t)
    ensures multiset(s[1..]) == multiset(t[1..])
  {
    assert s == [s[0]] + s[1..] && t == [t[0]] + t[1..];
    assert multiset(s) == multiset{s[0]} + multiset(s[1..]);
    assert multiset(t) == multiset{t[0]} + multiset(t[1..]);
    calc {
      multiset(s[1..]);
      multiset(s) - multiset{s[0]};
      multiset(t) - multiset{t[0]};
      multiset(t[1..]);
    }
  }

  /** There is one newest-first order of a collection of parsed versions, so
      any correct sort gives the same list, whatever it does with ties. */
  lemma {:induction false} SortedUnique(s: seq<VersionInfo>, t: seq<VersionInfo>)
    requires NewestFirst(s) && NewestFirst(t) && AllValid(s) && AllValid(t)
    requires multiset(s) == multiset(t)
    ensures s == t
    decreases |s|
  {
    if s != [] {
      HeadsAgree(s, t);
      TailsAgree(s, t);
      SortedUnique(s[1..], t[1..]);
      assert s == [s[0]] + s[1..] && t == [t[0]] + t[1..];
    } else {
      assert |t| == |multiset(t)| == 0;
    }
  }
}
