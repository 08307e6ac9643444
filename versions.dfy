/** The version model of upgrade.go: the VersionInfo record, its parser
    ExtractVersionInfo, its printer String, the download URL template and
    the newest-first comparator used to sort the remote catalog. */
module Versions {
  import opened Text

  /** A Go release number: major.minor.build, or major.minor with a beta or
      release-candidate channel number. Field order follows the Go struct. */
  datatype VersionInfo = VersionInfo(
    major: int, minor: int, build: int,
    rc: bool, rcVersion: int,
    beta: bool, betaVersion: int)

  /** The zero value of the Go struct. */
  const Zero := VersionInfo(0, 0, 0, false, 0, false, 0)

  /** The reasons ExtractVersionInfo gives up. A bad channel number is
      reported as a bad minor version, as the source does. */
  datatype ParseError = MalformedVersion | BadMajor | BadMinor | BadBuild

  datatype Parsed = Ok(value: VersionInfo) | Err(error: ParseError)

  /** What every parsed version satisfies: at most one channel flag, and the
      number of an unused channel is zero. */
  predicate Valid(v: VersionInfo) {
    && !(v.beta && v.rc)
    && (!v.beta ==> v.betaVersion == 0)
    && (!v.rc ==> v.rcVersion == 0)
  }

  /** The versions String prints faithfully: valid, and without a build
      number when a channel flag is set. */
  predicate Canonical(v: VersionInfo) {
    Valid(v) && ((v.beta || v.rc) ==> v.build == 0)
  }

  // ---------------------------------------------------------------- parsing

  /** The second dotted component: "<minor>beta<n>", "<minor>rc<n>" or
      "<minor>". Only the minor and channel fields of the result are set. */
  function ParseMinorPart(part: string): (r: Parsed)
    ensures r.Ok? ==> Valid(r.value) && r.value.major == 0 && r.value.build == 0
  {
    if Contains(part, "beta") then
      var betaInfo := Split(part, "beta");
      match (Atoi(betaInfo[0]), Atoi(betaInfo[1]))
      case (Some(minor), Some(n)) => Ok(VersionInfo(0, minor, 0, false, 0, true, n))
      case _ => Err(BadMinor)
    else if Contains(part, "rc") then
      var rcInfo := Split(part, "rc");
      match (Atoi(rcInfo[0]), Atoi(rcInfo[1]))
      case (Some(minor), Some(n)) => Ok(VersionInfo(0, minor, 0, true, n, false, 0))
      case _ => Err(BadMinor)
    else
      match Atoi(part)
      case Some(minor) => Ok(VersionInfo(0, minor, 0, false, 0, false, 0))
      case None => Err(BadMinor)
  }

  /** ExtractVersionInfo: parses "1.10.3", "1.18", "1.11beta2", "2.12rc4".
      Go returns the zero VersionInfo together with the error; here the
      error alternative carries no version at all. */
  function ExtractVersionInfo(version: string): (r: Parsed)
    ensures r.Ok? ==> Valid(r.value)
  {
    var verArr := Split(version, ".");
    if |verArr| != 3 && |verArr| != 2 then Err(MalformedVersion)
    else
      match Atoi(verArr[0])
      case None => Err(BadMajor)
      case Some(major) =>
        match ParseMinorPart(verArr[1])
        case Err(e) => Err(e)
        case Ok(m) =>
          if |verArr| == 2 then Ok(m.(major := major))
          else
            match Atoi(verArr[2])
            case None => Err(BadBuild)
            case Some(build) => Ok(m.(major := major, build := build))
  }

  // ---------------------------------------------------------------- printing

  /** VersionInfo.String: "M.mbetaN", "M.mrcN" or "M.m.b"; beta wins when
      both flags are set. */
  function String(v: VersionInfo): string {
    if v.beta then Itoa(v.major) + "." + Itoa(v.minor) + "beta" + Itoa(v.betaVersion)
    else if v.rc then Itoa(v.major) + "." + Itoa(v.minor) + "rc" + Itoa(v.rcVersion)
    else Itoa(v.major) + "." + Itoa(v.minor) + "." + Itoa(v.build)
  }

  // ---------------------------------------------------------------- download URL

  /** The two build variants of the tool (upgrade_unix.go, upgrade_windows.go). */
  datatype Platform = Unix | Windows

  /** The archive extension the build variant downloads. */
  function Format(p: Platform): string {
    match p
    case Unix => "tar.gz"
    case Windows => "zip"
  }

  /** The directory probed when the given executable cannot be run. */
  function DefaultInstallDir(p: Platform): string {
    match p
    case Unix => "/usr/local/go/bin"
    case Windows => "C:\\Go\\bin"
  }

  const DownloadURLWithPattern := "https://dl.google.com/go/go[version].[os]-[arch].[ext]"

  /** Index of the first pair whose key is a prefix of `s`. */
  function FirstMatch(s: string, pairs: seq<(string, string)>): (r: Option<nat>)
    ensures r.Some? ==> r.value < |pairs| && HasPrefix(s, pairs[r.value].0)
    ensures r.Some? ==> forall k :: 0 <= k < r.value ==> !HasPrefix(s, pairs[k].0)
    ensures r.None? ==> forall k :: 0 <= k < |pairs| ==> !HasPrefix(s, pairs[k].0)
  {
    if |pairs| == 0 then None
    else if HasPrefix(s, pairs[0].0) then Some(0)
    else
      match FirstMatch(s, pairs[1..])
      case None => None
      case Some(k) => Some(k + 1)
  }

  /** strings.Replacer.Replace: scans left to right; at each position the
      first key that matches is replaced by its value and scanning resumes
      after the key, so inserted text is never rescanned. */
  function Replace(s: string, pairs: seq<(string, string)>): string
    requires forall k :: 0 <= k < |pairs| ==> |pairs[k].0| > 0
    decreases |s|
  {
    match FirstMatch(s, pairs)
    case Some(k) => pairs[k].1 + Replace(s[|pairs[k].0|..], pairs)
    case None => if s == "" then "" else [s[0]] + Replace(s[1..], pairs)
  }

  /** DownloadUrl: substitutes the placeholders of the URL pattern. */
  function DownloadUrl(v: VersionInfo, os: string, arch: string, p: Platform): string {
    Replace(DownloadURLWithPattern, Pairs(String(v), arch, Format(p), os))
  }

  // ---------------------------------------------------------------- ordering

  /** The comparator given to sort.Slice: "a is newer than or as new as b".
      Major, minor and build descending, then release before RC before
      beta, then the higher RC number, then the higher beta number; true on
      equal keys. */
  function Newer(a: VersionInfo, b: VersionInfo): bool {
    if a.major < b.major then false
    else if a.major > b.major then true
    else if a.minor < b.minor then false
    else if a.minor > b.minor then true
    else if a.build < b.build then false
    else if a.build > b.build then true
    else if (a.beta || a.rc) && !(b.rc || b.beta) then false
    else if !(a.beta || a.rc) && (b.rc || b.beta) then true
    else if a.beta && b.rc then false
    else if a.rc && b.beta then true
    else if a.rcVersion < b.rcVersion then false
    else if a.rcVersion > b.rcVersion then true
    else if a.betaVersion < b.betaVersion then false
    else if a.betaVersion > b.betaVersion then true
    else true
  }

  /** Channel precedence: release 2, RC 1, beta 0. */
  function Rank(v: VersionInfo): nat {
    if v.beta then 0 else if v.rc then 1 else 2
  }

  /** The reference order: lexicographic on the sort key, larger first. */
  predicate KeyAtLeast(a: VersionInfo, b: VersionInfo) {
    if a.major != b.major then a.major > b.major
    else if a.minor != b.minor then a.minor > b.minor
    else if a.build != b.build then a.build > b.build
    else if Rank(a) != Rank(b) then Rank(a) > Rank(b)
    else if a.rcVersion != b.rcVersion then a.rcVersion > b.rcVersion
    else a.betaVersion >= b.betaVersion
  }

  // ---------------------------------------------------------------- lemmas: parsing and printing

  /** ExtractVersionInfo accepts only two or three dotted components; the
      major number is the first, the build is the third or 0 when absent. */
  lemma ExtractShape(version: string)
    ensures var parts := Split(version, ".");
      match ExtractVersionInfo(version)
      case Err(e) => (|parts| != 2 && |parts| != 3) == (e == MalformedVersion)
      case Ok(v) =>
        && (|parts| == 2 || |parts| == 3)
        && Atoi(parts[0]) == Some(v.major)
        && (|parts| == 2 ==> v.build == 0)
        && (|parts| == 3 ==> Atoi(parts[2]) == Some(v.build))
  {
  }

  /** The channel markers: "beta" is looked for before "rc"; exactly the
      flag of the marker found is set; the minor number is the text before
      the marker and the channel number the text after it. */
  lemma ExtractChannels(version: string)
    requires ExtractVersionInfo(version).Ok?
    ensures var v := ExtractVersionInfo(version).value;
      var part := Split(version, ".")[1];
      && v.beta == Contains(part, "beta")
      && v.rc == (!Contains(part, "beta") && Contains(part, "rc"))
      && !(v.beta && v.rc)
      && (v.beta ==>
            Atoi(Split(part, "beta")[0]) == Some(v.minor) && Atoi(Split(part, "beta")[1]) == Some(v.betaVersion))
      && (v.rc ==>
            Atoi(Split(part, "rc")[0]) == Some(v.minor) && Atoi(Split(part, "rc")[1]) == Some(v.rcVersion))
      && (!v.beta && !v.rc ==> Atoi(part) == Some(v.minor))
  {
  }

  /** Splitting "<minor><marker><n>" at the marker, when `n` is printed digits. */
  lemma SplitAtMarker(minor: int, marker: string, n: string)
    requires marker == "rc" || marker == "beta"
    requires forall c :: c in n ==> IsDigit(c) || c == '-'
    ensures Contains(Itoa(minor) + marker + n, marker)
    ensures Split(Itoa(minor) + marker + n, marker) == [Itoa(minor), n]
  {
    ItoaChars(minor);
    IndexOfAfter(Itoa(minor), marker, n);
    SplitAfter(Itoa(minor), marker, n);
    assert marker[0] !in n;
    SplitAbsent(n, marker);
  }

  /** The second component of a printed beta version. */
  lemma MinorPartBeta(minor: int, n: string)
    requires forall c :: c in n ==> IsDigit(c) || c == '-'
    ensures ParseMinorPart(Itoa(minor) + "beta" + n) == match Atoi(n)
        case None => Err(BadMinor)
        case Some(k) => Ok(VersionInfo(0, minor, 0, false, 0, true, k))
  {
    AtoiItoa(minor);
    SplitAtMarker(minor, "beta", n);
  }

  /** The second component of a printed release-candidate version. */
  lemma MinorPartRc(minor: int, n: string)
    requires forall c :: c in n ==> IsDigit(c) || c == '-'
    ensures ParseMinorPart(Itoa(minor) + "rc" + n) == match Atoi(n)
        case None => Err(BadMinor)
        case Some(k) => Ok(VersionInfo(0, minor, 0, true, k, false, 0))
  {
    var part := Itoa(minor) + "rc" + n;
    AtoiItoa(minor);
    SplitAtMarker(minor, "rc", n);
    ItoaChars(minor);
    assert 'b' !in part;
    IndexOfAbsent(part, "beta");
  }

  /** The second component of a printed release version. */
  lemma MinorPartPlain(minor: int)
    ensures ParseMinorPart(Itoa(minor)) == Ok(VersionInfo(0, minor, 0, false, 0, false, 0))
  {
    ItoaChars(minor);
    AtoiItoa(minor);
    IndexOfAbsent(Itoa(minor), "beta");
    IndexOfAbsent(Itoa(minor), "rc");
  }

  /** Two-component text: the parse is the minor part with the major set. */
  lemma ExtractTwoParts(version: string, major: int, part: string)
    requires Split(version, ".") == [Itoa(major), part]
    ensures ExtractVersionInfo(version) == match ParseMinorPart(part)
      case Err(e) => Err(e)
      case Ok(m) => Ok(m.(major := major))
  {
    AtoiItoa(major);
  }

  /** The second component of a printed version whose marker has nothing after it. */
  lemma BareMarkerPart(minor: int, marker: string)
    requires marker == "rc" || marker == "beta"
    ensures ParseMinorPart(Itoa(minor) + marker) == Err(BadMinor)
  {
    assert Itoa(minor) + marker == Itoa(minor) + marker + "";
    assert Atoi("") == None;
    if marker == "rc" { MinorPartRc(minor, ""); } else { MinorPartBeta(minor, ""); }
  }

  /** A channel marker with nothing after it is rejected: Atoi("") fails, so
      the channel number never defaults to 0 ("1.18rc", "1.18beta"). */
  lemma BareMarkerRejected(major: int, minor: int, marker: string)
    requires marker == "rc" || marker == "beta"
    ensures ExtractVersionInfo(Itoa(major) + "." + Itoa(minor) + marker) == Err(BadMinor)
  {
    ItoaChars(major);
    ItoaChars(minor);
    var part := Itoa(minor) + marker;
    assert Itoa(major) + "." + Itoa(minor) + marker == Itoa(major) + "." + part;
    assert '.' !in part;
    SplitTwo(Itoa(major), part);
    BareMarkerPart(minor, marker);
    ExtractTwoParts(Itoa(major) + "." + part, major, part);
  }

  lemma SplitTwo(a: string, b: string)
    requires '.' !in a && '.' !in b
    ensures Split(a + "." + b, ".") == [a, b]
  {
    SplitAfter(a, ".", b);
    SplitAbsent(b, ".");
  }

  lemma NoDotInPart(minor: int, marker: string, k: int)
    requires marker == "rc" || marker == "beta"
    ensures '.' !in Itoa(minor) + marker + Itoa(k)
  {
    ItoaChars(minor);
    ItoaChars(k);
  }

  /** The dotted components of a printed pre-release version. */
  lemma SplitPrerelease(v: VersionInfo)
    requires v.beta || v.rc
    ensures Split(String(v), ".") == [Itoa(v.major), Itoa(v.minor) + ChannelMarker(v) + Itoa(ChannelNumber(v))]
  {
    var part := Itoa(v.minor) + ChannelMarker(v) + Itoa(ChannelNumber(v));
    assert String(v) == Itoa(v.major) + "." + part;
    ItoaChars(v.major);
    NoDotInPart(v.minor, ChannelMarker(v), ChannelNumber(v));
    SplitTwo(Itoa(v.major), part);
  }

  function ChannelMarker(v: VersionInfo): string {
    if v.beta then "beta" else "rc"
  }

  function ChannelNumber(v: VersionInfo): int {
    if v.beta then v.betaVersion else v.rcVersion
  }

  lemma RoundTripPrerelease(v: VersionInfo)
    requires Canonical(v) && (v.beta || v.rc)
    ensures ExtractVersionInfo(String(v)) == Ok(v)
  {
    var n := Itoa(ChannelNumber(v));
    ItoaChars(ChannelNumber(v));
    AtoiItoa(ChannelNumber(v));
    SplitPrerelease(v);
    ExtractTwoParts(String(v), v.major, Itoa(v.minor) + ChannelMarker(v) + n);
    if v.beta { MinorPartBeta(v.minor, n); } else { MinorPartRc(v.minor, n); }
  }

  /** The dotted components of a printed release version. */
  lemma SplitRelease(v: VersionInfo)
    requires !v.beta && !v.rc
    ensures Split(String(v), ".") == [Itoa(v.major), Itoa(v.minor), Itoa(v.build)]
  {
    var ma, mi, b := Itoa(v.major), Itoa(v.minor), Itoa(v.build);
    ItoaChars(v.major);
    ItoaChars(v.minor);
    ItoaChars(v.build);
    assert String(v) == ma + "." + (mi + "." + b);
    SplitAfter(ma, ".", mi + "." + b);
    SplitAfter(mi, ".", b);
    SplitAbsent(b, ".");
  }

  /** Three-component text whose parts parse: a release version. */
  lemma ExtractThreeParts(version: string, ma: string, mi: string, b: string, v: VersionInfo)
    requires Split(version, ".") == [ma, mi, b]
    requires Atoi(ma) == Some(v.major) && Atoi(b) == Some(v.build)
    requires ParseMinorPart(mi) == Ok(VersionInfo(0, v.minor, 0, false, 0, false, 0))
    requires !v.rc && !v.beta && v.rcVersion == 0 && v.betaVersion == 0
    ensures ExtractVersionInfo(version) == Ok(v)
  {
  }

  lemma RoundTripRelease(v: VersionInfo)
    requires Canonical(v) && !v.beta && !v.rc
    ensures ExtractVersionInfo(String(v)) == Ok(v)
  {
    AtoiItoa(v.build);
    AtoiItoa(v.major);
    SplitRelease(v);
    MinorPartPlain(v.minor);
    ExtractThreeParts(String(v), Itoa(v.major), Itoa(v.minor), Itoa(v.build), v);
  }

  /** Printing then parsing gives back every canonical version. */
  lemma StringRoundTrip(v: VersionInfo)
    requires Canonical(v)
    ensures ExtractVersionInfo(String(v)) == Ok(v)
  {
    if v.beta || v.rc { RoundTripPrerelease(v); } else { RoundTripRelease(v); }
  }

  /** Parse, print, parse: a parsed version without a pre-release build
      number prints back to text that parses to the same version; with one,
      it does not (PrereleaseBuildLost). */
  lemma ParsePrintParse(s: string)
    requires ExtractVersionInfo(s).Ok?
    requires var v := ExtractVersionInfo(s).value; (v.beta || v.rc) ==> v.build == 0
    ensures ExtractVersionInfo(String(ExtractVersionInfo(s).value)) == ExtractVersionInfo(s)
  {
    StringRoundTrip(ExtractVersionInfo(s).value);
  }

  /** Why ParsePrintParse leaves out pre-release versions with a build:
      ExtractVersionInfo accepts "<M>.<m>beta<n>.<b>" with its build, and
      String drops that build, so the reparse differs ("1.18beta1.5"). */
  lemma PrereleaseBuildLost(major: nat, minor: nat, n: nat, build: nat)
    requires build != 0
    ensures var s := Itoa(major) + "." + Itoa(minor) + "beta" + Itoa(n) + "." + Itoa(build);
      && ExtractVersionInfo(s) == Ok(VersionInfo(major, minor, build, false, 0, true, n))
      && ExtractVersionInfo(String(ExtractVersionInfo(s).value)) == Ok(VersionInfo(major, minor, 0, false, 0, true, n))
      && ExtractVersionInfo(String(ExtractVersionInfo(s).value)) != ExtractVersionInfo(s)
  {
    var v := VersionInfo(major, minor, build, false, 0, true, n);
    BetaWithBuild(major, minor, n, build);
    assert String(v) == String(v.(build := 0));
    RoundTripPrerelease(v.(build := 0));
  }

  /** "M.mbetaN.B" parses with all four numbers. */
  lemma BetaWithBuild(major: nat, minor: nat, n: nat, build: nat)
    ensures ExtractVersionInfo(Itoa(major) + "." + Itoa(minor) + "beta" + Itoa(n) + "." + Itoa(build))
            == Ok(VersionInfo(major, minor, build, false, 0, true, n))
  {
    BetaWithBuildParts(major, minor, n, build);
    AtoiItoa(major);
    AtoiItoa(n);
    AtoiItoa(build);
    MinorPartBeta(minor, Itoa(n));
  }

  lemma BetaWithBuildParts(major: nat, minor: nat, n: nat, build: nat)
    ensures Split(Itoa(major) + "." + Itoa(minor) + "beta" + Itoa(n) + "." + Itoa(build), ".")
            == [Itoa(major), Itoa(minor) + "beta" + Itoa(n), Itoa(build)]
    ensures forall c :: c in Itoa(n) ==> IsDigit(c) || c == '-'
  {
    var part := Itoa(minor) + "beta" + Itoa(n);
    assert Itoa(major) + "." + Itoa(minor) + "beta" + Itoa(n) + "." + Itoa(build)
        == Itoa(major) + "." + part + "." + Itoa(build);
    ItoaChars(major);
    ItoaChars(n);
    ItoaChars(build);
    NoDotInPart(minor, "beta", n);
    SplitThree(Itoa(major), part, Itoa(build));
  }

  lemma SplitThree(a: string, b: string, c: string)
    requires '.' !in a && '.' !in b && '.' !in c
    ensures Split(a + "." + b + "." + c, ".") == [a, b, c]
  {
    assert a + "." + b + "." + c == a + "." + (b + "." + c);
    SplitAfter(a, ".", b + "." + c);
    SplitTwo(b, c);
  }

  // ---------------------------------------------------------------- lemmas: URL

  lemma NotPrefix(s: string, p: string, i: nat)
    requires i < |s| && i < |p| && s[i] != p[i]
    ensures !HasPrefix(s, p)
  {
    if |p| <= |s| { assert s[..|p|][i] == s[i]; }
  }

  lemma {:induction false} ReplaceLiteral(lit: string, rest: string, pairs: seq<(string, string)>)
    requires forall k :: 0 <= k < |pairs| ==> |pairs[k].0| > 0 && pairs[k].0[0] == '['
    requires '[' !in lit
    ensures Replace(lit + rest, pairs) == lit + Replace(rest, pairs)
    decreases |lit|
  {
    if lit != [] {
      var s := lit + rest;
      forall k | 0 <= k < |pairs| ensures !HasPrefix(s, pairs[k].0) {
        NotPrefix(s, pairs[k].0, 0);
      }
      assert FirstMatch(s, pairs) == None;
      assert Replace(s, pairs) == [s[0]] + Replace(s[1..], pairs);
      assert s[1..] == lit[1..] + rest;
      ReplaceLiteral(lit[1..], rest, pairs);
      var r := Replace(rest, pairs);
      assert [s[0]] + (lit[1..] + r) == ([lit[0]] + lit[1..]) + r;
      assert [lit[0]] + lit[1..] == lit;
    } else {
      assert lit + rest == rest;
    }
  }

  /** A key whose second character differs from that of every earlier key
      is replaced by its value. */
  lemma ReplaceKey(k: nat, rest: string, pairs: seq<(string, string)>)
    requires forall j :: 0 <= j < |pairs| ==> |pairs[j].0| > 1
    requires k < |pairs|
    requires forall j :: 0 <= j < k ==> pairs[j].0[1] != pairs[k].0[1]
    ensures Replace(pairs[k].0 + rest, pairs) == pairs[k].1 + Replace(rest, pairs)
  {
    var s := pairs[k].0 + rest;
    forall j | 0 <= j < k ensures !HasPrefix(s, pairs[j].0) {
      NotPrefix(s, pairs[j].0, 1);
    }
    assert HasPrefix(s, pairs[k].0);
    assert FirstMatch(s, pairs) == Some(k);
    assert s[|pairs[k].0|..] == rest;
  }

  function Pairs(vv: string, aa: string, ee: string, oo: string): seq<(string, string)> {
    [("[version]", vv), ("[arch]", aa), ("[ext]", ee), ("[os]", oo)]
  }

  /** The placeholders of Pairs start with '[' and differ in their second character. */
  lemma PairsKeys(vv: string, aa: string, ee: string, oo: string)
    ensures var pairs := Pairs(vv, aa, ee, oo);
      && (forall j :: 0 <= j < |pairs| ==> |pairs[j].0| > 1 && pairs[j].0[0] == '[')
      && (forall j, k :: 0 <= j < k < |pairs| ==> pairs[j].0[1] != pairs[k].0[1])
  {
  }

  /** One placeholder, then a literal separator, then the rest. */
  lemma FillStep(k: nat, sep: string, t: string, vv: string, aa: string, ee: string, oo: string)
    requires k < 4 && '[' !in sep
    ensures var pairs := Pairs(vv, aa, ee, oo);
      Replace(pairs[k].0 + (sep + t), pairs) == pairs[k].1 + (sep + Replace(t, pairs))
  {
    var pairs := Pairs(vv, aa, ee, oo);
    PairsKeys(vv, aa, ee, oo);
    ReplaceKey(k, sep + t, pairs);
    ReplaceLiteral(sep, t, pairs);
  }

  lemma FillArch(vv: string, aa: string, ee: string, oo: string)
    ensures Replace("[arch]" + ("." + ("[ext]" + "")), Pairs(vv, aa, ee, oo)) == aa + ("." + ee)
  {
    var pairs := Pairs(vv, aa, ee, oo);
    PairsKeys(vv, aa, ee, oo);
    ReplaceKey(2, "", pairs);
    FillStep(1, ".", "[ext]" + "", vv, aa, ee, oo);
  }

  lemma FillOs(vv: string, aa: string, ee: string, oo: string)
    ensures Replace("[os]" + ("-" + ("[arch]" + ("." + ("[ext]" + "")))), Pairs(vv, aa, ee, oo))
         == oo + ("-" + (aa + ("." + ee)))
  {
    FillArch(vv, aa, ee, oo);
    FillStep(3, "-", "[arch]" + ("." + ("[ext]" + "")), vv, aa, ee, oo);
  }

  lemma FillVersion(vv: string, aa: string, ee: string, oo: string)
    ensures Replace("[version]" + ("." + ("[os]" + ("-" + ("[arch]" + ("." + ("[ext]" + "")))))), Pairs(vv, aa, ee, oo))
         == vv + ("." + (oo + ("-" + (aa + ("." + ee)))))
  {
    FillOs(vv, aa, ee, oo);
    FillStep(0, ".", "[os]" + ("-" + ("[arch]" + ("." + ("[ext]" + "")))), vv, aa, ee, oo);
  }

  /** The pattern as literal text around its placeholders. */
  lemma PatternPieces()
    ensures DownloadURLWithPattern
         == "https://dl.google.com/go/go" + ("[version]" + ("." + ("[os]" + ("-" + ("[arch]" + ("." + ("[ext]" + "")))))))
  {
  }

  /** The pattern with its four placeholders filled by arbitrary texts. */
  lemma PatternFilled(vv: string, aa: string, ee: string, oo: string)
    ensures Replace(DownloadURLWithPattern, Pairs(vv, aa, ee, oo))
         == "https://dl.google.com/go/go" + (vv + ("." + (oo + ("-" + (aa + ("." + ee))))))
  {
    var t1 := "[version]" + ("." + ("[os]" + ("-" + ("[arch]" + ("." + ("[ext]" + ""))))));
    PatternPieces();
    FillVersion(vv, aa, ee, oo);
    ReplaceLiteral("https://dl.google.com/go/go", t1, Pairs(vv, aa, ee, oo));
  }

  lemma DownloadUrlShape(v: VersionInfo, os: string, arch: string, p: Platform)
    ensures DownloadUrl(v, os, arch, p)
         == "https://dl.google.com/go/go" + String(v) + "." + os + "-" + arch + "." + Format(p)
  {
    PatternFilled(String(v), arch, Format(p), os);
    Regroup("https://dl.google.com/go/go", String(v), ".", os, "-", arch, ".", Format(p));
  }

  lemma Regroup(a: string, b: string, c: string, d: string, e: string, f: string, g: string, h: string)
    ensures a + (b + (c + (d + (e + (f + (g + h)))))) == a + b + c + d + e + f + g + h
  {
  }

  // ---------------------------------------------------------------- lemmas: ordering

  /** On parsed versions the source's comparator is exactly "key at least". */
  lemma NewerIsKeyAtLeast(a: VersionInfo, b: VersionInfo)
    requires Valid(a) && Valid(b)
    ensures Newer(a, b) <==> KeyAtLeast(a, b)
  {
  }

  /** The comparator holds between a version and itself exactly when not both
      channel flags are set; it is not irreflexive, so it is not a strict order. */
  lemma NewerSelf(v: VersionInfo)
    ensures Newer(v, v) <==> !(v.beta && v.rc)
  {
  }

  lemma KeyTotal(a: VersionInfo, b: VersionInfo)
    ensures KeyAtLeast(a, b) || KeyAtLeast(b, a)
  {
  }

  lemma KeyTransitive(a: VersionInfo, b: VersionInfo, c: VersionInfo)
    requires KeyAtLeast(a, b) && KeyAtLeast(b, c)
    ensures KeyAtLeast(a, c)
  {
  }

  /** Distinct parsed versions never tie: the sort key determines the version. */
  lemma KeyAntisymmetric(a: VersionInfo, b: VersionInfo)
    requires Valid(a) && Valid(b)
    requires KeyAtLeast(a, b) && KeyAtLeast(b, a)
    ensures a == b
  {
  }
}
