/** cmd/goup.go: main up to the download, as a choice between stopping and
    going ahead with a target version. The command line flags, the outputs
    of `go version` and `go env`, the catalog page, the lines typed at the
    prompt and the outcome of the downloads are the World the run sees. */
module Goup {
  import opened Text
  import opened Versions
  import Catalog
  import opened Probe
  import opened FileSystem
  import opened FileUtil
  import opened Pipeline

  /** The flags that steer the choice (--beta, --rc, --silent, --upgrade). */
  datatype Flags = Flags(beta: bool, rc: bool, silent: bool, upgrade: bool)

  /** Everything main reads from outside: the path argument, the flags, the
      build variant, the output of running an executable with a
      subcommand in a given filesystem (None: it could not be run), the
      anchor texts of the catalog page (None: it could not be fetched), the
      lines typed at the prompt, whether the temporary file could be
      created, the package served at each URL, and the directory TempDir
      picks for the backup. */
  datatype World = World(
    goExePath: string,
    flags: Flags,
    platform: Platform,
    run: (FS, string, string) -> Option<string>,
    tags: Option<seq<string>>,
    answers: seq<string>,
    tempFileOk: bool,
    fetch: string -> Option<Archive>,
    backupDir: Path)

  // ---------------------------------------------------------------- the local installation

  /** filepath.Join(dir, "go"), without its cleaning of the path. */
  function ExeIn(dir: string): string {
    if dir == "" then "go" else dir + "/go"
  }

  datatype LocalProbe = Local(info: GoInfo, version: VersionInfo) | NoLocal | LocalPanicked

  /** LocalGoInfo followed by parsing the version it reports: a version that
      does not parse counts as a failed probe. */
  function ProbeLocal(out: Option<string>): (r: LocalProbe)
    ensures r == LocalPanicked <==> LocalGoInfo(out) == Panicked
    ensures r.Local? <==> LocalGoInfo(out).Info? && ExtractVersionInfo(LocalGoInfo(out).info.ver).Ok?
    ensures r.Local? ==> r.info == LocalGoInfo(out).info && ExtractVersionInfo(r.info.ver) == Ok(r.version)
    ensures r.Local? ==> Valid(r.version)
  {
    match LocalGoInfo(out)
    case Panicked => LocalPanicked
    case Failed(_) => NoLocal
    case Info(info) =>
      match ExtractVersionInfo(info.ver)
      case Ok(v) => Local(info, v)
      case Err(_) => NoLocal
  }

  lemma NoSpaceAppend(a: string, b: string)
    requires Probe.NoSpace(a) && Probe.NoSpace(b)
    ensures Probe.NoSpace(a + b)
  {
    forall i | 0 <= i < |a + b| ensures !IsSpace((a + b)[i]) {
      if i >= |a| { assert (a + b)[i] == b[i - |a|]; }
    }
  }

  lemma ItoaNoSpace(n: int)
    ensures Probe.NoSpace(Itoa(n))
  {
    ItoaChars(n);
    var s := Itoa(n);
    forall i | 0 <= i < |s| ensures !IsSpace(s[i]) {
      assert s[i] in s;
    }
  }

  /** The text of a version never holds white space. */
  lemma StringNoSpace(v: VersionInfo)
    ensures Probe.NoSpace(String(v))
  {
    ItoaNoSpace(v.major);
    ItoaNoSpace(v.minor);
    var head := Itoa(v.major) + "." + Itoa(v.minor);
    assert Probe.NoSpace(".");
    NoSpaceAppend(Itoa(v.major), ".");
    NoSpaceAppend(Itoa(v.major) + ".", Itoa(v.minor));
    var marker, n := if v.beta then "beta" else if v.rc then "rc" else ".",
                     if v.beta then v.betaVersion else if v.rc then v.rcVersion else v.build;
    assert Probe.NoSpace(marker);
    ItoaNoSpace(n);
    NoSpaceAppend(head, marker);
    NoSpaceAppend(head + marker, Itoa(n));
    assert String(v) == head + marker + Itoa(n);
  }

  /** A `go version` line naming a printable version is read back as that version. */
  lemma ProbeReadsVersion(v: VersionInfo, os: string, arch: string)
    requires Canonical(v)
    requires Probe.NoSpace(os) && Probe.NoSpace(arch) && '/' !in os && '/' !in arch
    ensures ProbeLocal(Some("go version go" + String(v) + " " + os + "/" + arch + "\n"))
         == Local(GoInfo(String(v), os, arch), v)
  {
    StringNoSpace(v);
    LocalGoInfoReadsVersionLine(String(v), os, arch);
    StringRoundTrip(v);
  }

  /** The executable main settles on: the given one, or the one in the
      default installation directory when the given one cannot be probed. */
  function UsedExe(w: World, fs: FS): string {
    if ProbeLocal(w.run(fs, ExeIn(w.goExePath), "version")) == NoLocal then ExeIn(DefaultInstallDir(w.platform))
    else ExeIn(w.goExePath)
  }

  /** What probing the settled executable gives. */
  function Probed(w: World, fs: FS): LocalProbe {
    ProbeLocal(w.run(fs, UsedExe(w, fs), "version"))
  }

  /** The output of `go env` for the settled executable. */
  function EnvOf(w: World, fs: FS): Option<string> {
    w.run(fs, UsedExe(w, fs), "env")
  }

  // ---------------------------------------------------------------- installation root as a path

  /** The non-empty components, in order. */
  function Components(parts: seq<string>): (p: Path)
    ensures forall i :: 0 <= i < |p| ==> p[i] != ""
    ensures |p| <= |parts|
  {
    if parts == [] then []
    else (if parts[0] == "" then [] else [parts[0]]) + Components(parts[1..])
  }

  /** The path a slash-separated name denotes; empty components (a leading,
      doubled or trailing slash) are dropped. */
  function PathOf(s: string): Path {
    Components(Split(s, "/"))
  }

  /** The absolute name of a path. */
  function Name(p: Path): string {
    if p == [] then "" else "/" + p[0] + Name(p[1..])
  }

  predicate Component(x: string) {
    x != "" && '/' !in x
  }

  lemma {:induction false} SplitName(p: Path)
    requires p != [] && forall i :: 0 <= i < |p| ==> Component(p[i])
    ensures Split(p[0] + Name(p[1..]), "/") == p
    decreases |p|
  {
    if |p| == 1 {
      assert p[0] + Name(p[1..]) == p[0];
      SplitAbsent(p[0], "/");
    } else {
      var rest := p[1..];
      SplitName(rest);
      assert p[0] + Name(rest) == p[0] + "/" + (rest[0] + Name(rest[1..]));
      SplitAfter(p[0], "/", rest[0] + Name(rest[1..]));
      assert p == [p[0]] + rest;
    }
  }

  lemma {:induction false} ComponentsKeep(p: Path)
    requires forall i :: 0 <= i < |p| ==> p[i] != ""
    ensures Components(p) == p
    decreases |p|
  {
    if p != [] {
      ComponentsKeep(p[1..]);
      assert p == [p[0]] + p[1..];
    }
  }

  /** A leading slash adds one empty component in front. */
  lemma SplitRooted(t: string)
    ensures Split("/" + t, "/") == [""] + Split(t, "/")
  {
    SplitAfter("", "/", t);
    assert "" + "/" + t == "/" + t;
  }

  lemma ComponentsSkip(p: Path)
    ensures Components([""] + p) == Components(p)
  {
    assert ([""] + p)[1..] == p;
  }

  /** A slash in front of a name whose components are `p` still reads as `p`. */
  lemma RootedComponents(t: string, p: Path)
    requires Split(t, "/") == p && forall i :: 0 <= i < |p| ==> Component(p[i])
    ensures Components(Split("/" + t, "/")) == p
  {
    SplitRooted(t);
    ComponentsSkip(p);
    ComponentsKeep(p);
  }

  lemma NameCons(p: Path)
    requires p != []
    ensures Name(p) == "/" + (p[0] + Name(p[1..]))
  {
  }

  /** Reading the absolute name of a path gives the path back. */
  lemma PathOfName(p: Path)
    requires forall i :: 0 <= i < |p| ==> Component(p[i])
    ensures PathOf(Name(p)) == p
  {
    if p == [] {
      SplitAbsent("", "/");
    } else {
      SplitName(p);
      RootedComponents(p[0] + Name(p[1..]), p);
      NameCons(p);
    }
  }

  // ---------------------------------------------------------------- the choice of target

  /** Lines 55-62: a beta local version turns on both pre-release flags, an
      RC local version the RC flag; nothing is turned off. */
  function Effective(f: Flags, local: VersionInfo): (g: Flags)
    ensures g.beta == (f.beta || local.beta)
    ensures g.rc == (f.rc || local.beta || local.rc)
    ensures g.silent == f.silent && g.upgrade == f.upgrade
  {
    var f1 := if local.beta then f.(beta := true, rc := true) else f;
    if local.rc then f1.(rc := true) else f1
  }

  /** The three filters of the loop at lines 65-77. */
  predicate Passes(g: Flags, local: VersionInfo, v: VersionInfo) {
    && (g.rc || !v.rc)
    && (g.beta || !v.beta)
    && (g.upgrade || (v.major == local.major && v.minor == local.minor))
  }

  /** The local version always passes the filters its own flags set. */
  lemma LocalPasses(f: Flags, local: VersionInfo)
    requires Valid(local)
    ensures Passes(Effective(f, local), local, local)
  {
  }

  /** The first entry that passes, or the zero version when none does. */
  function Target(list: seq<VersionInfo>, g: Flags, local: VersionInfo): VersionInfo
    decreases |list|
  {
    if list == [] then Zero
    else if Passes(g, local, list[0]) then list[0]
    else Target(list[1..], g, local)
  }

  /** The loop at lines 64-77, with its continue and break. */
  method SelectTarget(list: seq<VersionInfo>, g: Flags, local: VersionInfo) returns (latest: VersionInfo)
    ensures latest == Target(list, g, local)
  {
    latest := Zero;
    var i := 0;
    while i < |list|
      invariant 0 <= i <= |list|
      invariant latest == Zero
      invariant Target(list[i..], g, local) == Target(list, g, local)
    {
      assert list[i..][1..] == list[i + 1..];
      if !g.rc && list[i].rc {
        i := i + 1;
        continue;
      }
      if !g.beta && list[i].beta {
        i := i + 1;
        continue;
      }
      if !g.upgrade && (list[i].major != local.major || list[i].minor != local.minor) {
        i := i + 1;
        continue;
      }
      latest := list[i];
      break;
    }
  }

  /** The target is the entry at the first index that passes. */
  lemma {:induction false} TargetFirst(list: seq<VersionInfo>, g: Flags, local: VersionInfo, i: int)
    requires 0 <= i < |list| && Passes(g, local, list[i])
    requires forall j :: 0 <= j < i ==> !Passes(g, local, list[j])
    ensures Target(list, g, local) == list[i]
    decreases i
  {
    if i > 0 {
      TargetFirst(list[1..], g, local, i - 1);
    }
  }

  /** When no entry passes, the target is the zero version. */
  lemma {:induction false} TargetNone(list: seq<VersionInfo>, g: Flags, local: VersionInfo)
    requires forall j :: 0 <= j < |list| ==> !Passes(g, local, list[j])
    ensures Target(list, g, local) == Zero
    decreases |list|
  {
    if list != [] {
      TargetNone(list[1..], g, local);
    }
  }

  /** In a newest-first list of parsed versions the target is at least as
      new as every entry that passes, and passes itself. */
  lemma TargetNewest(list: seq<VersionInfo>, g: Flags, local: VersionInfo, k: int)
    requires Catalog.NewestFirst(list) && Catalog.AllValid(list)
    requires 0 <= k < |list| && Passes(g, local, list[k])
    ensures Passes(g, local, Target(list, g, local))
    ensures Newer(Target(list, g, local), list[k])
  {
    var i :| 0 <= i <= k && Passes(g, local, list[i]) && forall j :: 0 <= j < i ==> !Passes(g, local, list[j]) by {
      FirstPassing(list, g, local, k);
    }
    TargetFirst(list, g, local, i);
    if i == k {
      NewerSelf(list[k]);
    }
  }

  lemma {:induction false} FirstPassing(list: seq<VersionInfo>, g: Flags, local: VersionInfo, k: int)
    requires 0 <= k < |list| && Passes(g, local, list[k])
    ensures exists i :: 0 <= i <= k && Passes(g, local, list[i]) && forall j :: 0 <= j < i ==> !Passes(g, local, list[j])
    decreases k
  {
    if exists j :: 0 <= j < k && Passes(g, local, list[j]) {
      var j :| 0 <= j < k && Passes(g, local, list[j]);
      FirstPassing(list, g, local, j);
    } else {
      assert forall j :: 0 <= j < k ==> !Passes(g, local, list[j]);
    }
  }

  /** The version list main works with: empty when the catalog could not be
      fetched (the run goes on), otherwise the kept entries newest first. */
  predicate CatalogOrder(tags: Option<seq<string>>, list: seq<VersionInfo>) {
    match tags
    case None => list == []
    case Some(anchors) =>
      multiset(list) == multiset(Catalog.Kept(anchors)) && Catalog.NewestFirst(list) && Catalog.AllValid(list)
  }

  /** There is one such list, so the target does not depend on how the sort
      breaks ties. */
  lemma CatalogOrderUnique(tags: Option<seq<string>>, a: seq<VersionInfo>, b: seq<VersionInfo>)
    requires CatalogOrder(tags, a) && CatalogOrder(tags, b)
    ensures a == b
  {
    if tags.Some? {
      Catalog.SortedUnique(a, b);
    }
  }

  /** `target` is what the loop picks from the version list. */
  ghost predicate Selected(tags: Option<seq<string>>, g: Flags, local: VersionInfo, target: VersionInfo) {
    exists list :: CatalogOrder(tags, list) && target == Target(list, g, local)
  }

  /** Without a catalog the target is the zero version. */
  lemma NoCatalogZero(g: Flags, local: VersionInfo, target: VersionInfo)
    requires Selected(None, g, local, target)
    ensures target == Zero
  {
  }

  // ---------------------------------------------------------------- confirmation

  datatype Answer = Yes | No | NoReply

  /** The answer the prompt loop settles on: the first line that is Y, y, n
      or N decides; other lines prompt again. */
  function Reply(inputs: seq<string>): Answer
    decreases |inputs|
  {
    if inputs == [] then NoReply
    else if inputs[0] == "Y" || inputs[0] == "y" then Yes
    else if inputs[0] == "n" || inputs[0] == "N" then No
    else Reply(inputs[1..])
  }

  predicate Decisive(input: string) {
    input == "Y" || input == "y" || input == "n" || input == "N"
  }

  /** The loop at lines 85-98 over the lines typed; when they run out the
      Go loop would prompt forever, here it ends without an answer. */
  method Confirm(inputs: seq<string>) returns (a: Answer)
    ensures a == Reply(inputs)
  {
    var i := 0;
    while true
      invariant 0 <= i <= |inputs|
      invariant Reply(inputs[i..]) == Reply(inputs)
      decreases |inputs| - i
    {
      if i == |inputs| {
        return NoReply;
      }
      var input := inputs[i];
      assert inputs[i..][1..] == inputs[i + 1..];
      if input == "Y" || input == "y" {
        return Yes;
      }
      if input == "n" || input == "N" {
        return No;
      }
      i := i + 1;
    }
  }

  /** The first decisive line decides: Y or y proceeds, n or N declines. */
  lemma {:induction false} ReplyFirst(inputs: seq<string>, i: int)
    requires 0 <= i < |inputs| && Decisive(inputs[i])
    requires forall j :: 0 <= j < i ==> !Decisive(inputs[j])
    ensures Reply(inputs) == (if inputs[i] == "Y" || inputs[i] == "y" then Yes else No)
    decreases i
  {
    if i > 0 {
      ReplyFirst(inputs[1..], i - 1);
    }
  }

  /** Without a decisive line there is no answer. */
  lemma {:induction false} ReplyNone(inputs: seq<string>)
    requires forall j :: 0 <= j < |inputs| ==> !Decisive(inputs[j])
    ensures Reply(inputs) == NoReply
    decreases |inputs|
  {
    if inputs != [] {
      ReplyNone(inputs[1..]);
    }
  }

  // ---------------------------------------------------------------- main

  datatype Located =
    | NotLocated(outcome: Outcome)
    | Located(exe: string, info: GoInfo, local: VersionInfo, goroot: string)

  /** Lines 24-46 of main: probe the given executable, once more the one in
      the default directory if that fails, and read GOROOT from `go env`. */
  method Locate(w: World, fs: FS) returns (l: Located)
    ensures l.NotLocated? ==> l.outcome in {ProbeFailed, Crashed, EnvFailed}
    ensures l == NotLocated(ProbeFailed) <==> Probed(w, fs) == NoLocal
    ensures l == NotLocated(Crashed) <==>
              Probed(w, fs) == LocalPanicked || (Probed(w, fs).Local? && EnvCrashes(w, fs))
    ensures l == NotLocated(EnvFailed) <==> Probed(w, fs).Local? && EnvMissing(w, fs)
    ensures l.Located? <==> Locates(w, fs)
    ensures l.Located? ==> l.exe == UsedExe(w, fs) && Probed(w, fs) == Local(l.info, l.local)
    ensures l.Located? ==> EnvOf(w, fs).Some? && Reads(ScanLines(EnvOf(w, fs).value), Found(l.goroot))
  {
    var exe := ExeIn(w.goExePath);
    var probed := ProbeLocal(w.run(fs, exe, "version"));
    if probed == NoLocal {
      exe := ExeIn(DefaultInstallDir(w.platform));
      probed := ProbeLocal(w.run(fs, exe, "version"));
      if probed == NoLocal {
        return NotLocated(ProbeFailed);
      }
    }
    assert exe == UsedExe(w, fs) && probed == Probed(w, fs);
    if probed == LocalPanicked {
      return NotLocated(Crashed);
    }
    var out := w.run(fs, exe, "env");
    var env := GoPath(out);
    EnvCases(w, fs, env);
    if env == EnvPanicked {
      return NotLocated(Crashed);
    }
    if !env.Found? {
      return NotLocated(EnvFailed);
    }
    return Located(exe, probed.info, probed.version, env.path);
  }

  /** What GoPath returns for the output of `go env` decides between a
      panic, a missing GOROOT and a found one. */
  lemma EnvCases(w: World, fs: FS, env: EnvResult)
    requires EnvOf(w, fs).None? ==> env == EnvExecFailed
    requires EnvOf(w, fs).Some? ==> Reads(ScanLines(EnvOf(w, fs).value), env)
    ensures env == EnvPanicked <==> EnvCrashes(w, fs)
    ensures env != EnvPanicked && !env.Found? <==> EnvMissing(w, fs)
    ensures env.Found? ==> EnvOf(w, fs).Some? && Reads(ScanLines(EnvOf(w, fs).value), env)
  {
    if EnvOf(w, fs).Some? {
      ReadsDetermined(ScanLines(EnvOf(w, fs).value), env);
    }
  }

  /** The output of `go env` makes GoPath panic. */
  ghost predicate EnvCrashes(w: World, fs: FS) {
    EnvOf(w, fs).Some? && Reads(ScanLines(EnvOf(w, fs).value), EnvPanicked)
  }

  /** `go env` fails, or no line of its output mentions GOROOT. */
  ghost predicate EnvMissing(w: World, fs: FS) {
    EnvOf(w, fs).None? || Reads(ScanLines(EnvOf(w, fs).value), NotFound)
  }

  /** A local installation answers `go version`, and `go env` names its root. */
  ghost predicate Locates(w: World, fs: FS) {
    Probed(w, fs).Local? && !EnvCrashes(w, fs) && !EnvMissing(w, fs)
  }

  datatype Decision = Halt(outcome: Outcome) | Proceed(target: VersionInfo)

  /** Lines 50-98 of main: fetch and sort the catalog, force the pre-release
      flags, pick the target, stop when it is the local version, and ask
      unless silent. */
  method Decide(w: World, local: VersionInfo) returns (d: Decision)
    ensures d.Halt? ==> d.outcome in {UpToDate, Declined, Unanswered}
    ensures d == Halt(UpToDate) <==> Selected(w.tags, Effective(w.flags, local), local, local)
    ensures d == Halt(Declined) <==>
              !Selected(w.tags, Effective(w.flags, local), local, local) && !w.flags.silent && Reply(w.answers) == No
    ensures d == Halt(Unanswered) <==>
              !Selected(w.tags, Effective(w.flags, local), local, local) && !w.flags.silent && Reply(w.answers) == NoReply
    ensures d.Proceed? ==> Selected(w.tags, Effective(w.flags, local), local, d.target) && d.target != local
    ensures d.Proceed? ==> w.flags.silent || Reply(w.answers) == Yes
  {
    var versions: seq<VersionInfo> := [];
    if w.tags.Some? {
      versions := Catalog.LatestVersionInfo(w.tags.value);
    }
    assert CatalogOrder(w.tags, versions);
    var target := SelectTarget(versions, Effective(w.flags, local), local);
    if Selected(w.tags, Effective(w.flags, local), local, local) {
      var list :| CatalogOrder(w.tags, list) && local == Target(list, Effective(w.flags, local), local);
      CatalogOrderUnique(w.tags, list, versions);
    }
    if target == local {
      return Halt(UpToDate);
    }
    if !w.flags.silent {
      var a := Confirm(w.answers);
      if a == No {
        return Halt(Declined);
      }
      if a == NoReply {
        return Halt(Unanswered);
      }
    }
    return Proceed(target);
  }

  datatype Choice =
    | Stop(outcome: Outcome)
    | Go(exe: string, info: GoInfo, local: VersionInfo, goroot: string, target: VersionInfo)

  /** The local version is already the version main would install. */
  ghost predicate Current(w: World, fs: FS)
    requires Probed(w, fs).Local?
  {
    var v := Probed(w, fs).version;
    Selected(w.tags, Effective(w.flags, v), v, v)
  }

  /** What lines 24-98 of main choose in a given world: each way to stop
      exactly when its cause holds, and otherwise the located installation
      and a newer target the user agreed to. */
  ghost predicate Chosen(w: World, fs: FS, c: Choice) {
    && (c.Stop? ==> c.outcome in {ProbeFailed, Crashed, EnvFailed, UpToDate, Declined, Unanswered})
    && (c == Stop(ProbeFailed) <==> Probed(w, fs) == NoLocal)
    && (c == Stop(Crashed) <==>
          Probed(w, fs) == LocalPanicked || (Probed(w, fs).Local? && EnvCrashes(w, fs)))
    && (c == Stop(EnvFailed) <==> Probed(w, fs).Local? && EnvMissing(w, fs))
    && (c == Stop(UpToDate) <==> Locates(w, fs) && Current(w, fs))
    && (c == Stop(Declined) <==> Locates(w, fs) && !Current(w, fs) && !w.flags.silent && Reply(w.answers) == No)
    && (c == Stop(Unanswered) <==> Locates(w, fs) && !Current(w, fs) && !w.flags.silent && Reply(w.answers) == NoReply)
    && (c.Go? ==> c.exe == UsedExe(w, fs) && Probed(w, fs) == Local(c.info, c.local))
    && (c.Go? ==> EnvOf(w, fs).Some? && Reads(ScanLines(EnvOf(w, fs).value), Found(c.goroot)))
    && (c.Go? ==> Selected(w.tags, Effective(w.flags, c.local), c.local, c.target) && c.target != c.local)
    && (c.Go? ==> w.flags.silent || Reply(w.answers) == Yes)
  }

  /** Lines 24-98 of main: locate the installation, then decide. */
  method Choose(w: World, fs: FS) returns (c: Choice)
    ensures Chosen(w, fs, c)
  {
    var l := Locate(w, fs);
    if l.NotLocated? {
      return Stop(l.outcome);
    }
    var d := Decide(w, l.local);
    if d.Halt? {
      return Stop(d.outcome);
    }
    return Go(l.exe, l.info, l.local, l.goroot, d.target);
  }

  /** The URL main downloads the package of a choice from. */
  function UrlOf(w: World, c: Choice): string
    requires c.Go?
  {
    DownloadUrl(c.target, c.info.os, c.info.arch, w.platform)
  }

  /** `go version` of a given executable, run on whatever file system it sees. */
  function VersionProbe(w: World, exe: string): (probe: FS -> Option<string>)
    ensures forall s :: probe(s) == w.run(s, exe, "version")
  {
    s => w.run(s, exe, "version")
  }

  /** What lines 100-172 of main leave behind once the choice is to upgrade:
      the temporary file and the download come first; then the backup of the
      root into the backup directory (`fsB` is the file system right after
      it), its removal, the unpacking of the archive (`fsX` right after it),
      the `go version` check, and the restore when the check fails. */
  ghost predicate Delivered(w: World, fs: FS, c: Choice, outcome: Outcome, fs': FS, fsB: FS, fsX: FS)
    requires c.Go?
  {
    var root, backup := PathOf(c.goroot), w.backupDir;
    && (!w.tempFileOk ==> outcome == TempFileFailed)
    && (w.tempFileOk && w.fetch(UrlOf(w, c)).None? ==> outcome == DownloadFailed)
    && (outcome in {TempFileFailed, DownloadFailed} ==> fs' == fs)
    && (outcome in {TempFileFailed, DownloadFailed} || (w.tempFileOk && w.fetch(UrlOf(w, c)).Some?))
    && (w.tempFileOk && w.fetch(UrlOf(w, c)).Some? ==>
          var archive, probe := w.fetch(UrlOf(w, c)).value, VersionProbe(w, c.exe);
          && (outcome in {BackupDirFailed, BackupFailed, RemoveFailed} || Reached(outcome))
          // the backup
          && (outcome == BackupDirFailed <==> Mkdir(fs, backup).1.Some?)
          && (outcome == BackupDirFailed ==> fs' == fs)
          && (outcome in {BackupDirFailed, BackupFailed} && Disjoint(root, backup) ==> Keeps(fs.entries, fs'.entries, root))
          && (outcome !in {BackupDirFailed, BackupFailed} && Disjoint(root, backup) && WF(fs.entries) ==>
                BackedUp(fs, fsB, root, backup))
          // the removal
          && (outcome !in {BackupDirFailed, BackupFailed} ==> (outcome == RemoveFailed <==> RemoveAll(fsB, root).1.Some?))
          && (outcome == RemoveFailed ==> fs' == RemoveAll(fsB, root).0)
          && (outcome == RemoveFailed && Disjoint(root, backup) && WF(fs.entries) ==>
                SameTree(fs'.entries, backup, fs.entries, root))
          // extraction and the check
          && (Reached(outcome) ==> fsX == Extract(RemoveAll(fsB, root).0, root, archive).0)
          && (Reached(outcome) ==> (outcome == Upgraded <==> archive.complete && Confirmed(probe(fsX), c.target)))
          && (Reached(outcome) ==> (outcome == VerifyCrashed <==> archive.complete && LocalGoInfo(probe(fsX)) == Panicked))
          && (outcome in {Upgraded, VerifyCrashed} ==> fs' == fsX)
          && (outcome == Upgraded ==> forall rel :: rel in archive.tree ==> At(fs'.entries, root, rel) == Some(archive.tree[rel]))
          && (outcome == Upgraded ==> forall rel :: rel != [] && rel !in archive.tree ==> At(fs'.entries, root, rel) == None)
          // restore
          && (outcome in {RolledBack, Unrecoverable} && RemoveAll(fsX, root).1.Some? ==>
                outcome == Unrecoverable && fs' == RemoveAll(fsX, root).0)
          && (outcome == RolledBack && Disjoint(root, backup) && WF(fs.entries) ==> SameTree(fs'.entries, root, fs.entries, root))
          // the causes of failure
          && (outcome == BackupFailed ==>
                !(Lookup(fs.entries, root) == Some(Dir) && Disjoint(root, backup) && WF(fs.entries) && CopyOk(fs, root, backup)))
          && (outcome == RemoveFailed && Disjoint(root, backup) && WF(fs.entries) ==> root == [] || Pinned(fs, root))
          && (Healthy(fs, root, backup) ==> Reached(outcome) && outcome != Unrecoverable))
  }

  /** Lines 100-172 of main, once the choice is to upgrade: create the
      temporary file, download the package from the target's URL, then back
      up, replace, check and restore at the installation root GOROOT names. */
  method Deliver(w: World, fs: FS, c: Choice) returns (outcome: Outcome, fs': FS, ghost fsB: FS, ghost fsX: FS)
    requires c.Go?
    ensures Delivered(w, fs, c, outcome, fs', fsB, fsX)
  {
    fs', fsB, fsX := fs, fs, fs;
    if !w.tempFileOk {
      return TempFileFailed, fs, fsB, fsX;
    }
    var pkg := w.fetch(UrlOf(w, c));
    if pkg.None? {
      return DownloadFailed, fs, fsB, fsX;
    }
    outcome, fs', fsB, fsX := Install(fs, PathOf(c.goroot), w.backupDir, pkg.value, VersionProbe(w, c.exe), c.target);
  }

  /** An upgrade is kept only when the unpacked archive was complete and its
      `go version` reports the target, and it is kept exactly as unpacked. */
  lemma KeptOnlyConfirmed(w: World, fs: FS, c: Choice, outcome: Outcome, fs': FS, fsB: FS, fsX: FS)
    requires c.Go? && Delivered(w, fs, c, outcome, fs', fsB, fsX)
    ensures outcome == Upgraded <==>
              && w.tempFileOk && w.fetch(UrlOf(w, c)).Some? && Reached(outcome)
              && w.fetch(UrlOf(w, c)).value.complete && Confirmed(w.run(fsX, c.exe, "version"), c.target)
    ensures outcome == Upgraded ==> fs' == fsX && Confirmed(w.run(fs', c.exe, "version"), c.target)
    ensures w.tempFileOk && w.fetch(UrlOf(w, c)).Some? && Healthy(fs, PathOf(c.goroot), w.backupDir) ==>
              && outcome in {Upgraded, VerifyCrashed, RolledBack}
              && (outcome == Upgraded <==>
                    w.fetch(UrlOf(w, c)).value.complete && Confirmed(w.run(fsX, c.exe, "version"), c.target))
  {
    var probe := VersionProbe(w, c.exe);
    assert probe(fsX) == w.run(fsX, c.exe, "version");
  }

  /** main: the choice, then, when it is to upgrade, the delivery; every
      stop before the download leaves the file system as it was. */
  method Run(w: World, fs: FS) returns (c: Choice, outcome: Outcome, fs': FS, ghost fsB: FS, ghost fsX: FS)
    ensures c.Stop? ==> outcome == c.outcome && fs' == fs
    ensures c.Stop? ==> outcome in {ProbeFailed, Crashed, EnvFailed, UpToDate, Declined, Unanswered}
    ensures c.Go? ==> Delivered(w, fs, c, outcome, fs', fsB, fsX)
    ensures Chosen(w, fs, c)
  {
    fsB, fsX := fs, fs;
    c := Choose(w, fs);
    if c.Stop? {
      return c, c.outcome, fs, fsB, fsX;
    }
    outcome, fs', fsB, fsX := Deliver(w, fs, c);
  }
}
