/** The text parsing of upgrade.go's LocalGoInfo (`go version` output) and
    GoPath (`go env` output). Running the command is not modelled: each takes
    the command's standard output, or None when the command fails. An index
    out of range in the Go code is a panic, modelled as its own result. */
module Probe {
  import opened Text

  datatype GoInfo = GoInfo(ver: string, os: string, arch: string)

  datatype ProbeError = ExecFailed | EmptyOutput

  datatype Probed = Info(info: GoInfo) | Failed(error: ProbeError) | Panicked

  /** LocalGoInfo: the third space-separated field without its first two
      characters is the version, the fourth split at "/" gives the OS and the
      architecture, each with surrounding white space trimmed. */
  function LocalGoInfo(out: Option<string>): (r: Probed)
    ensures out.None? ==> r == Failed(ExecFailed)
    ensures out == Some("") ==> r == Failed(EmptyOutput)
    ensures r.Failed? ==> out.None? || out == Some("")
    ensures r.Info? ==> out.Some? && |Split(out.value, " ")| >= 4 && Contains(Split(out.value, " ")[3], "/")
  {
    match out
    case None => Failed(ExecFailed)
    case Some(text) =>
      if |text| == 0 then Failed(EmptyOutput)
      else
        var fields := Split(text, " ");
        if |fields| < 4 then Panicked
        else
          var archOS := Split(fields[3], "/");
          if |fields[2]| < 2 || |archOS| < 2 then Panicked
          else Info(GoInfo(TrimSpace(fields[2][2..]), TrimSpace(archOS[0]), TrimSpace(archOS[1])))
  }

  predicate NoSpace(s: string) {
    forall i :: 0 <= i < |s| ==> !IsSpace(s[i])
  }

  /** Trimming a word followed by a line break leaves the word. */
  lemma TrimLine(s: string)
    requires NoSpace(s)
    ensures TrimSpace(s + "\n") == s
  {
    var t := s + "\n";
    assert IsSpace('\n');
    if s == [] {
      TrimLeftDrop(t, IsSpace);
      assert t[1..] == [];
    } else {
      TrimLeftStop(t, IsSpace);
      TrimRightDrop(t, IsSpace);
      assert t[..|t| - 1] == s;
      TrimRightStop(s, IsSpace);
    }
  }

  lemma SpaceFree(a: string, b: string)
    requires NoSpace(a) && NoSpace(b)
    ensures ' ' !in a + "/" + b + "\n"
  {
    assert IsSpace(' ');
    assert forall i :: 0 <= i < |a| ==> a[i] != ' ';
    assert forall i :: 0 <= i < |b| ==> b[i] != ' ';
  }

  lemma VersionLineShape(v: string, os: string, arch: string)
    ensures "go version go" + v + " " + os + "/" + arch + "\n"
         == "go" + " " + ("version" + " " + (("go" + v) + " " + (os + "/" + arch + "\n")))
  {
  }

  /** Four space-free words joined by spaces split back into them. */
  lemma FourFields(third: string, last: string)
    requires ' ' !in third && ' ' !in last
    ensures Split("go" + " " + ("version" + " " + (third + " " + last)), " ") == ["go", "version", third, last]
  {
    var rest2 := third + " " + last;
    var rest1 := "version" + " " + rest2;
    assert ' ' !in "go" && ' ' !in "version";
    calc {
      Split("go" + " " + rest1, " ");
      { SplitAfter("go", " ", rest1); }
      ["go"] + Split(rest1, " ");
      { SplitAfter("version", " ", rest2); }
      ["go"] + (["version"] + Split(rest2, " "));
      { SplitAfter(third, " ", last); }
      ["go"] + (["version"] + ([third] + Split(last, " ")));
      { SplitAbsent(last, " "); }
      ["go", "version", third, last];
    }
  }

  /** The fields of a well-formed `go version` line. */
  lemma VersionLineFields(v: string, os: string, arch: string)
    requires NoSpace(v) && NoSpace(os) && NoSpace(arch)
    ensures Split("go version go" + v + " " + os + "/" + arch + "\n", " ")
         == ["go", "version", "go" + v, os + "/" + arch + "\n"]
  {
    assert IsSpace(' ');
    assert ' ' !in "go" + v;
    SpaceFree(os, arch);
    VersionLineShape(v, os, arch);
    FourFields("go" + v, os + "/" + arch + "\n");
  }

  /** LocalGoInfo reads back the version, OS and architecture of a
      well-formed `go version` line such as "go version go1.21.0 linux/amd64". */
  lemma LocalGoInfoReadsVersionLine(v: string, os: string, arch: string)
    requires NoSpace(v) && NoSpace(os) && NoSpace(arch) && '/' !in os && '/' !in arch
    ensures LocalGoInfo(Some("go version go" + v + " " + os + "/" + arch + "\n")) == Info(GoInfo(v, os, arch))
  {
    VersionLineFields(v, os, arch);
    var fourth := os + "/" + arch + "\n";
    assert '/' !in arch + "\n";
    SplitAbsent(arch + "\n", "/");
    SplitAfter(os, "/", arch + "\n");
    assert fourth == os + "/" + (arch + "\n");
    assert ("go" + v)[2..] == v;
    TrimSpaceNoSpace(v);
    TrimSpaceNoSpace(os);
    TrimLine(arch);
  }

  /** A `go version` output with fewer than four fields makes LocalGoInfo panic. */
  lemma ShortOutputPanics(text: string)
    requires text != "" && ' ' !in text
    ensures LocalGoInfo(Some(text)) == Panicked
  {
    SplitAbsent(text, " ");
  }

  // ---------------------------------------------------------------- GoPath

  datatype EnvResult = Found(path: string) | NotFound | EnvExecFailed | EnvPanicked

  predicate MentionsGoroot(line: string) {
    Contains(line, "GOROOT")
  }

  /** Line `k` is the first line mentioning GOROOT. */
  predicate FirstMention(lines: seq<string>, k: int) {
    0 <= k < |lines| && MentionsGoroot(lines[k]) && forall j :: 0 <= j < k ==> !MentionsGoroot(lines[j])
  }

  /** GoPath: scans the lines of `go env` for the first containing "GOROOT"
      and returns what follows its first "=" (up to a second one) with the
      double quotes around it trimmed. A line without "=" panics. */
  method GoPath(out: Option<string>) returns (r: EnvResult)
    ensures out.None? <==> r == EnvExecFailed
    ensures out.Some? ==> Reads(ScanLines(out.value), r)
  {
    if out.None? {
      return EnvExecFailed;
    }
    r := FindGoroot(ScanLines(out.value));
  }

  /** What GoPath may return for the lines of the output of `go env`. */
  predicate Reads(lines: seq<string>, r: EnvResult) {
    && r != EnvExecFailed
    && (r == NotFound <==> forall k :: 0 <= k < |lines| ==> !MentionsGoroot(lines[k]))
    && (r.Found? ==> exists k :: 0 <= k < |lines| && FirstMention(lines, k) && |Split(lines[k], "=")| >= 2
                                && r.path == TrimQuotes(Split(lines[k], "=")[1]))
    && (r == EnvPanicked ==> exists k :: 0 <= k < |lines| && FirstMention(lines, k) && !Contains(lines[k], "="))
  }

  /** There is only one first mention. */
  lemma FirstMentionUnique(lines: seq<string>, k1: int, k2: int)
    requires FirstMention(lines, k1) && FirstMention(lines, k2)
    ensures k1 == k2
  {
  }

  /** Reads fixes GoPath's result: the lines of `go env` allow one result. */
  lemma ReadsDetermined(lines: seq<string>, r: EnvResult)
    requires Reads(lines, r)
    ensures forall r' :: Reads(lines, r') ==> r' == r
  {
    forall r' | Reads(lines, r') ensures r' == r {
      if r.Found? || r == EnvPanicked || r'.Found? || r' == EnvPanicked {
        var k :| 0 <= k < |lines| && FirstMention(lines, k);
        if r.Found? {
          var k1 :| 0 <= k1 < |lines| && FirstMention(lines, k1) && |Split(lines[k1], "=")| >= 2
                                && r.path == TrimQuotes(Split(lines[k1], "=")[1]);
          FirstMentionUnique(lines, k, k1);
        }
        if r'.Found? {
          var k2 :| 0 <= k2 < |lines| && FirstMention(lines, k2) && |Split(lines[k2], "=")| >= 2
                                && r'.path == TrimQuotes(Split(lines[k2], "=")[1]);
          FirstMentionUnique(lines, k, k2);
        }
        if r == EnvPanicked {
          var k1 :| 0 <= k1 < |lines| && FirstMention(lines, k1) && !Contains(lines[k1], "=");
          FirstMentionUnique(lines, k, k1);
        }
        if r' == EnvPanicked {
          var k2 :| 0 <= k2 < |lines| && FirstMention(lines, k2) && !Contains(lines[k2], "=");
          FirstMentionUnique(lines, k, k2);
        }
      }
    }
  }

  /** The scanning loop of GoPath. */
  method FindGoroot(lines: seq<string>) returns (r: EnvResult)
    ensures Reads(lines, r)
  {
    var i := 0;
    while i < |lines|
      invariant 0 <= i <= |lines|
      invariant forall k :: 0 <= k < i ==> !MentionsGoroot(lines[k])
    {
      if Contains(lines[i], "GOROOT") {
        var varPair := Split(lines[i], "=");
        assert FirstMention(lines, i);
        if |varPair| < 2 {
          return EnvPanicked;
        }
        return Found(TrimQuotes(varPair[1]));
      }
      i := i + 1;
    }
    return NotFound;
  }

  /** Trimming the quotes around a quote-free text gives the text. */
  lemma TrimQuoted(p: string)
    requires '"' !in p
    ensures TrimQuotes("\"" + p + "\"") == p
  {
    var t := "\"" + p + "\"";
    var q := c => c == '"';
    assert TrimLeftBy(t, q) == TrimLeftBy(t[1..], q);
    assert t[1..] == p + "\"";
    if p == [] {
      assert TrimLeftBy(p + "\"", q) == TrimLeftBy([], q);
    } else {
      assert TrimLeftBy(p + "\"", q) == p + "\"";
      assert (p + "\"")[..|p|] == p;
      assert TrimRightBy(p + "\"", q) == TrimRightBy(p, q);
    }
  }

  /** The value GoPath takes from a line `GOROOT="<path>"` is the path. */
  lemma GorootValue(name: string, p: string)
    requires '=' !in name && '=' !in p && '"' !in p
    ensures Split(name + "=\"" + p + "\"", "=") == [name, "\"" + p + "\""]
    ensures TrimQuotes(Split(name + "=\"" + p + "\"", "=")[1]) == p
  {
    var v := "\"" + p + "\"";
    QuotedLine(name, p);
    SplitPair(name, v);
    TrimQuoted(p);
  }

  lemma QuotedLine(name: string, p: string)
    ensures name + "=\"" + p + "\"" == name + "=" + ("\"" + p + "\"")
  {
  }

  /** A line `<name>=<v>` with no other "=" splits into its two halves. */
  lemma SplitPair(name: string, v: string)
    requires '=' !in name && '=' !in v
    ensures Split(name + "=" + v, "=") == [name, v]
  {
    SplitAbsent(v, "=");
    SplitAfter(name, "=", v);
  }
}
