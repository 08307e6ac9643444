/** String helpers with the semantics of the Go standard library functions
    the tool relies on: strings.Index, strings.Contains, strings.Split,
    strings.HasPrefix, strings.TrimSpace, strings.Trim, strconv.Atoi, the
    `%d` verb of fmt and the line splitting of bufio.Scanner. */
module Text {

  datatype Option<+T> = None | Some(value: T)

  /** `sep` occurs in `s` starting at position `j`. */
  predicate OccursAt(s: string, sep: string, j: nat) {
    j + |sep| <= |s| && s[j..j + |sep|] == sep
  }

  /** Past the first character, `s` and `s[1..]` have the same occurrences. */
  lemma OccursShift(s: string, sep: string, j: nat)
    requires |s| > 0 && 1 <= j
    ensures OccursAt(s, sep, j) <==> OccursAt(s[1..], sep, j - 1)
  {
    if j + |sep| <= |s| {
      assert s[1..][j - 1..j - 1 + |sep|] == s[j..j + |sep|];
    }
  }

  /** Index of the leftmost occurrence of `sep` in `s` (strings.Index). */
  function IndexOf(s: string, sep: string): (r: Option<nat>)
    requires |sep| > 0
    ensures r.Some? ==> OccursAt(s, sep, r.value)
    ensures r.Some? ==> forall j: nat :: j < r.value ==> !OccursAt(s, sep, j)
    ensures r.None? ==> forall j: nat :: !OccursAt(s, sep, j)
    decreases |s|
  {
    if |s| < |sep| then None
    else if s[..|sep|] == sep then Some(0)
    else
      var r := IndexOf(s[1..], sep);
      assert forall j: nat :: 1 <= j ==> (OccursAt(s, sep, j) <==> OccursAt(s[1..], sep, j - 1)) by {
        forall j: nat | 1 <= j ensures OccursAt(s, sep, j) <==> OccursAt(s[1..], sep, j - 1) {
          OccursShift(s, sep, j);
        }
      }
      if r.None? then None else Some(r.value + 1)
  }

  /** strings.Contains for a non-empty separator. */
  predicate Contains(s: string, sep: string)
    requires |sep| > 0
  {
    IndexOf(s, sep).Some?
  }

  /** strings.HasPrefix. */
  predicate HasPrefix(s: string, prefix: string) {
    |prefix| <= |s| && s[..|prefix|] == prefix
  }

  /** Concatenation of `parts` with `sep` between them (strings.Join). */
  function Join(parts: seq<string>, sep: string): string
    requires |parts| > 0
  {
    if |parts| == 1 then parts[0] else parts[0] + sep + Join(parts[1..], sep)
  }

  /** strings.Split for a non-empty separator: the pieces between the
      leftmost non-overlapping occurrences of `sep`. */
  function Split(s: string, sep: string): (parts: seq<string>)
    requires |sep| > 0
    ensures |parts| >= 1
    ensures |parts| == 1 <==> !Contains(s, sep)
    decreases |s|
  {
    match IndexOf(s, sep)
    case None => [s]
    case Some(i) => [s[..i]] + Split(s[i + |sep|..], sep)
  }

  lemma JoinCons(a: string, rest: seq<string>, sep: string)
    requires |rest| > 0
    ensures Join([a] + rest, sep) == a + sep + Join(rest, sep)
  {
    assert ([a] + rest)[1..] == rest;
  }

  lemma Reassemble(s: string, i: nat, sep: string)
    requires OccursAt(s, sep, i)
    ensures s[..i] + sep + s[i + |sep|..] == s
  {
    assert s == s[..i] + s[i..i + |sep|] + s[i + |sep|..];
  }

  /** Joining the pieces with the separator gives back the text (strings.Join
      undoes strings.Split). */
  lemma {:induction false} JoinSplit(s: string, sep: string)
    requires |sep| > 0
    ensures Join(Split(s, sep), sep) == s
    decreases |s|
  {
    match IndexOf(s, sep)
    case None =>
      assert Split(s, sep) == [s];
    case Some(i) =>
      var head, tail := s[..i], s[i + |sep|..];
      var rest := Split(tail, sep);
      assert Split(s, sep) == [head] + rest;
      JoinSplit(tail, sep);
      JoinCons(head, rest, sep);
      Reassemble(s, i, sep);
      assert Join(Split(s, sep), sep) == head + sep + tail;
  }

  /** A string in which the first character of `sep` never occurs has no occurrence of `sep`. */
  lemma {:induction false} IndexOfAbsent(s: string, sep: string)
    requires |sep| > 0 && sep[0] !in s
    ensures IndexOf(s, sep) == None
    decreases |s|
  {
    if |s| >= |sep| {
      assert s[..|sep|][0] == s[0];
      IndexOfAbsent(s[1..], sep);
    }
  }

  /** An occurrence placed right after a prefix free of `sep[0]` is the leftmost one. */
  lemma {:induction false} IndexOfAfter(a: string, sep: string, b: string)
    requires |sep| > 0 && sep[0] !in a
    ensures IndexOf(a + sep + b, sep) == Some(|a|)
    decreases |a|
  {
    var s := a + sep + b;
    if |a| == 0 {
      assert s[..|sep|] == sep;
    } else {
      assert s[..|sep|][0] == a[0];
      assert s[1..] == a[1..] + sep + b;
      IndexOfAfter(a[1..], sep, b);
    }
  }

  lemma SplitAbsent(s: string, sep: string)
    requires |sep| > 0 && sep[0] !in s
    ensures Split(s, sep) == [s]
  {
    IndexOfAbsent(s, sep);
  }

  lemma SplitAfter(a: string, sep: string, b: string)
    requires |sep| > 0 && sep[0] !in a
    ensures Split(a + sep + b, sep) == [a] + Split(b, sep)
  {
    IndexOfAfter(a, sep, b);
    var s := a + sep + b;
    assert s[..|a|] == a;
    assert s[|a| + |sep|..] == b;
  }

  // ---------------------------------------------------------------- integers

  predicate IsDigit(c: char) {
    '0' <= c <= '9'
  }

  /** One or more decimal digits. */
  predicate IsNumeral(s: string) {
    |s| > 0 && forall i :: 0 <= i < |s| ==> IsDigit(s[i])
  }

  /** The value of a run of decimal digits, read most significant first. */
  function DigitsValue(s: string): nat
    requires forall i :: 0 <= i < |s| ==> IsDigit(s[i])
  {
    if |s| == 0 then 0
    else DigitsValue(s[..|s| - 1]) * 10 + DigitOf(s[|s| - 1])
  }

  function DigitOf(c: char): nat
    requires IsDigit(c)
  {
    c as int - '0' as int
  }

  /** strconv.Atoi with unbounded integers: an optional sign followed by
      one or more decimal digits; anything else is an error (None). */
  function Atoi(s: string): (r: Option<int>)
    ensures s == "" ==> r == None
    ensures r.Some? ==> IsNumeral(s) || (|s| > 1 && (s[0] == '+' || s[0] == '-') && IsNumeral(s[1..]))
  {
    if |s| > 0 && (s[0] == '+' || s[0] == '-') then
      if IsNumeral(s[1..]) then
        Some(if s[0] == '-' then -(DigitsValue(s[1..]) as int) else DigitsValue(s[1..]))
      else None
    else if IsNumeral(s) then Some(DigitsValue(s))
    else None
  }

  function DigitChar(d: nat): char
    requires d < 10
  {
    ('0' as int + d) as char
  }

  /** Decimal digits of a natural number, no leading zeros. */
  function NatToString(n: nat): (s: string)
    ensures IsNumeral(s)
    ensures n > 0 ==> s[0] != '0'
  {
    if n < 10 then [DigitChar(n)] else NatToString(n / 10) + [DigitChar(n % 10)]
  }

  /** The `%d` verb of fmt (strconv.Itoa). */
  function Itoa(n: int): string {
    if n < 0 then "-" + NatToString(-n) else NatToString(n)
  }

  lemma {:induction false} NatToStringValue(n: nat)
    ensures DigitsValue(NatToString(n)) == n
  {
    if n >= 10 {
      NatToStringValue(n / 10);
      var s := NatToString(n);
      assert s[..|s| - 1] == NatToString(n / 10);
    }
  }

  /** Printing an integer with `%d` and reading it back with Atoi is the identity. */
  lemma AtoiItoa(n: int)
    ensures Atoi(Itoa(n)) == Some(n)
  {
    if n < 0 {
      NatToStringValue(-n);
      assert Itoa(n)[1..] == NatToString(-n);
    } else {
      NatToStringValue(n);
    }
  }

  /** Every character `%d` prints is a digit or a minus sign. */
  lemma ItoaChars(n: int)
    ensures forall c :: c in Itoa(n) ==> IsDigit(c) || c == '-'
  {
    var d := NatToString(if n < 0 then -n else n);
    assert forall c :: c in d ==> IsDigit(c);
  }

  // ---------------------------------------------------------------- trimming

  /** The characters unicode.IsSpace accepts: the Latin-1 white space, and
      above it the code points of the Unicode White_Space property. */
  predicate IsSpace(c: char) {
    || c == ' ' || c == '\t' || c == '\n' || c == '\r' || c == '\U{0B}' || c == '\U{0C}'
    || c == '\U{85}' || c == '\U{A0}'
    || c == '\U{1680}' || ('\U{2000}' <= c <= '\U{200A}') || c == '\U{2028}' || c == '\U{2029}'
    || c == '\U{202F}' || c == '\U{205F}' || c == '\U{3000}'
  }

  function TrimLeftBy(s: string, drop: char -> bool): string {
    if |s| > 0 && drop(s[0]) then TrimLeftBy(s[1..], drop) else s
  }

  function TrimRightBy(s: string, drop: char -> bool): string {
    if |s| > 0 && drop(s[|s| - 1]) then TrimRightBy(s[..|s| - 1], drop) else s
  }

  lemma TrimLeftStop(s: string, drop: char -> bool)
    requires |s| > 0 && !drop(s[0])
    ensures TrimLeftBy(s, drop) == s
  {
  }

  lemma TrimLeftDrop(s: string, drop: char -> bool)
    requires |s| > 0 && drop(s[0])
    ensures TrimLeftBy(s, drop) == TrimLeftBy(s[1..], drop)
  {
  }

  lemma TrimRightStop(s: string, drop: char -> bool)
    requires |s| > 0 && !drop(s[|s| - 1])
    ensures TrimRightBy(s, drop) == s
  {
  }

  lemma TrimRightDrop(s: string, drop: char -> bool)
    requires |s| > 0 && drop(s[|s| - 1])
    ensures TrimRightBy(s, drop) == TrimRightBy(s[..|s| - 1], drop)
  {
  }

  /** strings.TrimSpace. */
  function TrimSpace(s: string): string {
    TrimRightBy(TrimLeftBy(s, IsSpace), IsSpace)
  }

  /** strings.Trim(s, "\""): drops every leading and trailing double quote. */
  function TrimQuotes(s: string): string {
    TrimRightBy(TrimLeftBy(s, c => c == '"'), c => c == '"')
  }

  lemma TrimSpaceNoSpace(s: string)
    requires forall i :: 0 <= i < |s| ==> !IsSpace(s[i])
    ensures TrimSpace(s) == s
  {
  }

  // ---------------------------------------------------------------- lines

  function DropCR(line: string): string {
    if |line| > 0 && line[|line| - 1] == '\r' then line[..|line| - 1] else line
  }

  /** The lines bufio.ScanLines yields: split at '\n', one trailing '\r'
      dropped from each line, no empty final line after a final newline. */
  function ScanLines(s: string): (r: seq<string>)
    ensures forall k :: 0 <= k < |r| ==> '\n' !in r[k]
    decreases |s|
  {
    if s == "" then []
    else
      match IndexOf(s, "\n")
      case None =>
        NoNewlineBefore(s, |s|);
        [DropCR(s)]
      case Some(i) =>
        NoNewlineBefore(s, i);
        [DropCR(s[..i])] + ScanLines(s[i + 1..])
  }

  /** No line break before the first occurrence of "\n", and none in the
      line once its carriage return is dropped. */
  lemma NoNewlineBefore(s: string, i: nat)
    requires i <= |s| && forall j: nat :: j < i ==> !OccursAt(s, "\n", j)
    ensures '\n' !in s[..i] && '\n' !in DropCR(s[..i])
  {
    forall k | 0 <= k < i ensures s[k] != '\n' {
      assert s[k..k + 1] == [s[k]];
      assert !OccursAt(s, "\n", k);
    }
    assert s == s[..|s|];
  }

  /** Text made of lines, each followed by a newline. */
  function Unlines(lines: seq<string>): string {
    if lines == [] then "" else lines[0] + "\n" + Unlines(lines[1..])
  }

  /** Scanning text made of lines gives back the lines, when none holds a
      newline or ends in a carriage return. */
  lemma {:induction false} ScanUnlines(lines: seq<string>)
    requires forall k :: 0 <= k < |lines| ==> '\n' !in lines[k] && DropCR(lines[k]) == lines[k]
    ensures ScanLines(Unlines(lines)) == lines
  {
    if lines != [] {
      var a, rest := lines[0], Unlines(lines[1..]);
      IndexOfAfter(a, "\n", rest);
      var s := a + "\n" + rest;
      assert s[..|a|] == a;
      assert s[|a| + 1..] == rest;
      ScanUnlines(lines[1..]);
    }
  }
}
