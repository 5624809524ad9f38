/** White space, digits, stripping and line splitting, as Python's `str` has them. */
module Text {
  import opened Wrappers

  /** The characters that Python's `str.strip` and the pattern `\s` treat as white space. */
  predicate IsSpace(c: char) {
    var n := c as int;
    9 <= n <= 13 || 0x1C <= n <= 0x20 || n == 0x85 || n == 0xA0 || n == 0x1680 ||
    0x2000 <= n <= 0x200A || n == 0x2028 || n == 0x2029 || n == 0x202F || n == 0x205F || n == 0x3000
  }

  /** The zero of the last run of ten decimal digits beyond ASCII that starts at or before `n`;
      the runs are those of the general category Nd in Unicode 14.0, which Python 3.11 uses. */
  function WideZero(n: int): int {
    if n < 0x6F0 then 0x660 else if n < 0x7C0 then 0x6F0 else if n < 0x966 then 0x7C0 else
    if n < 0x9E6 then 0x966 else if n < 0xA66 then 0x9E6 else if n < 0xAE6 then 0xA66 else
    if n < 0xB66 then 0xAE6 else if n < 0xBE6 then 0xB66 else if n < 0xC66 then 0xBE6 else
    if n < 0xCE6 then 0xC66 else if n < 0xD66 then 0xCE6 else if n < 0xDE6 then 0xD66 else
    if n < 0xE50 then 0xDE6 else if n < 0xED0 then 0xE50 else if n < 0xF20 then 0xED0 else
    if n < 0x1040 then 0xF20 else if n < 0x1090 then 0x1040 else if n < 0x17E0 then 0x1090 else
    if n < 0x1810 then 0x17E0 else if n < 0x1946 then 0x1810 else if n < 0x19D0 then 0x1946 else
    if n < 0x1A80 then 0x19D0 else if n < 0x1A90 then 0x1A80 else if n < 0x1B50 then 0x1A90 else
    if n < 0x1BB0 then 0x1B50 else if n < 0x1C40 then 0x1BB0 else if n < 0x1C50 then 0x1C40 else
    if n < 0xA620 then 0x1C50 else if n < 0xA8D0 then 0xA620 else if n < 0xA900 then 0xA8D0 else
    if n < 0xA9D0 then 0xA900 else if n < 0xA9F0 then 0xA9D0 else if n < 0xAA50 then 0xA9F0 else
    if n < 0xABF0 then 0xAA50 else if n < 0xFF10 then 0xABF0 else if n < 0x104A0 then 0xFF10 else
    if n < 0x10D30 then 0x104A0 else if n < 0x11066 then 0x10D30 else if n < 0x110F0 then 0x11066 else
    if n < 0x11136 then 0x110F0 else if n < 0x111D0 then 0x11136 else if n < 0x112F0 then 0x111D0 else
    if n < 0x11450 then 0x112F0 else if n < 0x114D0 then 0x11450 else if n < 0x11650 then 0x114D0 else
    if n < 0x116C0 then 0x11650 else if n < 0x11730 then 0x116C0 else if n < 0x118E0 then 0x11730 else
    if n < 0x11950 then 0x118E0 else if n < 0x11C50 then 0x11950 else if n < 0x11D50 then 0x11C50 else
    if n < 0x11DA0 then 0x11D50 else if n < 0x16A60 then 0x11DA0 else if n < 0x16AC0 then 0x16A60 else
    if n < 0x16B50 then 0x16AC0 else if n < 0x1D7CE then 0x16B50 else if n < 0x1D7D8 then 0x1D7CE else
    if n < 0x1D7E2 then 0x1D7D8 else if n < 0x1D7EC then 0x1D7E2 else if n < 0x1D7F6 then 0x1D7EC else
    if n < 0x1E140 then 0x1D7F6 else if n < 0x1E2F0 then 0x1E140 else if n < 0x1E950 then 0x1E2F0 else
    if n < 0x1FBF0 then 0x1E950 else 0x1FBF0
  }

  /** The value of a decimal digit, as the pattern `\d` and `int` know them. */
  function DigitValue(c: char): (r: Option<nat>)
    ensures r.Some? ==> r.value < 10
    ensures c as int < 0x660 ==> r == if '0' <= c <= '9' then Some(c as nat - '0' as nat) else None
    ensures r.Some? ==> !IsSpace(c)
  {
    var n := c as int;
    if '0' <= c <= '9' then Some(n - '0' as int)
    else if n < 0x660 || n - WideZero(n) >= 10 then None
    else Some(n - WideZero(n))
  }

  predicate IsDigit(c: char) { DigitValue(c).Some? }

  function LStrip(s: string): (r: string)
    ensures |r| <= |s|
    ensures r == "" || !IsSpace(r[0])
    ensures s != "" && !IsSpace(s[0]) ==> r == s
  {
    if s != "" && IsSpace(s[0]) then LStrip(s[1..]) else s
  }

  function RStrip(s: string): (r: string)
    ensures |r| <= |s|
    ensures r == "" || !IsSpace(r[|r| - 1])
    ensures s != "" && !IsSpace(s[|s| - 1]) ==> r == s
    ensures r <= s
  {
    if s != "" && IsSpace(s[|s| - 1]) then RStrip(s[..|s| - 1]) else s
  }

  function Strip(s: string): string { LStrip(RStrip(s)) }

  /** No white space at either end. */
  predicate Trimmed(s: string) {
    s == "" || (!IsSpace(s[0]) && !IsSpace(s[|s| - 1]))
  }

  lemma StripTrimmed(s: string)
    requires Trimmed(s)
    ensures Strip(s) == s
  {}

  lemma {:induction false} LStripIsSuffix(s: string) returns (a: nat)
    ensures a <= |s| && LStrip(s) == s[a..]
  {
    if s != "" && IsSpace(s[0]) {
      a := LStripIsSuffix(s[1..]);
      a := a + 1;
    } else {
      a := 0;
    }
  }

  /** Stripping takes a part of the text without white space at its ends. */
  lemma StripIsSlice(s: string) returns (a: nat, b: nat)
    ensures a <= b <= |s| && Strip(s) == s[a..b] && Trimmed(Strip(s))
  {
    var front := RStrip(s);
    a := LStripIsSuffix(front);
    b := |front|;
    assert front == s[..b] && front[a..] == s[a..b];
    if a < b { assert s[a..b][b - a - 1] == front[b - 1]; }
  }

  lemma StripAppend(s: string, c: char)
    requires IsSpace(c)
    ensures Strip(s + [c]) == Strip(s) && RStrip(s + [c]) == RStrip(s)
  {
    assert (s + [c])[..|s|] == s;
  }

  // ---------------------------------------------------------------- lines

  /** The characters at which `str.splitlines` ends a line. */
  predicate IsBreak(c: char) {
    var n := c as int;
    10 <= n <= 13 || 0x1C <= n <= 0x1E || n == 0x85 || n == 0x2028 || n == 0x2029
  }

  predicate SingleLine(s: string) {
    forall i :: 0 <= i < |s| ==> !IsBreak(s[i])
  }

  ghost predicate AllSingle(lines: seq<string>) {
    forall i :: 0 <= i < |lines| ==> SingleLine(lines[i])
  }

  function UpToBreak(text: string): (line: string)
    ensures |line| <= |text|
  {
    if text == "" || IsBreak(text[0]) then "" else [text[0]] + UpToBreak(text[1..])
  }

  /** A carriage return and a line feed are one break. */
  function BreakLength(text: string, at: nat): (n: nat)
    requires at < |text|
    ensures 1 <= n <= |text| - at
  {
    if text[at] == '\r' && at + 1 < |text| && text[at + 1] == '\n' then 2 else 1
  }

  /** `str.splitlines` without the line ends. */
  function SplitLines(text: string): seq<string>
    decreases |text|
  {
    if text == "" then []
    else
      var n := |UpToBreak(text)|;
      if n == |text| then [text] else [UpToBreak(text)] + SplitLines(text[n + BreakLength(text, n)..])
  }

  function JoinLines(lines: seq<string>): string {
    if lines == [] then ""
    else if |lines| == 1 then lines[0]
    else lines[0] + "\n" + JoinLines(lines[1..])
  }

  /** The lines with a line feed after each. */
  function Unlines(lines: seq<string>): string {
    if lines == [] then "" else lines[0] + "\n" + Unlines(lines[1..])
  }

  lemma {:induction false} UnlinesJoin(lines: seq<string>)
    requires lines != []
    ensures Unlines(lines) == JoinLines(lines) + "\n"
  {
    if |lines| == 1 {
      assert Unlines(lines[1..]) == "";
    } else {
      UnlinesJoin(lines[1..]);
    }
  }

  lemma {:induction false} UpToBreakOf(line: string, rest: string)
    requires SingleLine(line) && rest != "" && IsBreak(rest[0])
    ensures UpToBreak(line + rest) == line
  {
    if line == "" {
      assert line + rest == rest;
    } else {
      assert (line + rest)[1..] == line[1..] + rest;
      UpToBreakOf(line[1..], rest);
    }
  }

  /** One break, in front of `rest`. */
  predicate EndsLine(end: string, rest: string) {
    || end == "\r\n"
    || (|end| == 1 && IsBreak(end[0]) && !(end == "\r" && rest != "" && rest[0] == '\n'))
  }

  /** One line is split off, whatever line end it has. */
  lemma SplitFirst(line: string, end: string, rest: string)
    requires SingleLine(line) && EndsLine(end, rest)
    ensures SplitLines(line + end + rest) == [line] + SplitLines(rest)
  {
    var text := line + end + rest;
    assert text == line + (end + rest);
    UpToBreakOf(line, end + rest);
    assert text[|line|..] == end + rest;
    assert text[|line|] == end[0] && (|end| == 2 ==> text[|line| + 1] == end[1]);
    assert text[|line| + |end|..] == rest;
  }

  /** The line without a carriage return at its end. */
  function Chomp(line: string): string {
    if line != "" && line[|line| - 1] == '\r' then line[..|line| - 1] else line
  }

  function ChompAll(lines: seq<string>): (r: seq<string>)
    ensures |r| == |lines| && forall i :: 0 <= i < |r| ==> r[i] == Chomp(lines[i])
  {
    if lines == [] then [] else [Chomp(lines[0])] + ChompAll(lines[1..])
  }

  /** Every line is a single one, but for a carriage return at its end. */
  predicate ProperLines(lines: seq<string>) {
    forall i :: 0 <= i < |lines| ==> SingleLine(Chomp(lines[i]))
  }

  /** Splitting a text written line by line gives the lines back. */
  lemma {:induction false} SplitUnlines(lines: seq<string>)
    requires ProperLines(lines)
    ensures SplitLines(Unlines(lines)) == ChompAll(lines)
  {
    hide SplitLines, SingleLine;
    if lines == [] {
      SplitNothing();
    } else {
      var line, rest := lines[0], Unlines(lines[1..]);
      SplitUnlines(lines[1..]);
      if Chomp(line) == line {
        SplitFirst(line, "\n", rest);
      } else {
        assert line + "\n" + rest == Chomp(line) + "\r\n" + rest;
        SplitFirst(Chomp(line), "\r\n", rest);
      }
    }
  }

  lemma SplitNothing()
    ensures SplitLines("") == []
  {}

  lemma ChompSingle(line: string)
    requires SingleLine(line)
    ensures Chomp(line) == line
  {
    if line != "" { assert !IsBreak(line[|line| - 1]); }
  }

  lemma SplitSingleLines(lines: seq<string>)
    requires AllSingle(lines)
    ensures SplitLines(Unlines(lines)) == lines
  {
    hide SingleLine, Unlines, SplitLines;
    forall i | 0 <= i < |lines| ensures Chomp(lines[i]) == lines[i] { ChompSingle(lines[i]); }
    SplitUnlines(lines);
    assert ChompAll(lines) == lines;
  }
}
