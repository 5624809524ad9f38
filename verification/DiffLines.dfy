/**
 The unified-diff reader of scripts/check_pragma_reasons.py: which (file, line number) pairs a
 zero-context diff adds.

 Main result: from the text of every well-formed diff without breaks inside its lines the reader
 returns exactly the added lines if and only if no added line starts with two plus signs and no
 file that git quotes, or whose name starts or ends with a space, adds a line
 (`ReadsExactlyAddedIff`).
 */
module DiffLines {
  import opened Decimal
  import opened Text
  import Utf8
  import opened Wrappers

  // ---------------------------------------------------------------- the reader

  /** The digits a text starts with. */
  function TakeDigits(s: string): (d: seq<nat>)
    ensures |d| <= |s|
  {
    if s != "" && IsDigit(s[0]) then [DigitValue(s[0]).value] + TakeDigits(s[1..]) else []
  }

  datatype Range = Range(start: nat, count: nat)

  /** A start and, after a comma, a count; without one the count is 1. */
  function RangeAt(s: string): Range {
    var start := TakeDigits(s);
    var rest := s[|start|..];
    var count := if rest != "" && rest[0] == ',' then TakeDigits(rest[1..]) else [];
    Range(ValueOf(start), if count == [] then 1 else ValueOf(count))
  }

  /** The first plus sign that is followed by a digit, and the range there. */
  function FindRange(s: string): Option<Range> {
    if |s| < 2 then None
    else if s[0] == '+' && IsDigit(s[1]) then Some(RangeAt(s[1..]))
    else FindRange(s[1..])
  }

  type Place = (Option<string>, int)

  datatype Reader = Reader(current: Option<string>, lineno: int, added: set<Place>)

  const START: Reader := Reader(None, 0, {})

  function ReadLine(r: Reader, line: string): Reader {
    if "+++ b/" <= line then r.(current := Some(Strip(line[6..])))
    else if "@@" <= line then
      match FindRange(line)
      case Some(range) => r.(lineno := if range.count == 0 then -1 else range.start)
      case None => r
    else if "+" <= line && !("+++" <= line) && r.lineno > 0 then
      r.(added := r.added + {(r.current, r.lineno)}, lineno := r.lineno + 1)
    else r
  }

  function ReadLines(r: Reader, lines: seq<string>): Reader
    decreases |lines|
  {
    if lines == [] then r else ReadLines(ReadLine(r, lines[0]), lines[1..])
  }

  /** The places the reader takes from the text of a diff. */
  function Read(diff: string): set<Place> { ReadLines(START, SplitLines(diff)).added }

  /** The loop of `changed_lines` over the lines of the diff. */
  method ChangedLines(diff: string) returns (added: set<Place>)
    ensures added == Read(diff)
  {
    hide SplitLines, FindRange, Strip;
    var lines := SplitLines(diff);
    added := {};
    var current: Option<string> := None;
    var newLineno: int := 0;
    for i := 0 to |lines|
      invariant ReadLines(START, lines) == ReadLines(Reader(current, newLineno, added), lines[i..])
    {
      var line := lines[i];
      assert lines[i..][0] == line && lines[i..][1..] == lines[i + 1..];
      if "+++ b/" <= line {
        current := Some(Strip(line[6..]));
      } else if "@@" <= line {
        var m := FindRange(line);
        if m.Some? {
          newLineno := m.value.start;
          if m.value.count == 0 { newLineno := -1; }
        }
      } else if "+" <= line && !("+++" <= line) && newLineno > 0 {
        added := added + {(current, newLineno)};
        newLineno := newLineno + 1;
      }
    }
    assert lines[|lines|..] == [];
  }

  /** Nothing is added before the first hunk header. */
  lemma {:induction false} NothingBeforeHunk(r: Reader, lines: seq<string>)
    requires r.lineno == 0 && forall i :: 0 <= i < |lines| ==> !("@@" <= lines[i])
    ensures ReadLines(r, lines).added == r.added && ReadLines(r, lines).lineno == 0
    decreases |lines|
  {
    if lines != [] {
      assert !("@@" <= lines[0]);
      NothingBeforeHunk(ReadLine(r, lines[0]), lines[1..]);
    }
  }

  // ---------------------------------------------------------------- diffs and how git prints them

  /** A hunk without context lines; `note` is what follows the second `@@`. The flags say
      whether the "no newline" marker follows the removed or the added lines. */
  datatype Hunk = Hunk(
    oldStart: nat, newStart: nat,
    removed: seq<string>, added: seq<string>,
    note: string, removedMarker: bool, addedMarker: bool)

  /** A file of the diff with its old name, if it had one; `preamble` are the lines before its
      two name lines. */
  datatype FileDiff = FileDiff(
    fromName: Option<string>, name: string, deleted: bool,
    preamble: seq<string>, hunks: seq<Hunk>)

  /** A character for whose sake git quotes a name, as long as `core.quotePath` is not switched
      off: control characters, the quote, the backslash and everything beyond ASCII. */
  predicate Special(c: char) { c as int < 0x20 || c == '\"' || c == '\\' || c as int >= 0x7F }

  predicate NeedsQuotes(s: string) { exists i :: 0 <= i < |s| && Special(s[i]) }

  function OctalDigit(n: int): char
    requires 0 <= n < 8
  {
    "01234567"[n]
  }

  function OctalAll(b: Utf8.Bytes): string {
    if b == [] then ""
    else
      var n := b[0] as int;
      "\\" + [OctalDigit(n / 64), OctalDigit(n / 8 % 8), OctalDigit(n % 8)] + OctalAll(b[1..])
  }

  function QuoteChar(c: char): string {
    if c == '\"' || c == '\\' then ['\\', c]
    else if 7 <= c as int <= 13 then ['\\', "abtnvfr"[c as int - 7]]
    else if Special(c) then OctalAll(Utf8.Encode(c))
    else [c]
  }

  function QuoteAll(s: string): string {
    if s == "" then "" else QuoteChar(s[0]) + QuoteAll(s[1..])
  }

  /** A name as the name lines show it; a tab marks the end of a name with a space in it. */
  function Label(s: string): string {
    (if NeedsQuotes(s) then "\"" + QuoteAll(s) + "\"" else s) + (if ' ' in s then "\t" else "")
  }

  function PrintRange(start: nat, count: nat): string {
    Numeral(DigitsOf(start)) + (if count == 1 then "" else "," + Numeral(DigitsOf(count)))
  }

  function HunkHeader(h: Hunk): string {
    "@@ -" + PrintRange(h.oldStart, |h.removed|) + (" +" + PrintRange(h.newStart, |h.added|)) + (" @@" + h.note)
  }

  function Prefixed(mark: char, lines: seq<string>): seq<string> {
    if lines == [] then [] else [[mark] + lines[0]] + Prefixed(mark, lines[1..])
  }

  function Marker(present: bool): seq<string> {
    if present then ["\\ No newline at end of file"] else []
  }

  function PrintHunk(h: Hunk): seq<string> {
    [HunkHeader(h)] + (Prefixed('-', h.removed) + (Marker(h.removedMarker)
      + (Prefixed('+', h.added) + Marker(h.addedMarker))))
  }

  function PrintHunks(hunks: seq<Hunk>): seq<string> {
    if hunks == [] then [] else PrintHunk(hunks[0]) + PrintHunks(hunks[1..])
  }

  function FromLine(f: FileDiff): string {
    "--- " + match f.fromName case None => "/dev/null" case Some(name) => Label("a/" + name)
  }

  function ToLine(f: FileDiff): string {
    "+++ " + if f.deleted then "/dev/null" else Label("b/" + f.name)
  }

  /** A file whose contents do not change, such as a renamed one, has no name lines. */
  function NameLines(f: FileDiff): seq<string> {
    if f.hunks == [] then [] else [FromLine(f), ToLine(f)]
  }

  function PrintFile(f: FileDiff): seq<string> {
    f.preamble + (NameLines(f) + PrintHunks(f.hunks))
  }

  function PrintDiff(files: seq<FileDiff>): seq<string> {
    if files == [] then [] else PrintFile(files[0]) + PrintDiff(files[1..])
  }

  /** The text of the diff. */
  function DiffText(files: seq<FileDiff>): string { Unlines(PrintDiff(files)) }

  /** Hunks come in order and do not overlap; `from` is the first line still free. */
  predicate Ordered(hunks: seq<Hunk>, from: nat) {
    hunks == [] ||
    (hunks[0].newStart >= (if hunks[0].added == [] then 0 else from)
     && Ordered(hunks[1..], if hunks[0].added == [] then from else hunks[0].newStart + |hunks[0].added|))
  }

  ghost predicate WellFormedFile(f: FileDiff) {
    && Ordered(f.hunks, 1)
    && (forall i :: 0 <= i < |f.preamble| ==> !("+" <= f.preamble[i]) && !("@@" <= f.preamble[i]))
    && (f.deleted ==> forall i :: 0 <= i < |f.hunks| ==> f.hunks[i].added == [])
  }

  ghost predicate WellFormed(files: seq<FileDiff>) {
    && (forall i :: 0 <= i < |files| ==> WellFormedFile(files[i]))
    && (forall i, j :: 0 <= i < j < |files| ==> files[i].name != files[j].name)
  }

  ghost predicate ProperHunk(h: Hunk) {
    ProperLines(h.removed) && ProperLines(h.added) && SingleLine(Chomp(h.note))
  }

  ghost predicate ProperHunks(hunks: seq<Hunk>) {
    forall i :: 0 <= i < |hunks| ==> ProperHunk(hunks[i])
  }

  /** No line has a break inside; only a carriage return may stand at its end. */
  ghost predicate Proper(files: seq<FileDiff>) {
    forall i :: 0 <= i < |files| ==> ProperLines(files[i].preamble) && ProperHunks(files[i].hunks)
  }

  /** The places of `count` lines from `start` on. */
  function Interval(file: Option<string>, start: nat, count: nat): set<Place>
    decreases count
  {
    if count == 0 then {} else {(file, start)} + Interval(file, start + 1, count - 1)
  }

  function AddedByHunks(file: Option<string>, hunks: seq<Hunk>): set<Place> {
    if hunks == [] then {}
    else Interval(file, hunks[0].newStart, |hunks[0].added|) + AddedByHunks(file, hunks[1..])
  }

  /** What the diff really adds. */
  function AddedBy(files: seq<FileDiff>): set<Place> {
    if files == [] then {} else AddedByHunks(Some(files[0].name), files[0].hunks) + AddedBy(files[1..])
  }

  ghost predicate PlainLines(lines: seq<string>) {
    forall i :: 0 <= i < |lines| ==> !("++" <= lines[i])
  }

  ghost predicate PlainHunks(hunks: seq<Hunk>) {
    forall i :: 0 <= i < |hunks| ==> PlainLines(hunks[i].added)
  }

  /** No added line starts with two plus signs. */
  ghost predicate Plain(files: seq<FileDiff>) {
    forall i :: 0 <= i < |files| ==> PlainHunks(files[i].hunks)
  }

  predicate AddsLines(hunks: seq<Hunk>) { exists i :: 0 <= i < |hunks| && hunks[i].added != [] }

  /** A name that the reader takes down as it is. */
  predicate GoodName(name: string) { !NeedsQuotes(name) && Strip(name) == name }

  /** Every file with added lines has such a name. */
  ghost predicate GoodNames(files: seq<FileDiff>) {
    forall i :: 0 <= i < |files| && AddsLines(files[i].hunks) ==> GoodName(files[i].name)
  }

  // ---------------------------------------------------------------- reading headers back

  lemma {:induction false} ReadAppend(r: Reader, a: seq<string>, b: seq<string>)
    ensures ReadLines(r, a + b) == ReadLines(ReadLines(r, a), b)
    decreases |a|
  {
    if a == [] {
      assert a + b == b;
    } else {
      assert (a + b)[1..] == a[1..] + b;
      ReadAppend(ReadLine(r, a[0]), a[1..], b);
    }
  }

  lemma {:induction false} TakeNumeral(d: seq<nat>, rest: string)
    requires forall i :: 0 <= i < |d| ==> d[i] < 10
    requires rest == "" || !IsDigit(rest[0])
    ensures TakeDigits(Numeral(d) + rest) == d
  {
    if d == [] {
      assert Numeral(d) + rest == rest;
    } else {
      assert (Numeral(d) + rest)[1..] == Numeral(d[1..]) + rest;
      TakeNumeral(d[1..], rest);
    }
  }

  lemma NumberReadBack(n: nat, rest: string)
    requires rest == "" || !IsDigit(rest[0])
    ensures var d := TakeDigits(Numeral(DigitsOf(n)) + rest);
            ValueOf(d) == n && d != [] && (Numeral(DigitsOf(n)) + rest)[|d|..] == rest
  {
    TakeNumeral(DigitsOf(n), rest);
    DigitsRoundTrip(n);
  }

  lemma RangeReadBack(start: nat, count: nat, rest: string)
    requires rest == "" || (!IsDigit(rest[0]) && rest[0] != ',')
    ensures RangeAt(PrintRange(start, count) + rest) == Range(start, count)
  {
    hide TakeDigits, ValueOf, DigitsOf;
    if count == 1 {
      assert PrintRange(start, count) + rest == Numeral(DigitsOf(start)) + rest;
      NumberReadBack(start, rest);
    } else {
      var numeral := Numeral(DigitsOf(count)) + rest;
      assert PrintRange(start, count) + rest == Numeral(DigitsOf(start)) + ("," + numeral);
      assert ("," + numeral)[1..] == numeral;
      NumberReadBack(start, "," + numeral);
      NumberReadBack(count, rest);
    }
  }

  lemma {:induction false} FindAfterPlusFree(a: string, rest: string)
    requires forall i :: 0 <= i < |a| ==> a[i] != '+'
    requires |rest| >= 2
    ensures FindRange(a + rest) == FindRange(rest)
  {
    if a == "" {
      assert a + rest == rest;
    } else {
      assert (a + rest)[1..] == a[1..] + rest;
      FindAfterPlusFree(a[1..], rest);
    }
  }

  lemma PlusFreeRange(start: nat, count: nat)
    ensures forall i :: 0 <= i < |PrintRange(start, count)| ==> PrintRange(start, count)[i] != '+'
  {}

  lemma HeaderReadBack(h: Hunk)
    ensures FindRange(HunkHeader(h)) == Some(Range(h.newStart, |h.added|))
  {
    var newRange := PrintRange(h.newStart, |h.added|) + (" @@" + h.note);
    var before := "@@ -" + PrintRange(h.oldStart, |h.removed|) + " ";
    PlusFreeRange(h.oldStart, |h.removed|);
    assert HunkHeader(h) == before + ("+" + newRange);
    FindAfterPlusFree(before, "+" + newRange);
    assert ("+" + newRange)[1..] == newRange;
    assert IsDigit(newRange[0]) by { assert newRange[0] == Numeral(DigitsOf(h.newStart))[0]; }
    RangeReadBack(h.newStart, |h.added|, " @@" + h.note);
  }

  // ---------------------------------------------------------------- the lines of a hunk

  lemma {:induction false} RemovedLinesIgnored(r: Reader, lines: seq<string>)
    ensures ReadLines(r, Prefixed('-', lines)) == r
    decreases |lines|
  {
    if lines != [] {
      var printed := Prefixed('-', lines);
      assert printed[0] == ['-'] + lines[0] && printed[0][0] == '-';
      assert printed[1..] == Prefixed('-', lines[1..]);
      RemovedLinesIgnored(r, lines[1..]);
    }
  }

  lemma MarkerIgnored(r: Reader, present: bool)
    ensures ReadLines(r, Marker(present)) == r
  {
    if present {
      assert Marker(present)[1..] == [] && Marker(present)[0][0] == '\\';
      assert ReadLine(r, Marker(present)[0]) == r;
    }
  }

  lemma AddedLineRead(r: Reader, text: string)
    ensures !("++" <= text) && r.lineno > 0 ==>
              ReadLine(r, "+" + text) == Reader(r.current, r.lineno + 1, r.added + {(r.current, r.lineno)})
    ensures "++" <= text ==> ReadLine(r, "+" + text).added == r.added
  {
    var line := "+" + text;
    assert line[1..] == text && line[0] == '+';
    if "+++" <= line {
      assert line[..3] == "+++";
      assert text[..2] == line[1..3] == "++";
    }
    if "++" <= text {
      assert line[..3] == "+" + text[..2];
    }
  }

  lemma {:induction false} AddedLinesRead(r: Reader, lines: seq<string>)
    requires PlainLines(lines) && (lines != [] ==> r.lineno > 0)
    ensures var r' := ReadLines(r, Prefixed('+', lines));
            r'.current == r.current
            && r'.added == r.added + (if lines == [] then {} else Interval(r.current, r.lineno, |lines|))
    decreases |lines|
  {
    if lines != [] {
      var printed := Prefixed('+', lines);
      assert printed[0] == "+" + lines[0] && printed[1..] == Prefixed('+', lines[1..]);
      AddedLineRead(r, lines[0]);
      AddedLinesRead(ReadLine(r, printed[0]), lines[1..]);
    }
  }

  lemma HeaderRead(r: Reader, h: Hunk)
    ensures ReadLine(r, HunkHeader(h)) == r.(lineno := if |h.added| == 0 then -1 else h.newStart)
  {
    HeaderReadBack(h);
    assert HunkHeader(h)[0] == '@' && HunkHeader(h)[1] == '@' && "@@" <= HunkHeader(h);
  }

  lemma ReadFirst(r: Reader, line: string, lines: seq<string>)
    ensures ReadLines(r, [line] + lines) == ReadLines(ReadLine(r, line), lines)
  {
    assert ([line] + lines)[1..] == lines;
  }

  lemma HunkRead(r: Reader, h: Hunk)
    requires PlainLines(h.added) && (h.added != [] ==> h.newStart > 0)
    ensures var r' := ReadLines(r, PrintHunk(h));
            r'.current == r.current && r'.added == r.added + Interval(r.current, h.newStart, |h.added|)
  {
    assert Interval(r.current, h.newStart, 0) == {};
    hide ReadLines, ReadLine, HunkHeader, Prefixed, Marker, Interval;
    var c := Prefixed('+', h.added) + Marker(h.addedMarker);
    var b := Marker(h.removedMarker) + c;
    var r1 := ReadLine(r, HunkHeader(h));
    HeaderRead(r, h);
    ReadFirst(r, HunkHeader(h), Prefixed('-', h.removed) + b);
    ReadAppend(r1, Prefixed('-', h.removed), b);
    RemovedLinesIgnored(r1, h.removed);
    ReadAppend(r1, Marker(h.removedMarker), c);
    MarkerIgnored(r1, h.removedMarker);
    ReadAppend(r1, Prefixed('+', h.added), Marker(h.addedMarker));
    MarkerIgnored(ReadLines(r1, Prefixed('+', h.added)), h.addedMarker);
    AddedLinesRead(r1, h.added);
  }

  lemma {:induction false} HunksRead(r: Reader, hunks: seq<Hunk>, from: nat)
    requires PlainHunks(hunks) && Ordered(hunks, from) && from > 0
    ensures var r' := ReadLines(r, PrintHunks(hunks));
            r'.current == r.current && r'.added == r.added + AddedByHunks(r.current, hunks)
    decreases |hunks|
  {
    if hunks != [] {
      hide PrintHunk, Interval, PlainLines, ReadLine;
      var h := hunks[0];
      var r' := ReadLines(r, PrintHunk(h));
      HunkRead(r, h);
      HunksRead(r', hunks[1..], if h.added == [] then from else h.newStart + |h.added|);
      ReadAppend(r, PrintHunk(h), PrintHunks(hunks[1..]));
    }
  }

  lemma {:induction false} PreambleIgnored(r: Reader, lines: seq<string>)
    requires forall i :: 0 <= i < |lines| ==> !("+" <= lines[i]) && !("@@" <= lines[i])
    ensures ReadLines(r, lines) == r
    decreases |lines|
  {
    if lines != [] {
      PreambleIgnored(r, lines[1..]);
    }
  }

  /** Under which name the reader books the added lines of a file. */
  function Booked(current: Option<string>, f: FileDiff): Option<string> {
    if f.hunks == [] || f.deleted || NeedsQuotes(f.name) then current else Some(Strip(f.name))
  }

  lemma PrefixedQuotes(name: string)
    ensures NeedsQuotes("b/" + name) <==> NeedsQuotes(name)
    ensures ' ' in "b/" + name <==> ' ' in name
  {
    var s := "b/" + name;
    if NeedsQuotes(name) {
      var i :| 0 <= i < |name| && Special(name[i]);
      assert s[i + 2] == name[i];
    }
    if NeedsQuotes(s) {
      var i :| 0 <= i < |s| && Special(s[i]);
      assert name[i - 2] == s[i];
    }
  }

  lemma UnquotedLabel(name: string)
    requires !NeedsQuotes(name)
    ensures exists tail :: Label("b/" + name) == "b/" + tail && Strip(tail) == Strip(name)
  {
    PrefixedQuotes(name);
    if ' ' in name {
      StripAppend(name, '\t');
      assert "b/" + name + "\t" == "b/" + (name + "\t");
    } else {
      assert "b/" + name + "" == "b/" + name;
    }
  }

  lemma QuotedLabel(name: string)
    requires NeedsQuotes(name)
    ensures |Label("b/" + name)| > 0 && Label("b/" + name)[0] == '\"'
  {
    hide QuoteAll;
    PrefixedQuotes(name);
  }

  lemma PlusLineRead(r: Reader, shown: string)
    ensures ReadLine(r, "+++ " + shown)
            == if "b/" <= shown then r.(current := Some(Strip(shown[2..]))) else r
  {
    hide Strip;
    var line := "+++ " + shown;
    assert line[..4] == "+++ " && "+++" <= line && line[0] == '+';
    if "b/" <= shown {
      assert line[4] == 'b' && line[5] == '/' && "+++ b/" <= line && line[6..] == shown[2..];
    }
  }

  lemma ToLineRead(r: Reader, f: FileDiff)
    requires f.hunks != []
    ensures ReadLine(r, ToLine(f)) == r.(current := Booked(r.current, f))
  {
    hide Label, Strip, NeedsQuotes, ReadLine;
    if f.deleted {
      PlusLineRead(r, "/dev/null");
      assert "/dev/null"[0] == '/' && !("b/" <= "/dev/null");
    } else if NeedsQuotes(f.name) {
      QuotedLabel(f.name);
      PlusLineRead(r, Label("b/" + f.name));
    } else {
      UnquotedLabel(f.name);
      var tail :| Label("b/" + f.name) == "b/" + tail && Strip(tail) == Strip(f.name);
      PlusLineRead(r, Label("b/" + f.name));
      assert ("b/" + tail)[2..] == tail;
    }
  }

  lemma NamesRead(r: Reader, f: FileDiff)
    ensures ReadLines(r, NameLines(f)) == r.(current := Booked(r.current, f))
  {
    if f.hunks != [] {
      hide ToLine, FromLine, Booked;
      ToLineRead(r, f);
      FromLineRead(r, f);
      ReadFirst(r, FromLine(f), [ToLine(f)]);
      ReadFirst(r, ToLine(f), []);
      assert [FromLine(f)] + [ToLine(f)] == NameLines(f) && [ToLine(f)] + [] == [ToLine(f)];
    }
  }

  lemma FromLineRead(r: Reader, f: FileDiff)
    ensures ReadLine(r, FromLine(f)) == r
  {
    hide Label;
    assert FromLine(f)[0] == '-';
  }

  lemma FileRead(r: Reader, f: FileDiff)
    requires WellFormedFile(f) && PlainHunks(f.hunks)
    ensures var r' := ReadLines(r, PrintFile(f)); var booked := Booked(r.current, f);
            r'.current == booked && r'.added == r.added + AddedByHunks(booked, f.hunks)
  {
    hide NameLines, PrintHunks, ReadLines, Booked, AddedByHunks, PlainHunks;
    ReadAppend(r, f.preamble, NameLines(f) + PrintHunks(f.hunks));
    PreambleIgnored(r, f.preamble);
    ReadAppend(r, NameLines(f), PrintHunks(f.hunks));
    NamesRead(r, f);
    HunksRead(ReadLines(r, NameLines(f)), f.hunks, 1);
  }

  /** What the reader makes of a diff, file by file. */
  function BookedBy(current: Option<string>, files: seq<FileDiff>): set<Place>
    decreases |files|
  {
    if files == [] then {}
    else
      var booked := Booked(current, files[0]);
      AddedByHunks(booked, files[0].hunks) + BookedBy(booked, files[1..])
  }

  lemma FilesTail(files: seq<FileDiff>)
    requires files != [] && WellFormed(files) && Plain(files)
    ensures WellFormed(files[1..]) && Plain(files[1..])
    ensures WellFormedFile(files[0]) && PlainHunks(files[0].hunks)
  {
    hide WellFormedFile, PlainHunks;
    assert forall i :: 0 <= i < |files[1..]| ==> files[1..][i] == files[i + 1];
  }

  lemma {:induction false} FilesRead(r: Reader, files: seq<FileDiff>)
    requires WellFormed(files) && Plain(files)
    ensures ReadLines(r, PrintDiff(files)).added == r.added + BookedBy(r.current, files)
    decreases |files|
  {
    if files == [] {
      assert r.added + {} == r.added;
    } else {
      hide PrintFile, Booked, AddedByHunks, WellFormed, Plain, WellFormedFile, PlainHunks, ReadLines;
      FilesTail(files);
      ReadAppend(r, PrintFile(files[0]), PrintDiff(files[1..]));
      FileRead(r, files[0]);
      FilesRead(ReadLines(r, PrintFile(files[0])), files[1..]);
    }
  }

  // ---------------------------------------------------------------- the text of a diff

  lemma {:induction false} TakeDigitsReturn(s: string)
    ensures TakeDigits(s + ['\r']) == TakeDigits(s)
  {
    if s == "" {
      assert s + ['\r'] == ['\r'];
    } else {
      assert (s + ['\r'])[1..] == s[1..] + ['\r'];
      TakeDigitsReturn(s[1..]);
    }
  }

  lemma RangeAtReturn(s: string)
    ensures RangeAt(s + ['\r']) == RangeAt(s)
  {
    hide TakeDigits, ValueOf;
    TakeDigitsReturn(s);
    var n := |TakeDigits(s)|;
    assert (s + ['\r'])[n..] == s[n..] + ['\r'];
    if s[n..] != "" {
      TakeDigitsReturn(s[n..][1..]);
      assert (s[n..] + ['\r'])[1..] == s[n..][1..] + ['\r'];
    }
  }

  lemma {:induction false} FindRangeReturn(s: string)
    ensures FindRange(s + ['\r']) == FindRange(s)
  {
    hide RangeAt;
    if s != "" {
      assert (s + ['\r'])[1..] == s[1..] + ['\r'];
      RangeAtReturn(s[1..]);
      FindRangeReturn(s[1..]);
    }
  }

  lemma PrefixReturn(p: string, line: string)
    requires p != "" && p[|p| - 1] != '\r'
    ensures p <= line + ['\r'] <==> p <= line
  {
    var longer := line + ['\r'];
    if p <= longer {
      assert p[|p| - 1] == longer[|p| - 1];
      assert p == longer[..|p|] == line[..|p|];
    }
    if p <= line { assert longer[..|p|] == line[..|p|]; }
  }

  /** A carriage return at the end of a line is not seen. */
  lemma ReturnIgnored(r: Reader, line: string)
    ensures ReadLine(r, Chomp(line)) == ReadLine(r, line)
  {
    hide FindRange, Strip;
    var front := Chomp(line);
    if front != line {
      assert line == front + ['\r'];
      PrefixReturn("+++ b/", front);
      PrefixReturn("@@", front);
      PrefixReturn("+", front);
      PrefixReturn("+++", front);
      FindRangeReturn(front);
      if "+++ b/" <= front {
        assert line[6..] == front[6..] + ['\r'];
        StripAppend(front[6..], '\r');
      }
    }
  }

  lemma {:induction false} ReturnsIgnored(r: Reader, lines: seq<string>)
    ensures ReadLines(r, ChompAll(lines)) == ReadLines(r, lines)
    decreases |lines|
  {
    hide ReadLine, Chomp;
    if lines != [] {
      assert ChompAll(lines)[1..] == ChompAll(lines[1..]);
      ReturnIgnored(r, lines[0]);
      ReturnsIgnored(ReadLine(r, lines[0]), lines[1..]);
    }
  }

  lemma ProperJoin(a: seq<string>, b: seq<string>)
    requires ProperLines(a) && ProperLines(b)
    ensures ProperLines(a + b)
  {
    hide SingleLine, Chomp;
  }

  lemma SingleIsProper(line: string)
    requires SingleLine(line)
    ensures ProperLines([line])
  {
    ChompSingle(line);
  }

  /** A line that ends like a proper one is proper. */
  lemma PrefixIsProper(front: string, line: string)
    requires front != "" && SingleLine(front) && SingleLine(Chomp(line))
    ensures ProperLines([front + line])
  {
    assert !IsBreak(front[|front| - 1]);
    if line != "" {
      assert (front + line)[|front + line| - 1] == line[|line| - 1];
      if Chomp(line) != line { assert (front + line)[..|front + line| - 1] == front + Chomp(line); }
    }
    assert Chomp(front + line) == front + Chomp(line);
  }

  lemma {:induction false} PrefixedProper(mark: char, lines: seq<string>)
    requires ProperLines(lines) && !IsBreak(mark)
    ensures ProperLines(Prefixed(mark, lines))
  {
    if lines != [] {
      assert SingleLine([mark]);
      hide SingleLine, Chomp;
      assert ProperLines(lines[1..]) by { assert forall i :: 0 <= i < |lines[1..]| ==> lines[1..][i] == lines[i + 1]; }
      PrefixedProper(mark, lines[1..]);
      PrefixIsProper([mark], lines[0]);
      ProperJoin([[mark] + lines[0]], Prefixed(mark, lines[1..]));
    }
  }

  lemma MarkerProper(present: bool)
    ensures ProperLines(Marker(present))
  {
    if present { SingleIsProper(Marker(present)[0]); }
  }

  lemma RangeSingle(start: nat, count: nat)
    ensures SingleLine(PrintRange(start, count))
  {}

  lemma HeaderProper(h: Hunk)
    requires SingleLine(Chomp(h.note))
    ensures ProperLines([HunkHeader(h)])
  {
    hide PrintRange, Chomp;
    RangeSingle(h.oldStart, |h.removed|);
    RangeSingle(h.newStart, |h.added|);
    var front := "@@ -" + PrintRange(h.oldStart, |h.removed|) + (" +" + PrintRange(h.newStart, |h.added|)) + " @@";
    assert HunkHeader(h) == front + h.note;
    PrefixIsProper(front, h.note);
  }

  lemma HunkProper(h: Hunk)
    requires ProperHunk(h)
    ensures ProperLines(PrintHunk(h))
  {
    hide HunkHeader, Prefixed, Marker, ProperLines, SingleLine, Chomp;
    assert !IsBreak('-') && !IsBreak('+');
    HeaderProper(h);
    PrefixedProper('-', h.removed);
    PrefixedProper('+', h.added);
    MarkerProper(h.removedMarker);
    MarkerProper(h.addedMarker);
    var c := Prefixed('+', h.added) + Marker(h.addedMarker);
    ProperJoin(Prefixed('+', h.added), Marker(h.addedMarker));
    ProperJoin(Marker(h.removedMarker), c);
    ProperJoin(Prefixed('-', h.removed), Marker(h.removedMarker) + c);
    ProperJoin([HunkHeader(h)], Prefixed('-', h.removed) + (Marker(h.removedMarker) + c));
  }

  lemma {:induction false} HunksProper(hunks: seq<Hunk>)
    requires ProperHunks(hunks)
    ensures ProperLines(PrintHunks(hunks))
  {
    if hunks != [] {
      hide ProperHunk, PrintHunk, SingleLine, Chomp;
      assert ProperHunks(hunks[1..]) by { assert forall i :: 0 <= i < |hunks[1..]| ==> hunks[1..][i] == hunks[i + 1]; }
      HunkProper(hunks[0]);
      HunksProper(hunks[1..]);
      ProperJoin(PrintHunk(hunks[0]), PrintHunks(hunks[1..]));
    }
  }

  lemma {:induction false} OctalSingle(b: Utf8.Bytes)
    ensures SingleLine(OctalAll(b))
  {
    if b != [] { OctalSingle(b[1..]); }
  }

  lemma QuoteCharSingle(c: char)
    ensures SingleLine(QuoteChar(c))
  {
    hide OctalAll;
    OctalSingle(Utf8.Encode(c));
  }

  lemma {:induction false} QuoteAllSingle(s: string)
    ensures SingleLine(QuoteAll(s))
  {
    hide QuoteChar;
    if s != "" {
      QuoteCharSingle(s[0]);
      QuoteAllSingle(s[1..]);
    }
  }

  lemma LabelSingle(s: string)
    ensures SingleLine(Label(s))
  {
    hide QuoteAll;
    if NeedsQuotes(s) {
      QuoteAllSingle(s);
    } else {
      forall i | 0 <= i < |s| ensures !IsBreak(s[i]) { assert !Special(s[i]); }
    }
  }

  lemma NamesProper(f: FileDiff)
    ensures ProperLines(NameLines(f))
  {
    assert ProperLines([]);
    hide Label, ProperLines;
    if f.hunks != [] {
      if f.fromName.Some? { LabelSingle("a/" + f.fromName.value); }
      LabelSingle("b/" + f.name);
      SingleIsProper(FromLine(f));
      SingleIsProper(ToLine(f));
      ProperJoin([FromLine(f)], [ToLine(f)]);
    }
  }

  lemma {:induction false} DiffProper(files: seq<FileDiff>)
    requires Proper(files)
    ensures ProperLines(PrintDiff(files))
  {
    if files != [] {
      hide ProperLines, ProperHunks, NameLines, PrintHunks;
      var f := files[0];
      assert Proper(files[1..]) by { assert forall i :: 0 <= i < |files[1..]| ==> files[1..][i] == files[i + 1]; }
      DiffProper(files[1..]);
      NamesProper(f);
      HunksProper(f.hunks);
      ProperJoin(NameLines(f), PrintHunks(f.hunks));
      ProperJoin(f.preamble, NameLines(f) + PrintHunks(f.hunks));
      ProperJoin(PrintFile(f), PrintDiff(files[1..]));
    } else {
      assert ProperLines([]);
    }
  }

  /** Reading the text of a diff is reading its printed lines. */
  lemma TextRead(files: seq<FileDiff>)
    requires Proper(files)
    ensures Read(DiffText(files)) == ReadLines(START, PrintDiff(files)).added
  {
    hide ReadLines, SplitLines, Unlines, Proper, ProperLines, PrintDiff;
    DiffProper(files);
    SplitUnlines(PrintDiff(files));
    ReturnsIgnored(START, PrintDiff(files));
  }

  /** Without added texts that start with two plus signs, the reader books the added lines of
      each file under that file's name, or under the one before. */
  lemma DiffRead(files: seq<FileDiff>)
    requires WellFormed(files) && Proper(files) && Plain(files)
    ensures Read(DiffText(files)) == BookedBy(None, files)
  {
    hide Read, ReadLines, PrintDiff, BookedBy, WellFormed, Proper, Plain;
    TextRead(files);
    FilesRead(START, files);
    assert START.added + BookedBy(None, files) == BookedBy(None, files);
  }

  // ---------------------------------------------------------------- names

  lemma {:induction false} NothingAdded(file: Option<string>, hunks: seq<Hunk>)
    requires !AddsLines(hunks)
    ensures AddedByHunks(file, hunks) == {}
  {
    if hunks != [] {
      assert hunks[0].added == [];
      forall i | 0 <= i < |hunks[1..]| ensures hunks[1..][i].added == [] { assert hunks[i + 1].added == []; }
      NothingAdded(file, hunks[1..]);
    }
  }

  lemma {:induction false} SomethingAdded(file: Option<string>, hunks: seq<Hunk>)
    requires AddsLines(hunks)
    ensures exists p :: p in AddedByHunks(file, hunks) && p.0 == file
  {
    var h := hunks[0];
    if h.added != [] {
      assert (file, h.newStart) in AddedByHunks(file, hunks);
    } else {
      var i :| 0 <= i < |hunks| && hunks[i].added != [];
      assert hunks[1..][i - 1] == hunks[i];
      SomethingAdded(file, hunks[1..]);
      var p :| p in AddedByHunks(file, hunks[1..]) && p.0 == file;
      assert p in AddedByHunks(file, hunks);
    }
  }

  lemma {:induction false} GoodNamesBooked(current: Option<string>, files: seq<FileDiff>)
    requires GoodNames(files) && WellFormed(files)
    ensures BookedBy(current, files) == AddedBy(files)
    decreases |files|
  {
    if files != [] {
      hide NeedsQuotes, Strip, AddedByHunks, Ordered;
      var f := files[0];
      if AddsLines(f.hunks) {
        assert GoodName(f.name) && f.hunks != [] && !f.deleted;
        assert Booked(current, f) == Some(f.name);
      } else {
        NothingAdded(Booked(current, f), f.hunks);
        NothingAdded(Some(f.name), f.hunks);
      }
      GoodNamesTail(files);
      GoodNamesBooked(Booked(current, f), files[1..]);
    }
  }

  lemma GoodNamesTail(files: seq<FileDiff>)
    requires files != []
    ensures GoodNames(files) <==> (AddsLines(files[0].hunks) ==> GoodName(files[0].name)) && GoodNames(files[1..])
    ensures WellFormed(files) ==> WellFormed(files[1..])
  {
    hide AddsLines, GoodName, WellFormedFile;
    var tail := files[1..];
    assert forall i :: 0 <= i < |tail| ==> tail[i] == files[i + 1];
    if GoodNames(tail) && (AddsLines(files[0].hunks) ==> GoodName(files[0].name)) {
      forall i | 0 <= i < |files| && AddsLines(files[i].hunks) ensures GoodName(files[i].name) {
        if i > 0 { assert tail[i - 1] == files[i]; }
      }
    }
  }

  /** No name at all, or one the reader can have taken down. */
  predicate GoodFile(file: Option<string>) { file.None? || GoodName(file.value) }

  lemma PlainCharacter(name: string, c: char)
    requires !NeedsQuotes(name) && c in name
    ensures !Special(c)
  {
    var k :| 0 <= k < |name| && name[k] == c;
  }

  lemma StrippedIsGood(name: string)
    requires !NeedsQuotes(name)
    ensures GoodName(Strip(name))
  {
    var a, b := StripIsSlice(name);
    var s := Strip(name);
    forall i | 0 <= i < |s| ensures !Special(s[i]) { PlainCharacter(name, s[i]); }
    StripTrimmed(s);
  }

  lemma {:induction false} HunksBookedUnder(file: Option<string>, hunks: seq<Hunk>)
    ensures forall p :: p in AddedByHunks(file, hunks) ==> p.0 == file
  {
    if hunks != [] {
      IntervalFacts(file, hunks[0].newStart, |hunks[0].added|);
      HunksBookedUnder(file, hunks[1..]);
    }
  }

  lemma {:induction false} OnlyGoodFilesBooked(current: Option<string>, files: seq<FileDiff>)
    requires GoodFile(current)
    ensures forall p :: p in BookedBy(current, files) ==> GoodFile(p.0)
    decreases |files|
  {
    if files != [] {
      hide AddedByHunks, GoodName, NeedsQuotes, Strip;
      var booked := Booked(current, files[0]);
      if booked != current { StrippedIsGood(files[0].name); }
      HunksBookedUnder(booked, files[0].hunks);
      OnlyGoodFilesBooked(booked, files[1..]);
    }
  }

  lemma {:induction false} BadNameAdded(files: seq<FileDiff>)
    requires !GoodNames(files)
    ensures exists p :: p in AddedBy(files) && !GoodFile(p.0)
  {
    hide AddedByHunks, AddsLines, GoodName;
    GoodNamesTail(files);
    var f := files[0];
    if AddsLines(f.hunks) && !GoodName(f.name) {
      SomethingAdded(Some(f.name), f.hunks);
      var p :| p in AddedByHunks(Some(f.name), f.hunks) && p.0 == Some(f.name);
      assert p in AddedBy(files);
    } else {
      BadNameAdded(files[1..]);
      var p :| p in AddedBy(files[1..]) && !GoodFile(p.0);
      assert p in AddedBy(files);
    }
  }

  // ---------------------------------------------------------------- counting

  /** The lines that can add a place. */
  function AddingLines(lines: seq<string>): nat {
    if lines == [] then 0
    else (if "+" <= lines[0] && !("+++" <= lines[0]) then 1 else 0) + AddingLines(lines[1..])
  }

  lemma {:induction false} ReadingAddsAtMost(r: Reader, lines: seq<string>)
    ensures |ReadLines(r, lines).added| <= |r.added| + AddingLines(lines)
    decreases |lines|
  {
    if lines != [] { ReadingAddsAtMost(ReadLine(r, lines[0]), lines[1..]); }
  }

  lemma {:induction false} AddingAppend(a: seq<string>, b: seq<string>)
    ensures AddingLines(a + b) == AddingLines(a) + AddingLines(b)
  {
    if a == [] {
      assert a + b == b;
    } else {
      assert (a + b)[1..] == a[1..] + b;
      AddingAppend(a[1..], b);
    }
  }

  lemma {:induction false} AddingRemoved(lines: seq<string>)
    ensures AddingLines(Prefixed('-', lines)) == 0
  {
    if lines != [] {
      assert Prefixed('-', lines)[0][0] == '-';
      AddingRemoved(lines[1..]);
    }
  }

  lemma {:induction false} AddingAdded(lines: seq<string>)
    ensures AddingLines(Prefixed('+', lines)) <= |lines|
    ensures AddingLines(Prefixed('+', lines)) == |lines| ==> PlainLines(lines)
  {
    if lines != [] {
      AddingAdded(lines[1..]);
      var line := "+" + lines[0];
      assert Prefixed('+', lines)[0] == line;
      if "++" <= lines[0] { assert line[..3] == "+" + lines[0][..2]; }
    }
  }

  function CountHunks(hunks: seq<Hunk>): nat {
    if hunks == [] then 0 else |hunks[0].added| + CountHunks(hunks[1..])
  }

  function CountFiles(files: seq<FileDiff>): nat {
    if files == [] then 0 else CountHunks(files[0].hunks) + CountFiles(files[1..])
  }

  lemma AddingHunk(h: Hunk)
    ensures AddingLines(PrintHunk(h)) == AddingLines(Prefixed('+', h.added))
  {
    var c := Prefixed('+', h.added) + Marker(h.addedMarker);
    var b := Marker(h.removedMarker) + c;
    AddingAppend([HunkHeader(h)], Prefixed('-', h.removed) + b);
    assert HunkHeader(h)[0] == '@';
    AddingAppend(Prefixed('-', h.removed), b);
    AddingRemoved(h.removed);
    AddingAppend(Marker(h.removedMarker), c);
    AddingAppend(Prefixed('+', h.added), Marker(h.addedMarker));
    assert forall m: bool :: AddingLines(Marker(m)) == 0;
  }

  lemma {:induction false} AddingHunks(hunks: seq<Hunk>)
    ensures AddingLines(PrintHunks(hunks)) <= CountHunks(hunks)
    ensures AddingLines(PrintHunks(hunks)) == CountHunks(hunks) ==> PlainHunks(hunks)
  {
    if hunks != [] {
      AddingAppend(PrintHunk(hunks[0]), PrintHunks(hunks[1..]));
      AddingHunk(hunks[0]);
      AddingAdded(hunks[0].added);
      AddingHunks(hunks[1..]);
    }
  }

  lemma {:induction false} AddingPreamble(lines: seq<string>)
    requires forall i :: 0 <= i < |lines| ==> !("+" <= lines[i])
    ensures AddingLines(lines) == 0
  {
    if lines != [] { AddingPreamble(lines[1..]); }
  }

  lemma AddingNames(f: FileDiff)
    ensures AddingLines(NameLines(f)) == 0
  {
    hide Label;
    var none: seq<string> := [];
    if f.hunks != [] {
      assert FromLine(f)[0] == '-' && ToLine(f)[..4] == "+++ " && "+++" <= ToLine(f);
      assert NameLines(f)[1..] == [ToLine(f)] && [ToLine(f)][1..] == none;
      assert AddingLines([ToLine(f)]) == AddingLines(none) == 0;
    }
  }

  lemma AddingFile(f: FileDiff)
    requires WellFormedFile(f)
    ensures AddingLines(PrintFile(f)) == AddingLines(PrintHunks(f.hunks))
  {
    hide NameLines, PrintHunks, AddingLines;
    AddingAppend(f.preamble, NameLines(f) + PrintHunks(f.hunks));
    AddingPreamble(f.preamble);
    AddingAppend(NameLines(f), PrintHunks(f.hunks));
    AddingNames(f);
  }

  lemma PlainFirst(files: seq<FileDiff>)
    requires files != [] && PlainHunks(files[0].hunks) && Plain(files[1..])
    ensures Plain(files)
  {
    hide PlainHunks;
    forall i | 0 <= i < |files| ensures PlainHunks(files[i].hunks) {
      if i > 0 { assert files[1..][i - 1] == files[i]; }
    }
  }

  lemma {:induction false} AddingDiff(files: seq<FileDiff>)
    requires forall i :: 0 <= i < |files| ==> WellFormedFile(files[i])
    ensures AddingLines(PrintDiff(files)) <= CountFiles(files)
    ensures AddingLines(PrintDiff(files)) == CountFiles(files) ==> Plain(files)
  {
    if files != [] {
      hide AddingLines, PrintFile, PrintHunks, CountHunks, PlainHunks, WellFormedFile;
      var tail := files[1..];
      assert forall i :: 0 <= i < |tail| ==> tail[i] == files[i + 1];
      AddingAppend(PrintFile(files[0]), PrintDiff(tail));
      AddingFile(files[0]);
      AddingHunks(files[0].hunks);
      AddingDiff(tail);
      if Plain(tail) && PlainHunks(files[0].hunks) { PlainFirst(files); }
    }
  }

  lemma {:induction false} IntervalFacts(file: Option<string>, start: nat, count: nat)
    ensures |Interval(file, start, count)| == count
    ensures forall p :: p in Interval(file, start, count) ==> p.0 == file && start <= p.1 < start + count
    decreases count
  {
    if count > 0 { IntervalFacts(file, start + 1, count - 1); }
  }

  lemma {:induction false} HunkPlaces(file: Option<string>, hunks: seq<Hunk>, from: nat)
    requires Ordered(hunks, from)
    ensures |AddedByHunks(file, hunks)| == CountHunks(hunks)
    ensures forall p :: p in AddedByHunks(file, hunks) ==> p.0 == file && p.1 >= from
    decreases |hunks|
  {
    if hunks != [] {
      var h := hunks[0];
      IntervalFacts(file, h.newStart, |h.added|);
      HunkPlaces(file, hunks[1..], if h.added == [] then from else h.newStart + |h.added|);
      assert Interval(file, h.newStart, |h.added|) !! AddedByHunks(file, hunks[1..]);
    }
  }

  lemma {:induction false} DiffPlaces(files: seq<FileDiff>)
    requires WellFormed(files)
    ensures |AddedBy(files)| == CountFiles(files)
    ensures forall p :: p in AddedBy(files) ==> exists i :: 0 <= i < |files| && p.0 == Some(files[i].name)
  {
    hide AddedByHunks, CountHunks;
    if files != [] {
      HunkPlaces(Some(files[0].name), files[0].hunks, 1);
      DiffPlaces(files[1..]);
      forall p | p in AddedBy(files[1..]) ensures exists i :: 1 <= i < |files| && p.0 == Some(files[i].name) {
        var i :| 0 <= i < |files[1..]| && p.0 == Some(files[1..][i].name);
        assert p.0 == Some(files[i + 1].name);
      }
      assert AddedByHunks(Some(files[0].name), files[0].hunks) !! AddedBy(files[1..]);
    }
  }

  lemma PlainDiffExactIff(files: seq<FileDiff>)
    requires WellFormed(files) && Proper(files) && Plain(files)
    ensures Read(DiffText(files)) == AddedBy(files) <==> GoodNames(files)
  {
    hide Read, DiffText, BookedBy, AddedBy, GoodNames, WellFormed, Proper, Plain;
    DiffRead(files);
    if GoodNames(files) {
      GoodNamesBooked(None, files);
    } else {
      OnlyGoodFilesBooked(None, files);
      BadNameAdded(files);
    }
  }

  /** For every well-formed zero-context diff without breaks inside its lines: the reader returns
      exactly the added lines if and only if no added line starts with `++` and every file with
      added lines has a name that git prints unquoted and that has no space at either end. A line
      starting with `++` is taken for a file header, is not counted, and shifts the numbers of the
      lines after it; the lines of a quoted file are booked under the file before it. */
  lemma ReadsExactlyAddedIff(files: seq<FileDiff>)
    requires WellFormed(files) && Proper(files)
    ensures Read(DiffText(files)) == AddedBy(files) <==> Plain(files) && GoodNames(files)
  {
    hide Read, ReadLines, DiffText, PrintDiff, AddedBy, GoodNames, AddingLines, Proper;
    if Plain(files) {
      PlainDiffExactIff(files);
    } else {
      TextRead(files);
      ReadingAddsAtMost(START, PrintDiff(files));
      AddingDiff(files);
      DiffPlaces(files);
    }
  }

  /** Such a diff: after `a.py`, a file with a Chinese name adds one line, which the reader
      books under `a.py`. */
  lemma QuotedFileIsMissed(text: string, line: nat)
    requires !("++" <= text) && SingleLine(text) && line > 0
    ensures var hunk := Hunk(0, line, [], [text], "", false, false);
            var files := [FileDiff(None, "a.py", false, [], [hunk]), FileDiff(None, "中.py", false, [], [hunk])];
            && Read(DiffText(files)) == {(Some("a.py"), line)}
            && (Some("中.py"), line) in AddedBy(files)
  {
    var hunk := Hunk(0, line, [], [text], "", false, false);
    var a, b := FileDiff(None, "a.py", false, [], [hunk]), FileDiff(None, "中.py", false, [], [hunk]);
    var files := [a, b];
    QuotedNames();
    OneHunk(Some("a.py"), hunk);
    OneHunk(Some("中.py"), hunk);
    assert Plain(files) by { assert PlainLines([text]) && PlainHunks([hunk]); }
    assert Ordered([hunk], 1) by { assert |[hunk][1..]| == 0; }
    assert Proper(files) by { ChompSingle(text); }
    DiffRead(files);
    assert files[1..] == [b] && |[b][1..]| == 0;
    assert BookedBy(Some("a.py"), [b][1..]) == {} && AddedBy([b][1..]) == {};
    assert BookedBy(Some("a.py"), [b]) == {(Some("a.py"), line)};
  }

  lemma BrokenLineSplit(x: string, c: char, y: string)
    requires SingleLine(x) && SingleLine(y) && IsBreak(c) && c != '\n'
    ensures SplitLines(Unlines(["+" + (x + [c] + "+" + y)])) == ["+" + x, "+" + y]
  {
    assert SingleLine("+" + x) && SingleLine("+" + y);
    var last, rest := "+" + (x + [c] + "+" + y), "+" + y + "\n";
    assert |[last][1..]| == 0;
    assert Unlines([last][1..]) == "";
    assert Unlines([last]) == "+" + x + [c] + rest;
    hide SplitLines, SingleLine, Unlines;
    SplitNothing();
    assert rest == "+" + y + "\n" + "";
    SplitFirst("+" + y, "\n", "");
    SplitFirst("+" + x, [c], rest);
  }

  lemma SplitAfter(line: string, lines: seq<string>)
    requires SingleLine(line)
    ensures SplitLines(Unlines([line] + lines)) == [line] + SplitLines(Unlines(lines))
  {
    hide SplitLines, SingleLine;
    assert ([line] + lines)[1..] == lines;
    SplitFirst(line, "\n", Unlines(lines));
  }

  /** The four lines of a diff that adds one line, cut where that line has a break inside. */
  lemma BrokenTextSplit(a: string, b: string, h: string, x: string, c: char, y: string)
    requires SingleLine(a) && SingleLine(b) && SingleLine(h) && SingleLine(x) && SingleLine(y)
    requires IsBreak(c) && c != '\n'
    ensures SplitLines(Unlines([a, b, h, "+" + (x + [c] + "+" + y)])) == [a, b, h, "+" + x, "+" + y]
  {
    hide SplitLines, SingleLine, Unlines;
    var last := "+" + (x + [c] + "+" + y);
    BrokenLineSplit(x, c, y);
    SplitAfter(h, [last]);
    SplitAfter(b, [h] + [last]);
    SplitAfter(a, [b] + ([h] + [last]));
    assert [a] + ([b] + ([h] + [last])) == [a, b, h, last];
  }

  /** Breaks inside a line must be left out: one added line with a form feed, say, in front of a
      plus sign counts as two. */
  lemma BreakInsideCountsTwice(x: string, c: char, y: string, line: nat)
    requires SingleLine(x) && SingleLine(y) && !("++" <= x) && !("++" <= y) && line > 0
    requires IsBreak(c) && c != '\n'
    ensures var hunk := Hunk(0, line, [], [x + [c] + "+" + y], "", false, false);
            var files := [FileDiff(None, "a.py", false, [], [hunk])];
            && Read(DiffText(files)) == {(Some("a.py"), line), (Some("a.py"), line + 1)}
            && AddedBy(files) == {(Some("a.py"), line)}
  {
    hide ReadLine, Label, SplitLines, Unlines, HunkHeader, Strip, SingleLine;
    var text := x + [c] + "+" + y;
    var hunk := Hunk(0, line, [], [text], "", false, false);
    var f := FileDiff(None, "a.py", false, [], [hunk]);
    QuotedNames();
    OneHunk(Some("a.py"), hunk);
    assert |[f][1..]| == 0;
    assert AddedBy([f][1..]) == {};
    OneFileLines(f, hunk);
    HeaderSingle(hunk);
    NewNameSingle(f);
    BrokenTextSplit(FromLine(f), ToLine(f), HunkHeader(hunk), x, c, y);
    TwoLinesRead(f, hunk, x, y);
  }

  lemma NewNameSingle(f: FileDiff)
    requires f.fromName == None && !f.deleted
    ensures SingleLine(FromLine(f)) && SingleLine(ToLine(f))
  {
    hide Label;
    LabelSingle("b/" + f.name);
  }

  lemma HeaderSingle(h: Hunk)
    requires h.note == ""
    ensures SingleLine(HunkHeader(h))
  {
    hide PrintRange;
    RangeSingle(h.oldStart, |h.removed|);
    RangeSingle(h.newStart, |h.added|);
  }

  lemma OneFileLines(f: FileDiff, h: Hunk)
    requires f.preamble == [] && f.hunks == [h] && h.removed == [] && |h.added| == 1
    requires !h.removedMarker && !h.addedMarker
    ensures PrintDiff([f]) == [FromLine(f), ToLine(f), HunkHeader(h), "+" + h.added[0]]
  {
    hide FromLine, ToLine, HunkHeader;
    assert |[f][1..]| == 0 && |[h][1..]| == 0 && |h.added[1..]| == 0;
    assert PrintDiff([f][1..]) == [] && PrintHunks([h][1..]) == [] && Prefixed('+', h.added[1..]) == [];
    assert ['+'] + h.added[0] == "+" + h.added[0];
    assert PrintHunk(h) == [HunkHeader(h), "+" + h.added[0]];
  }

  lemma ReadNone(r: Reader)
    ensures ReadLines(r, []) == r
  {}

  lemma TwoLinesRead(f: FileDiff, h: Hunk, x: string, y: string)
    requires !("++" <= x) && !("++" <= y) && h.newStart > 0 && |h.added| == 1
    requires f.hunks != [] && !f.deleted && !NeedsQuotes(f.name) && Strip(f.name) == f.name
    ensures ReadLines(START, [FromLine(f), ToLine(f), HunkHeader(h), "+" + x, "+" + y]).added
            == {(Some(f.name), h.newStart), (Some(f.name), h.newStart + 1)}
  {
    hide ReadLine, FromLine, ToLine, HunkHeader, ReadLines, NeedsQuotes, Strip;
    var tail := ["+" + x, "+" + y];
    var r := ReadLines(START, NameLines(f));
    NamesRead(START, f);
    HeaderRead(r, h);
    var r1 := ReadLine(r, HunkHeader(h));
    AddedLineRead(r1, x);
    AddedLineRead(ReadLine(r1, "+" + x), y);
    assert NameLines(f) + ([HunkHeader(h)] + tail) == [FromLine(f), ToLine(f), HunkHeader(h), "+" + x, "+" + y];
    ReadAppend(START, NameLines(f), [HunkHeader(h)] + tail);
    ReadFirst(r, HunkHeader(h), tail);
    assert ["+" + x] + ["+" + y] == tail && ["+" + y] + [] == ["+" + y];
    ReadFirst(r1, "+" + x, ["+" + y]);
    ReadFirst(ReadLine(r1, "+" + x), "+" + y, []);
    ReadNone(ReadLine(ReadLine(r1, "+" + x), "+" + y));
  }

  lemma QuotedNames()
    ensures !NeedsQuotes("a.py") && Strip("a.py") == "a.py" && NeedsQuotes("中.py")
  {
    StripTrimmed("a.py");
    assert Special("中.py"[0]);
  }

  lemma OneHunk(file: Option<string>, h: Hunk)
    requires |h.added| == 1
    ensures AddedByHunks(file, [h]) == {(file, h.newStart)}
  {
    assert |[h][1..]| == 0;
    assert AddedByHunks(file, [h][1..]) == {};
    assert Interval(file, h.newStart + 1, 0) == {};
  }
}
