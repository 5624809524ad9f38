/**
 The parsing half of scripts/sync_update_log.py: `parse_changelog` reads the changelog line by
 line and returns the releases in ascending order of version.
 */
module Changelog {
  import opened Text
  import opened ChangelogText
  import Printer = UpdateLogPrinter

  type Entry = Printer.Entry

  const MAX_FEATURES: nat := 12
  const DEFAULT_FEATURE: string := "本次更新"
  const META_SECTIONS: seq<string> := ["验证", "自测", "备注", "Verification", "Notes"]

  datatype Section = Section(version: string, date: string, description: string, features: seq<string>)

  /** The variables of the line loop; `open` says that `cur` is the last of the entries. */
  datatype Parser = Parser(
    entries: seq<Section>,
    open: bool,
    inFence: bool,
    skipSection: bool,
    skipNested: bool)

  const START: Parser := Parser([], false, false, false, false)

  predicate Known(entries: seq<Section>, version: string) {
    exists i :: 0 <= i < |entries| && entries[i].version == version
  }

  predicate IsMeta(line: string) {
    exists i :: 0 <= i < |META_SECTIONS| && Contains(line, META_SECTIONS[i])
  }

  predicate IsFence(raw: string) { "```" <= RStrip(raw) }

  // ---------------------------------------------------------------- one line

  /** What the lines of a section work on. */
  datatype Body = Body(features: seq<string>, skipNested: bool)

  function Glue(features: seq<string>, text: string): seq<string>
    requires features != []
  {
    features[|features| - 1 := features[|features| - 1] + text]
  }

  function BodyLine(b: Body, line: string): Body {
    match MatchBullet(line)
    case Some(item) =>
      if "|" <= item then b
      else Body(if |b.features| < MAX_FEATURES then b.features + [item] else b.features, false)
    case None =>
      if IsNested(line) then b.(skipNested := true)
      else if b.features != [] && !b.skipNested && "  " <= line
      then b.(features := Glue(b.features, Strip(line)))
      else b
  }

  function OpenSection(p: Parser, h: Heading): Parser {
    if Known(p.entries, h.version) then p.(skipSection := false, skipNested := false, open := false)
    else p.(skipSection := false, skipNested := false, open := true,
            entries := p.entries + [Section(h.version, h.date, Clean(h.title), [])])
  }

  function SectionLine(p: Parser, line: string): Parser {
    if !p.open || p.skipSection || p.entries == [] then p
    else
      var cur := p.entries[|p.entries| - 1];
      var b := BodyLine(Body(cur.features, p.skipNested), line);
      p.(skipNested := b.skipNested,
         entries := p.entries[|p.entries| - 1 := cur.(features := b.features)])
  }

  function VisibleLine(p: Parser, line: string): Parser {
    match MatchHeading(line)
    case Some(h) => OpenSection(p, h)
    case None =>
      if "## " <= line then p.(open := false)
      else if "### " <= line then p.(skipSection := IsMeta(line))
      else SectionLine(p, line)
  }

  function Line(p: Parser, raw: string): Parser {
    if IsFence(raw) then p.(inFence := !p.inFence)
    else if p.inFence then p
    else VisibleLine(p, RStrip(raw))
  }

  function Lines(p: Parser, lines: seq<string>): Parser
    decreases |lines|
  {
    if lines == [] then p else Lines(Line(p, lines[0]), lines[1..])
  }

  lemma {:induction false} LinesAppend(p: Parser, a: seq<string>, b: seq<string>)
    ensures Lines(p, a + b) == Lines(Lines(p, a), b)
    decreases |a|
  {
    if a == [] {
      assert a + b == b;
    } else {
      assert (a + b)[1..] == a[1..] + b;
      LinesAppend(Line(p, a[0]), a[1..], b);
    }
  }

  // ---------------------------------------------------------------- the result

  function CleanAll(features: seq<string>): (r: seq<string>)
    ensures |r| <= |features|
    ensures forall i :: 0 <= i < |r| ==> 1 <= |r[i]| <= MAX_FEATURE_LEN + 1
  {
    if features == [] then []
    else (if Clean(features[0]) == "" then [] else [Clean(features[0])]) + CleanAll(features[1..])
  }

  function Finish(s: Section): Entry {
    var cleaned := CleanAll(s.features);
    var features := if cleaned != [] then cleaned
                    else [if s.description != "" then s.description else DEFAULT_FEATURE];
    Printer.Entry(s.version, s.date, if s.description != "" then s.description else features[0], features)
  }

  function FinishAll(sections: seq<Section>): (r: seq<Entry>)
    ensures |r| == |sections|
    ensures forall i :: 0 <= i < |r| ==> r[i] == Finish(sections[i])
  {
    seq(|sections|, i requires 0 <= i < |sections| => Finish(sections[i]))
  }

  function Number(digits: string): nat {
    if digits == "" then 0
    else Number(digits[..|digits| - 1]) * 10
         + (if IsDigit(digits[|digits| - 1]) then DigitValue(digits[|digits| - 1]).value else 0)
  }

  /** The numbers between the dots of a version. */
  function Key(version: string): seq<nat>
    decreases |version|
  {
    var dot := IndexOf(version, '.');
    [Number(version[..dot])] + if dot < |version| then Key(version[dot + 1..]) else []
  }

  /** Lexicographic order, as Python compares tuples. */
  predicate KeyLeq(a: seq<nat>, b: seq<nat>) {
    a == [] || (b != [] && (a[0] < b[0] || (a[0] == b[0] && KeyLeq(a[1..], b[1..]))))
  }

  predicate Before(a: Entry, b: Entry) { KeyLeq(Key(a.version), Key(b.version)) }

  function Insert(e: Entry, sorted: seq<Entry>): seq<Entry> {
    if sorted == [] then [e]
    else if Before(e, sorted[0]) then [e] + sorted
    else [sorted[0]] + Insert(e, sorted[1..])
  }

  /** A stable sort by numeric version. */
  function SortByVersion(entries: seq<Entry>): seq<Entry> {
    if entries == [] then [] else Insert(entries[0], SortByVersion(entries[1..]))
  }

  function Parsed(lines: seq<string>): seq<Entry> {
    SortByVersion(FinishAll(Lines(START, lines).entries))
  }

  /** `parse_changelog`: the line loop updates the entries and the flags, then each entry is
      finished and the result is sorted. */
  method ParseChangelog(text: string) returns (result: seq<Entry>)
    ensures result == Parsed(SplitLines(text))
  {
    hide MatchHeading, IsMeta, Clean, BodyLine, Known, RStrip, SortByVersion, Finish, SplitLines;
    var lines := SplitLines(text);
    var entries: seq<Section> := [];
    var open, inFence, skipSection, skipNested := false, false, false, false;
    for i := 0 to |lines|
      invariant Lines(START, lines) == Lines(Parser(entries, open, inFence, skipSection, skipNested), lines[i..])
    {
      ghost var before := Parser(entries, open, inFence, skipSection, skipNested);
      assert lines[i..][0] == lines[i] && lines[i..][1..] == lines[i + 1..];
      assert Lines(before, lines[i..]) == Lines(Line(before, lines[i]), lines[i + 1..]);
      var line := RStrip(lines[i]);
      if "```" <= line {
        inFence := !inFence;
      } else if !inFence {
        var m := MatchHeading(line);
        if m.Some? {
          skipSection, skipNested := false, false;
          if Known(entries, m.value.version) {
            open := false;
          } else {
            entries := entries + [Section(m.value.version, m.value.date, Clean(m.value.title), [])];
            open := true;
          }
        } else if "## " <= line {
          open := false;
        } else if "### " <= line {
          skipSection := IsMeta(line);
        } else if open && !skipSection && entries != [] {
          var cur := entries[|entries| - 1];
          var b := ReadBodyLine(cur.features, skipNested, line);
          skipNested := b.skipNested;
          entries := entries[|entries| - 1 := cur.(features := b.features)];
        }
      }
      assert Parser(entries, open, inFence, skipSection, skipNested) == Line(before, lines[i]);
    }
    assert lines[|lines|..] == [];
    result := [];
    for i := 0 to |entries|
      invariant |result| == i && forall k :: 0 <= k < i ==> result[k] == Finish(entries[k])
    {
      result := result + [Finish(entries[i])];
    }
    assert result == FinishAll(entries);
    result := SortByVersion(result);
  }

  /** One line inside a section. */
  method ReadBodyLine(features: seq<string>, skipNested: bool, line: string) returns (b: Body)
    ensures b == BodyLine(Body(features, skipNested), line)
  {
    var bm := MatchBullet(line);
    if bm.Some? {
      if "|" <= bm.value { return Body(features, skipNested); }
      if |features| < MAX_FEATURES { return Body(features + [bm.value], false); }
      return Body(features, false);
    }
    if IsNested(line) { return Body(features, true); }
    if features != [] && !skipNested && "  " <= line {
      return Body(features[|features| - 1 := features[|features| - 1] + Strip(line)], skipNested);
    }
    return Body(features, skipNested);
  }

  // ---------------------------------------------------------------- code fences are invisible

  /** The lines outside fenced blocks, without the fences. */
  function Visible(lines: seq<string>, inFence: bool): seq<string> {
    if lines == [] then []
    else if IsFence(lines[0]) then Visible(lines[1..], !inFence)
    else (if inFence then [] else [RStrip(lines[0])]) + Visible(lines[1..], inFence)
  }

  function FenceAfter(lines: seq<string>, inFence: bool): bool {
    if lines == [] then inFence
    else FenceAfter(lines[1..], if IsFence(lines[0]) then !inFence else inFence)
  }

  function VisibleLines(p: Parser, lines: seq<string>): Parser
    decreases |lines|
  {
    if lines == [] then p else VisibleLines(VisibleLine(p, lines[0]), lines[1..])
  }

  lemma {:induction false} VisibleLinesFence(p: Parser, lines: seq<string>, f: bool)
    ensures VisibleLines(p.(inFence := f), lines) == VisibleLines(p, lines).(inFence := f)
    decreases |lines|
  {
    hide MatchHeading, IsMeta, Clean, BodyLine, Known;
    if lines != [] {
      VisibleLinesFence(VisibleLine(p, lines[0]), lines[1..], f);
      assert VisibleLine(p.(inFence := f), lines[0]) == VisibleLine(p, lines[0]).(inFence := f);
    }
  }

  /** The parser sees the visible lines only. */
  lemma {:induction false} LinesSeeVisible(p: Parser, lines: seq<string>)
    ensures Lines(p, lines)
            == VisibleLines(p, Visible(lines, p.inFence)).(inFence := FenceAfter(lines, p.inFence))
    decreases |lines|
  {
    hide MatchHeading, IsMeta, Clean, BodyLine, Known, IsFence;
    if lines == [] {
    } else if IsFence(lines[0]) {
      var p' := p.(inFence := !p.inFence);
      LinesSeeVisible(p', lines[1..]);
      VisibleLinesFence(p, Visible(lines, p.inFence), !p.inFence);
    } else {
      LinesSeeVisible(Line(p, lines[0]), lines[1..]);
      var rest := Visible(lines[1..], p.inFence);
      if !p.inFence {
        assert ([RStrip(lines[0])] + rest)[1..] == rest;
      } else {
        assert Visible(lines, p.inFence) == rest;
      }
    }
  }

  lemma {:induction false} VisibleAppend(a: seq<string>, b: seq<string>, f: bool)
    ensures Visible(a + b, f) == Visible(a, f) + Visible(b, FenceAfter(a, f))
    ensures FenceAfter(a + b, f) == FenceAfter(b, FenceAfter(a, f))
  {
    hide IsFence;
    if a == [] {
      assert a + b == b;
    } else {
      assert (a + b)[1..] == a[1..] + b;
      VisibleAppend(a[1..], b, if IsFence(a[0]) then !f else f);
    }
  }

  predicate StartsWithFence(line: string) { |line| >= 3 && line[..3] == "```" }

  /** The lines that start with three backticks. */
  function Fences(lines: seq<string>): nat {
    if lines == [] then 0 else (if StartsWithFence(lines[0]) then 1 else 0) + Fences(lines[1..])
  }

  /** A line that starts with three backticks, further lines, and another such line. */
  ghost predicate FencedBlock(block: seq<string>) {
    && |block| >= 2 && StartsWithFence(block[0]) && StartsWithFence(block[|block| - 1])
    && forall i :: 0 < i < |block| - 1 ==> !StartsWithFence(block[i])
  }

  lemma {:induction false} StrippedFence(raw: string)
    requires StartsWithFence(raw)
    ensures "```" <= RStrip(raw)
  {
    if IsSpace(raw[|raw| - 1]) {
      assert raw[2] == raw[..3][2];
      assert raw[..|raw| - 1][..3] == raw[..3];
      StrippedFence(raw[..|raw| - 1]);
    }
  }

  lemma FenceIff(raw: string)
    ensures IsFence(raw) <==> StartsWithFence(raw)
  {
    hide RStrip;
    if StartsWithFence(raw) { StrippedFence(raw); }
    if IsFence(raw) { assert raw[..3] == RStrip(raw)[..3]; }
  }

  lemma {:induction false} FenceAfterIff(lines: seq<string>, f: bool)
    ensures FenceAfter(lines, f) <==> (if Fences(lines) % 2 == 1 then !f else f)
  {
    hide IsFence, StartsWithFence;
    if lines != [] {
      FenceIff(lines[0]);
      FenceAfterIff(lines[1..], if IsFence(lines[0]) then !f else f);
    }
  }

  lemma {:induction false} HiddenInFence(inner: seq<string>)
    requires forall i :: 0 <= i < |inner| ==> !StartsWithFence(inner[i])
    ensures Visible(inner, true) == [] && FenceAfter(inner, true)
  {
    hide IsFence, StartsWithFence;
    if inner != [] {
      FenceIff(inner[0]);
      HiddenInFence(inner[1..]);
    }
  }

  lemma FencedBlockHidden(block: seq<string>)
    requires FencedBlock(block)
    ensures Visible(block, false) == [] && !FenceAfter(block, false)
  {
    hide IsFence, StartsWithFence;
    var n := |block|;
    FenceIff(block[0]);
    FenceIff(block[n - 1]);
    var inner, end := block[1..n - 1], [block[n - 1]];
    HiddenInFence(inner);
    VisibleAppend(inner, end, true);
    assert block[1..] == inner + end;
    assert end[1..] == [] && Visible(end, true) == [] && !FenceAfter(end, true);
  }

  /** A complete fenced block, whatever is in it, can be put at any line boundary outside a
      fence, that is behind an even number of fences, without changing the result. */
  lemma FencedBlockIsInvisible(before: seq<string>, block: seq<string>, after: seq<string>)
    requires Fences(before) % 2 == 0 && FencedBlock(block)
    ensures Parsed(before + block + after) == Parsed(before + after)
  {
    hide IsFence, VisibleLines, FencedBlock, Visible, FenceAfter, SortByVersion;
    FenceAfterIff(before, false);
    FencedBlockHidden(block);
    VisibleAppend(before + block, after, false);
    VisibleAppend(before, block, false);
    VisibleAppend(before, after, false);
    assert Visible(before, false) + [] == Visible(before, false);
    LinesSeeVisible(START, before + block + after);
    LinesSeeVisible(START, before + after);
  }
}
