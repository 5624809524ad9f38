/**
 How the lines of a release become its features: which bullet a continuation line belongs to,
 and where the parser glues it instead.

 Main result: a release is read as intended exactly when no continuation line follows a dropped
 bullet or a line at the margin that is no bullet (`FeaturesAsIntendedIff`).
 */
module ChangelogItems {
  import opened Text
  import opened Wrappers
  import opened ChangelogText
  import opened Changelog
  import opened ChangelogPatterns

  // ---------------------------------------------------------------- the lines of a release

  /** What the lines of a release work on; `skipped` says that a sub-section is left out. */
  datatype Content = Content(body: Body, skipped: bool)

  function ContentLine(c: Content, line: string): Content {
    if "### " <= line then c.(skipped := IsMeta(line))
    else if c.skipped then c
    else c.(body := BodyLine(c.body, line))
  }

  function ContentLines(c: Content, lines: seq<string>): Content
    decreases |lines|
  {
    if lines == [] then c else ContentLines(ContentLine(c, lines[0]), lines[1..])
  }

  lemma {:induction false} NothingAddedUntilBullet(c: Content, lines: seq<string>)
    requires c.body.skipNested && forall i :: 0 <= i < |lines| ==> MatchBullet(lines[i]) == None
    ensures ContentLines(c, lines).body.features == c.body.features
    decreases |lines|
  {
    hide MatchBullet, IsNested, IsMeta;
    if lines != [] {
      assert MatchBullet(lines[0]) == None;
      NothingAddedUntilBullet(ContentLine(c, lines[0]), lines[1..]);
    }
  }

  /** Sub-items are left out: from a sub-item up to the next bullet at the margin nothing is added
      to the features, whatever the lines are. */
  lemma SubItemsAreLeftOut(c: Content, subItem: string, lines: seq<string>)
    requires SubItem(subItem) && !c.skipped && forall i :: 0 <= i < |lines| ==> MatchBullet(lines[i]) == None
    ensures ContentLines(c, [subItem] + lines).body.features == c.body.features
  {
    SubItemIff(subItem);
    var indent, marker, space, text :| MadeOf(subItem, indent, marker, space, text);
    assert IsSpace(subItem[0]);
    hide IsNested, SubItem;
    assert ([subItem] + lines)[1..] == lines;
    NothingAddedUntilBullet(ContentLine(c, subItem), lines);
  }

  /** A reader that knows which item a continuation line belongs to: `owner` says that the last
      bullet was kept and that since then there were only indented and blank lines. */
  datatype Reader = Reader(features: seq<string>, owner: bool, skipNested: bool, skipped: bool)

  const NEW_READER: Reader := Reader([], false, false, false)

  function IntendedItem(r: Reader, line: string): Reader {
    match MatchBullet(line)
    case Some(item) =>
      if "|" <= item then r.(owner := false)
      else if |r.features| < 12
      then r.(features := r.features + [item], owner := true, skipNested := false)
      else r.(owner := false, skipNested := false)
    case None =>
      if IsNested(line) then r.(skipNested := true)
      else if line == "" then r
      else if !("  " <= line) then r.(owner := false)
      else if r.features != [] && r.owner && !r.skipNested then r.(features := Glue(r.features, Strip(line)))
      else r
  }

  function IntendedLine(r: Reader, line: string): Reader {
    if "### " <= line then r.(skipped := IsMeta(line), owner := false)
    else if r.skipped then r
    else IntendedItem(r, line)
  }

  function IntendedLines(r: Reader, lines: seq<string>): Reader
    decreases |lines|
  {
    if lines == [] then r else IntendedLines(IntendedLine(r, lines[0]), lines[1..])
  }

  predicate IsContinuation(line: string) {
    MatchBullet(line) == None && !IsNested(line) && "  " <= line
  }

  /** A continuation line without an item of its own, while some item has been kept: it follows
      a bullet beyond the twelfth, a bullet starting with `|`, a heading of any level, a numbered
      item or other text at the margin. */
  predicate IsStray(r: Reader, line: string) {
    && !("### " <= line) && !r.skipped && IsContinuation(line)
    && r.features != [] && !r.owner && !r.skipNested
  }

  ghost predicate NoStray(r: Reader, lines: seq<string>)
    decreases |lines|
  {
    lines != [] ==> !IsStray(r, lines[0]) && NoStray(IntendedLine(r, lines[0]), lines[1..])
  }

  // ---------------------------------------------------------------- weighing the two readings

  function Weight(features: seq<string>): nat {
    if features == [] then 0 else |features[0]| + Weight(features[1..])
  }

  lemma {:induction false} WeightAppend(a: seq<string>, b: seq<string>)
    ensures Weight(a + b) == Weight(a) + Weight(b)
  {
    if a == [] {
      assert a + b == b;
    } else {
      assert (a + b)[1..] == a[1..] + b;
      WeightAppend(a[1..], b);
    }
  }

  lemma WeightGlue(features: seq<string>, text: string)
    requires features != []
    ensures Weight(Glue(features, text)) == Weight(features) + |text|
  {
    var n := |features| - 1;
    WeightAppend(features[..n], [features[n]]);
    WeightAppend(features[..n], [features[n] + text]);
    assert features == features[..n] + [features[n]];
    assert Glue(features, text) == features[..n] + [features[n] + text];
  }

  lemma ContinuationHasText(line: string)
    requires "  " <= line && RStrip(line) == line
    ensures |Strip(line)| > 0
  {
    LastSurvives(line);
  }

  lemma {:induction false} LastSurvives(s: string)
    requires s != "" && !IsSpace(s[|s| - 1])
    ensures LStrip(s) != ""
  {
    if IsSpace(s[0]) { LastSurvives(s[1..]); }
  }

  /** Same number of features and same flags. */
  ghost predicate Alike(c: Content, r: Reader) {
    |c.body.features| == |r.features| && c.body.skipNested == r.skipNested && c.skipped == r.skipped
  }

  lemma ItemWeights(b: Body, r: Reader, line: string)
    requires |b.features| == |r.features| && b.skipNested == r.skipNested && RStrip(line) == line
    requires !r.skipped && !("### " <= line)
    ensures var b' := BodyLine(b, line); var r' := IntendedItem(r, line);
            && |b'.features| == |r'.features| && b'.skipNested == r'.skipNested && r'.skipped == r.skipped
            && Weight(b'.features) - Weight(r'.features)
               >= Weight(b.features) - Weight(r.features) + (if IsStray(r, line) then 1 else 0)
            && (b.features == r.features && !IsStray(r, line) ==> b'.features == r'.features)
  {
    match MatchBullet(line)
    case Some(item) =>
      WeightAppend(b.features, [item]);
      WeightAppend(r.features, [item]);
    case None =>
      if IsContinuation(line) && b.features != [] && !b.skipNested {
        ContinuationHasText(line);
        WeightGlue(b.features, Strip(line));
        WeightGlue(r.features, Strip(line));
      }
  }

  lemma StepWeights(c: Content, r: Reader, line: string)
    requires Alike(c, r) && RStrip(line) == line
    ensures var c' := ContentLine(c, line); var r' := IntendedLine(r, line);
            && Alike(c', r')
            && Weight(c'.body.features) - Weight(r'.features)
               >= Weight(c.body.features) - Weight(r.features) + (if IsStray(r, line) then 1 else 0)
            && (c.body.features == r.features && !IsStray(r, line) ==> c'.body.features == r'.features)
  {
    hide BodyLine, IntendedItem, Weight, IsMeta, IsContinuation;
    if !("### " <= line) && !r.skipped { ItemWeights(c.body, r, line); }
  }

  ghost predicate AllRStripped(lines: seq<string>) {
    forall i :: 0 <= i < |lines| ==> RStrip(lines[i]) == lines[i]
  }

  lemma {:induction false} RunWeights(c: Content, r: Reader, lines: seq<string>)
    requires Alike(c, r) && AllRStripped(lines)
    ensures var c' := ContentLines(c, lines); var r' := IntendedLines(r, lines);
            && Alike(c', r')
            && Weight(c'.body.features) - Weight(r'.features)
               >= Weight(c.body.features) - Weight(r.features) + (if NoStray(r, lines) then 0 else 1)
            && (c.body.features == r.features && NoStray(r, lines) ==> c'.body.features == r'.features)
    decreases |lines|
  {
    hide ContentLine, IntendedLine, IsStray, Weight;
    if lines != [] {
      StepWeights(c, r, lines[0]);
      RunWeights(ContentLine(c, lines[0]), IntendedLine(r, lines[0]), lines[1..]);
    }
  }

  // ---------------------------------------------------------------- whole releases

  /** The release `s` is the open one. */
  ghost predicate Opened(p: Parser, past: seq<Section>, s: Section) {
    p.entries == past + [s] && p.open && !p.inFence
  }

  /** A line that neither starts a release nor ends the current one. */
  predicate StaysInRelease(line: string) {
    MatchHeading(line) == None && !("## " <= line)
  }

  lemma LineInRelease(p: Parser, past: seq<Section>, s: Section, line: string)
    requires Opened(p, past, s) && StaysInRelease(line)
    ensures var c := ContentLine(Content(Body(s.features, p.skipNested), p.skipSection), line);
            var p' := VisibleLine(p, line);
            && Opened(p', past, s.(features := c.body.features))
            && p'.skipNested == c.body.skipNested && p'.skipSection == c.skipped
  {
    hide MatchHeading, IsMeta, BodyLine;
    var b := BodyLine(Body(s.features, p.skipNested), line);
    assert (past + [s])[|past|] == s && (past + [s])[|past| := s] == past + [s];
    assert (past + [s])[|past| := s.(features := b.features)] == past + [s.(features := b.features)];
  }

  ghost predicate AllStayInRelease(lines: seq<string>) {
    forall i :: 0 <= i < |lines| ==> StaysInRelease(lines[i])
  }

  lemma {:induction false} LinesInRelease(p: Parser, past: seq<Section>, s: Section, lines: seq<string>)
    requires Opened(p, past, s) && AllStayInRelease(lines)
    ensures var c := ContentLines(Content(Body(s.features, p.skipNested), p.skipSection), lines);
            Opened(VisibleLines(p, lines), past, s.(features := c.body.features))
    decreases |lines|
  {
    hide StaysInRelease, ContentLine, VisibleLine;
    if lines != [] {
      LineInRelease(p, past, s, lines[0]);
      var c := ContentLine(Content(Body(s.features, p.skipNested), p.skipSection), lines[0]);
      LinesInRelease(VisibleLine(p, lines[0]), past, s.(features := c.body.features), lines[1..]);
    }
  }

  lemma {:induction false} VisibleIsStripped(lines: seq<string>, inFence: bool)
    ensures AllRStripped(Visible(lines, inFence))
  {
    hide IsFence;
    if lines != [] { VisibleIsStripped(lines[1..], if IsFence(lines[0]) then !inFence else inFence); }
  }

  lemma ReadVisibleRelease(p: Parser, past: seq<Section>, s: Section, lines: seq<string>)
    requires Opened(p, past, s) && s.features == [] && !p.skipNested && !p.skipSection
    requires AllRStripped(lines) && AllStayInRelease(lines)
    ensures VisibleLines(p, lines).entries == past + [s.(features := IntendedLines(NEW_READER, lines).features)]
            <==> NoStray(NEW_READER, lines)
  {
    hide AllRStripped, AllStayInRelease, ContentLines, IntendedLines, VisibleLines, NoStray;
    var c := Content(Body([], false), false);
    var read := ContentLines(c, lines).body.features;
    var intended := IntendedLines(NEW_READER, lines).features;
    LinesInRelease(p, past, s, lines);
    RunWeights(c, NEW_READER, lines);
    assert (past + [s.(features := read)])[|past|].features == read;
    assert (past + [s.(features := intended)])[|past|].features == intended;
  }

  lemma OpenRelease(p: Parser, heading: string, h: Heading)
    requires !p.inFence && MatchHeading(RStrip(heading)) == Some(h) && !Known(p.entries, h.version)
    ensures var p' := Line(p, heading);
            && Opened(p', p.entries, Section(h.version, h.date, Clean(h.title), []))
            && !p'.skipNested && !p'.skipSection
  {
    assert RStrip(heading)[0] == '#';
  }

  /** For every new release, whatever lines follow its heading up to the next one: it is read
      with each feature being one bullet and its own continuation lines exactly when no stray
      continuation line is among them; otherwise foreign text is glued to the last feature. */
  lemma FeaturesAsIntendedIff(p: Parser, heading: string, h: Heading, lines: seq<string>)
    requires !p.inFence && MatchHeading(RStrip(heading)) == Some(h) && !Known(p.entries, h.version)
    requires AllStayInRelease(Visible(lines, false))
    ensures var visible := Visible(lines, false);
            Lines(p, [heading] + lines).entries
              == p.entries + [Section(h.version, h.date, Clean(h.title),
                                      IntendedLines(NEW_READER, visible).features)]
            <==> NoStray(NEW_READER, visible)
  {
    hide AllStayInRelease, Visible, VisibleLines, Line, Known, MatchHeading, IntendedLines, NoStray, Clean;
    var p' := Line(p, heading);
    OpenRelease(p, heading, h);
    assert ([heading] + lines)[1..] == lines;
    LinesSeeVisible(p', lines);
    VisibleIsStripped(lines, false);
    ReadVisibleRelease(p', p.entries, Section(h.version, h.date, Clean(h.title), []), Visible(lines, false));
  }

  // ---------------------------------------------------------------- foreign text in an item

  lemma ThreeLines(c: Content, a: string, b: string, d: string)
    ensures ContentLines(c, [a, b, d]) == ContentLine(ContentLine(ContentLine(c, a), b), d)
  {
    var lines := [a, b, d];
    assert lines[1..] == [b, d] && lines[1..][1..] == [d] && lines[1..][1..][1..] == [];
    assert ContentLines(ContentLine(ContentLine(c, a), b), [d])
        == ContentLines(ContentLine(ContentLine(ContentLine(c, a), b), d), []);
  }

  lemma ThreeIntended(r: Reader, a: string, b: string, d: string)
    ensures IntendedLines(r, [a, b, d]) == IntendedLine(IntendedLine(IntendedLine(r, a), b), d)
  {
    var lines := [a, b, d];
    assert lines[1..] == [b, d] && lines[1..][1..] == [d] && lines[1..][1..][1..] == [];
    assert IntendedLines(IntendedLine(IntendedLine(r, a), b), [d])
        == IntendedLines(IntendedLine(IntendedLine(IntendedLine(r, a), b), d), []);
  }

  lemma ContinuationRead(c: Content, r: Reader)
    requires c == Content(Body(["ab"], false), false) && r == Reader(["ab"], false, false, false)
    ensures ContentLine(c, "  ef") == Content(Body(["abef"], false), false) && IntendedLine(r, "  ef") == r
  {
    LStripSpaces("  ", "ef");
    assert "  ef" == "  " + "ef" && RStrip("  ef") == "  ef";
    assert !IsNested("  ef") && Strip("  ef") == "ef" && MatchBullet("  ef") == None;
    assert Glue(["ab"], "ef") == ["abef"] by { assert "ab" + "ef" == "abef"; }
  }

  lemma {:induction false} ContainsItsFirst(s: string, part: string)
    requires part != "" && Contains(s, part)
    ensures part[0] in s
  {
    if !(part <= s) { ContainsItsFirst(s[1..], part); }
  }

  lemma PlainSubHeading()
    ensures !IsMeta("### C")
  {
    forall i | 0 <= i < |META_SECTIONS| ensures !Contains("### C", META_SECTIONS[i]) {
      assert META_SECTIONS[i] != "" && META_SECTIONS[i][0] !in "### C";
      if Contains("### C", META_SECTIONS[i]) { ContainsItsFirst("### C", META_SECTIONS[i]); }
    }
  }

  lemma FirstItemRead()
    ensures ContentLine(Content(Body([], false), false), "- ab") == Content(Body(["ab"], false), false)
    ensures IntendedLine(NEW_READER, "- ab") == Reader(["ab"], true, false, false)
  {
    assert "- ab"[2..] == "ab";
    StripTrimmed("ab");
  }

  /** An input on which the readings differ: the second line of a table-like item ends up in the
      item before it. */
  lemma TableRowGluedToItem()
    ensures var lines := ["- ab", "- |cd", "  ef"];
            && ContentLines(Content(Body([], false), false), lines).body.features == ["abef"]
            && IntendedLines(NEW_READER, lines).features == ["ab"]
  {
    var c, r := Content(Body(["ab"], false), false), Reader(["ab"], true, false, false);
    ThreeLines(Content(Body([], false), false), "- ab", "- |cd", "  ef");
    ThreeIntended(NEW_READER, "- ab", "- |cd", "  ef");
    FirstItemRead();
    assert "- |cd"[2..] == "|cd";
    StripTrimmed("|cd");
    assert ContentLine(c, "- |cd") == c && IntendedLine(r, "- |cd") == r.(owner := false);
    ContinuationRead(c, r.(owner := false));
  }

  /** Another one, without any dropped bullet: an indented line below a sub-heading ends up in
      the last item above the sub-heading. */
  lemma LineBelowSubHeadingGluedToItem()
    ensures var lines := ["- ab", "### C", "  ef"];
            && ContentLines(Content(Body([], false), false), lines).body.features == ["abef"]
            && IntendedLines(NEW_READER, lines).features == ["ab"]
  {
    var c, r := Content(Body(["ab"], false), false), Reader(["ab"], true, false, false);
    ThreeLines(Content(Body([], false), false), "- ab", "### C", "  ef");
    ThreeIntended(NEW_READER, "- ab", "### C", "  ef");
    FirstItemRead();
    PlainSubHeading();
    ContinuationRead(c, r.(owner := false));
  }

  lemma MarginLineRead(c: Content, r: Reader)
    requires c == Content(Body(["ab"], false), false) && r == Reader(["ab"], true, false, false)
    ensures ContentLine(c, "1. cd") == c && IntendedLine(r, "1. cd") == r.(owner := false)
    ensures ContentLine(c, "#### C") == c && IntendedLine(r, "#### C") == r.(owner := false)
  {
    assert "1. cd"[0] == '1' && "#### C"[0] == '#' && "#### C"[3] == '#';
    assert MatchBullet("1. cd") == None && MatchBullet("#### C") == None;
    assert !IsNested("1. cd") && !IsNested("#### C");
  }

  /** Two more: a line below a numbered item, and one below a heading of the fourth level. */
  lemma LineBelowMarginTextGluedToItem()
    ensures var numbered, headed := ["- ab", "1. cd", "  ef"], ["- ab", "#### C", "  ef"];
            && ContentLines(Content(Body([], false), false), numbered).body.features == ["abef"]
            && IntendedLines(NEW_READER, numbered).features == ["ab"]
            && ContentLines(Content(Body([], false), false), headed).body.features == ["abef"]
            && IntendedLines(NEW_READER, headed).features == ["ab"]
  {
    hide ContentLine, IntendedLine, ContentLines, IntendedLines;
    var c, r := Content(Body(["ab"], false), false), Reader(["ab"], true, false, false);
    ThreeLines(Content(Body([], false), false), "- ab", "1. cd", "  ef");
    ThreeIntended(NEW_READER, "- ab", "1. cd", "  ef");
    ThreeLines(Content(Body([], false), false), "- ab", "#### C", "  ef");
    ThreeIntended(NEW_READER, "- ab", "#### C", "  ef");
    FirstItemRead();
    MarginLineRead(c, r);
    ContinuationRead(c, r.(owner := false));
  }
}
