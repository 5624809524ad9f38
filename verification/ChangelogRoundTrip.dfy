/**
 Printing releases as a changelog and reading it back.

 Main results: parsing a printed changelog gives the cleaned releases (`ChangelogRoundTrip`), and
 releases with plain titles and items come back word for word (`PlainChangelogRoundTrip`).
 */
module ChangelogRoundTrip {
  import opened Text
  import opened Wrappers
  import opened ChangelogText
  import opened Changelog
  import opened ChangelogItems
  import opened ChangelogFacts
  import Printer = UpdateLogPrinter

  // ---------------------------------------------------------------- a canonical changelog

  /** A sub-heading and the items below it. */
  datatype Group = Group(title: string, items: seq<seq<string>>)

  /** A list item is given as the pieces of its lines. */
  datatype Release = Release(
    major: string, minor: string, patch: string,
    date: string, title: string,
    items: seq<seq<string>>, groups: seq<Group>)

  function Version(r: Release): string { r.major + "." + r.minor + "." + r.patch }

  function Joined(items: seq<seq<string>>): (r: seq<string>)
    ensures |r| == |items|
  {
    if items == [] then [] else [Printer.Concat(items[0])] + Joined(items[1..])
  }

  function SubHeading(g: Group): string { "### " + g.title }

  predicate StandsAt(word: string, s: string, i: nat) { i + |word| <= |s| && s[i..i + |word|] == word }

  predicate Occurs(word: string, s: string) { exists i: nat | i <= |s| :: StandsAt(word, s, i) }

  /** The title of a sub-section for maintainers has one of five words in it. */
  predicate LeftOut(title: string) {
    || Occurs("验证", title) || Occurs("自测", title) || Occurs("备注", title)
    || Occurs("Verification", title) || Occurs("Notes", title)
  }

  function KeptOf(g: Group): seq<string> { if LeftOut(g.title) then [] else Joined(g.items) }

  /** The items below the sub-headings that are not left out. */
  function KeptItems(groups: seq<Group>): seq<string> {
    if groups == [] then []
    else KeptOf(groups[0]) + KeptItems(groups[1..])
  }

  predicate GoodPiece(s: string) { s != "" && Trimmed(s) && SingleLine(s) }

  ghost predicate GoodContinuations(pieces: seq<string>) {
    forall i :: 0 <= i < |pieces| ==> GoodPiece(pieces[i]) && !IsNested("  " + pieces[i])
  }

  ghost predicate GoodItem(pieces: seq<string>) {
    pieces != [] && GoodPiece(pieces[0]) && !("|" <= pieces[0]) && GoodContinuations(pieces[1..])
  }

  ghost predicate GoodItems(items: seq<seq<string>>) {
    forall i :: 0 <= i < |items| ==> GoodItem(items[i])
  }

  ghost predicate GoodGroups(groups: seq<Group>) {
    forall i :: 0 <= i < |groups| ==> GoodPiece(groups[i].title) && GoodItems(groups[i].items)
  }

  /** At most twelve kept items of at least one line, none starting with `|`; continuation lines
      do not look like sub-items. */
  ghost predicate GoodRelease(r: Release) {
    && Digits(r.major) && Digits(r.minor) && Digits(r.patch) && IsDate(r.date)
    && Trimmed(r.title) && SingleLine(r.title)
    && |r.items| + |KeptItems(r.groups)| <= 12 && GoodItems(r.items) && GoodGroups(r.groups)
  }

  function PrintContinuations(pieces: seq<string>): seq<string> {
    if pieces == [] then [] else ["  " + pieces[0]] + PrintContinuations(pieces[1..])
  }

  function PrintItem(pieces: seq<string>): seq<string>
    requires pieces != []
  {
    ["- " + pieces[0]] + PrintContinuations(pieces[1..])
  }

  function PrintItems(items: seq<seq<string>>): seq<string> {
    if items == [] then []
    else (if items[0] == [] then [] else PrintItem(items[0])) + PrintItems(items[1..])
  }

  function PrintGroup(g: Group): seq<string> { [SubHeading(g), ""] + (PrintItems(g.items) + [""]) }

  function PrintGroups(groups: seq<Group>): seq<string> {
    if groups == [] then [] else PrintGroup(groups[0]) + PrintGroups(groups[1..])
  }

  function PrintRelease(r: Release): seq<string> {
    [PrintHeading(r.major, r.minor, r.patch, r.date, r.title), ""]
    + (PrintItems(r.items) + ([""] + PrintGroups(r.groups)))
  }

  function PrintChangelog(releases: seq<Release>): seq<string> {
    if releases == [] then [] else PrintRelease(releases[0]) + PrintChangelog(releases[1..])
  }

  function ToSection(r: Release): Section {
    Section(Version(r), r.date, Clean(r.title), Joined(r.items) + KeptItems(r.groups))
  }

  function ToSections(releases: seq<Release>): (s: seq<Section>)
    ensures |s| == |releases|
    ensures forall i :: 0 <= i < |s| ==> s[i] == ToSection(releases[i])
  {
    if releases == [] then [] else [ToSection(releases[0])] + ToSections(releases[1..])
  }

  // ---------------------------------------------------------------- the lines of one section

  /** Inside the open release `s`, not in a sub-section that is left out. */
  ghost predicate Within(p: Parser, past: seq<Section>, s: Section) {
    Opened(p, past, s) && !p.skipSection
  }

  lemma BodyLineWithin(p: Parser, past: seq<Section>, s: Section, line: string)
    requires Within(p, past, s) && RStrip(line) == line
    requires !("```" <= line) && !("#" <= line)
    ensures var b := BodyLine(Body(s.features, p.skipNested), line);
            Within(Line(p, line), past, s.(features := b.features)) && Line(p, line).skipNested == b.skipNested
  {
    hide BodyLine, IsMeta;
    assert line != "" ==> line[0] != '#';
    assert MatchHeading(line) == None;
    LineInRelease(p, past, s, line);
  }

  lemma BlankLine(p: Parser, past: seq<Section>, s: Section)
    requires Within(p, past, s)
    ensures Within(Line(p, ""), past, s) && Line(p, "").skipNested == p.skipNested
  {
    BodyLineWithin(p, past, s, "");
    assert BodyLine(Body(s.features, p.skipNested), "") == Body(s.features, p.skipNested);
  }

  lemma ContinuationWithin(p: Parser, past: seq<Section>, s: Section, piece: string)
    requires Within(p, past, s) && !p.skipNested && s.features != []
    requires GoodPiece(piece) && !IsNested("  " + piece)
    ensures Within(Line(p, "  " + piece), past, s.(features := Glue(s.features, piece)))
    ensures !Line(p, "  " + piece).skipNested
  {
    var line := "  " + piece;
    assert line[|line| - 1] == piece[|piece| - 1] && line[0] == ' ';
    BodyLineWithin(p, past, s, line);
    LStripSpaces("  ", piece);
  }

  lemma {:induction false} ContinuationsWithin(p: Parser, past: seq<Section>, s: Section,
                                               features: seq<string>, text: string, pieces: seq<string>)
    requires s.features == features + [text]
    requires Within(p, past, s) && !p.skipNested
    requires GoodContinuations(pieces)
    ensures var p' := Lines(p, PrintContinuations(pieces));
            Within(p', past, s.(features := features + [text + Printer.Concat(pieces)])) && !p'.skipNested
    decreases |pieces|
  {
    if pieces == [] {
      assert text + Printer.Concat(pieces) == text;
    } else {
      hide Line, IsNested, Trimmed, Opened;
      ContinuationWithin(p, past, s, pieces[0]);
      var p' := Line(p, "  " + pieces[0]);
      var s' := s.(features := Glue(s.features, pieces[0]));
      assert s'.features == features + [text + pieces[0]];
      var lines := PrintContinuations(pieces);
      assert lines[0] == "  " + pieces[0] && lines[1..] == PrintContinuations(pieces[1..]);
      ContinuationsWithin(p', past, s', features, text + pieces[0], pieces[1..]);
      assert text + pieces[0] + Printer.Concat(pieces[1..]) == text + Printer.Concat(pieces);
    }
  }

  lemma ItemWithin(p: Parser, past: seq<Section>, s: Section, pieces: seq<string>)
    requires Within(p, past, s) && |s.features| < MAX_FEATURES && GoodItem(pieces)
    ensures var p' := Lines(p, PrintItem(pieces));
            Within(p', past, s.(features := s.features + [Printer.Concat(pieces)])) && !p'.skipNested
  {
    var line := "- " + pieces[0];
    assert line[|line| - 1] == pieces[0][|pieces[0]| - 1] && line[0] == '-';
    assert line[2..] == pieces[0];
    StripTrimmed(pieces[0]);
    BodyLineWithin(p, past, s, line);
    var lines := PrintItem(pieces);
    assert lines[0] == line && lines[1..] == PrintContinuations(pieces[1..]);
    ContinuationsWithin(Line(p, line), past, s.(features := s.features + [pieces[0]]),
                        s.features, pieces[0], pieces[1..]);
  }

  lemma {:induction false} ItemsWithin(p: Parser, past: seq<Section>, s: Section, items: seq<seq<string>>)
    requires Within(p, past, s) && |s.features| + |items| <= MAX_FEATURES
    requires GoodItems(items)
    ensures Within(Lines(p, PrintItems(items)), past, s.(features := s.features + Joined(items)))
    decreases |items|
  {
    if items == [] {
      assert s.features + Joined(items) == s.features;
    } else {
      var tail := items[1..];
      assert GoodItems(tail) by { assert forall i :: 0 <= i < |tail| ==> tail[i] == items[i + 1]; }
      ItemWithin(p, past, s, items[0]);
      FeaturesGrow(s.features, items);
      ItemsWithin(Lines(p, PrintItem(items[0])), past,
                  s.(features := s.features + [Printer.Concat(items[0])]), tail);
      LinesAppend(p, PrintItem(items[0]), PrintItems(tail));
    }
  }

  lemma FeaturesGrow(features: seq<string>, items: seq<seq<string>>)
    requires items != []
    ensures features + [Printer.Concat(items[0])] + Joined(items[1..]) == features + Joined(items)
  {}

  // ---------------------------------------------------------------- sub-headings

  lemma {:induction false} ContainsIff(s: string, word: string)
    requires word != ""
    ensures Contains(s, word) <==> Occurs(word, s)
  {
    if s != "" {
      ContainsIff(s[1..], word);
      if Occurs(word, s[1..]) {
        var i: nat :| i <= |s[1..]| && StandsAt(word, s[1..], i);
        assert StandsAt(word, s, i + 1);
      }
      if Occurs(word, s) && !(word <= s) {
        var i: nat :| i <= |s| && StandsAt(word, s, i);
        assert i > 0 && StandsAt(word, s[1..], i - 1);
      }
      if word <= s { assert StandsAt(word, s, 0); }
    }
  }

  lemma OccursAfter(front: string, s: string, word: string)
    requires word != "" && word[0] !in front
    ensures Occurs(word, front + s) <==> Occurs(word, s)
  {
    var all, n := front + s, |front|;
    if Occurs(word, s) {
      var i: nat :| i <= |s| && StandsAt(word, s, i);
      assert StandsAt(word, all, i + n);
    }
    if Occurs(word, all) {
      var i: nat :| i <= |all| && StandsAt(word, all, i);
      forall j | 0 <= j < n ensures all[j] != word[0] { assert all[j] in front; }
      assert all[i] == word[0];
      assert StandsAt(word, s, i - n);
    }
  }

  lemma MetaWord(title: string, word: string)
    requires word != "" && word[0] != '#' && word[0] != ' '
    ensures Contains("### " + title, word) <==> Occurs(word, title)
  {
    ContainsIff("### " + title, word);
    OccursAfter("### ", title, word);
  }

  lemma MetaIff(title: string)
    ensures IsMeta("### " + title) <==> LeftOut(title)
  {
    hide Contains, Occurs;
    var words := META_SECTIONS;
    assert words == ["验证", "自测", "备注", "Verification", "Notes"];
    forall i | 0 <= i < 5 ensures Contains("### " + title, words[i]) <==> Occurs(words[i], title) {
      MetaWord(title, words[i]);
    }
    assert LeftOut(title) <==> exists i :: 0 <= i < 5 && Occurs(words[i], title) by {
      assert Occurs(words[0], title) <==> Occurs("验证", title);
      assert Occurs(words[1], title) <==> Occurs("自测", title);
      assert Occurs(words[2], title) <==> Occurs("备注", title);
      assert Occurs(words[3], title) <==> Occurs("Verification", title);
      assert Occurs(words[4], title) <==> Occurs("Notes", title);
    }
  }

  lemma SubHeadingLine(p: Parser, past: seq<Section>, s: Section, g: Group)
    requires Opened(p, past, s) && GoodPiece(g.title)
    ensures var p' := Line(p, SubHeading(g));
            Opened(p', past, s) && p'.skipSection == LeftOut(g.title) && p'.skipNested == p.skipNested
  {
    hide IsMeta, BodyLine, LeftOut;
    var line := SubHeading(g);
    MetaIff(g.title);
    assert line[|line| - 1] == g.title[|g.title| - 1] && line[0] == '#' && line[2] == '#';
    assert line[2..][0] == '#' && MatchHeading(line) == None;
    LineInRelease(p, past, s, line);
  }

  /** A printed line of an item. */
  ghost predicate PrintedLine(line: string) {
    line != "" && (line[0] == '-' || line[0] == ' ') && !IsSpace(line[|line| - 1])
  }

  ghost predicate PrintedLines(lines: seq<string>) {
    forall i :: 0 <= i < |lines| ==> PrintedLine(lines[i])
  }

  lemma {:induction false} ContinuationsArePrinted(pieces: seq<string>)
    requires GoodContinuations(pieces)
    ensures PrintedLines(PrintContinuations(pieces))
  {
    if pieces != [] {
      var line := "  " + pieces[0];
      assert line[|line| - 1] == pieces[0][|pieces[0]| - 1];
      ContinuationsArePrinted(pieces[1..]);
    }
  }

  lemma {:induction false} ItemsArePrinted(items: seq<seq<string>>)
    requires GoodItems(items)
    ensures PrintedLines(PrintItems(items))
  {
    if items != [] {
      var line, tail := "- " + items[0][0], items[1..];
      assert line[|line| - 1] == items[0][0][|items[0][0]| - 1];
      assert PrintedLine(line);
      hide GoodContinuations, PrintedLine;
      ContinuationsArePrinted(items[0][1..]);
      assert forall i :: 0 <= i < |tail| ==> tail[i] == items[i + 1];
      ItemsArePrinted(tail);
    }
  }

  lemma {:induction false} SkippedLines(p: Parser, lines: seq<string>)
    requires PrintedLines(lines) && p.skipSection && !p.inFence
    ensures Lines(p, lines) == p
    decreases |lines|
  {
    hide BodyLine;
    if lines != [] {
      assert PrintedLine(lines[0]) && RStrip(lines[0]) == lines[0];
      assert MatchHeading(lines[0]) == None;
      SkippedLines(p, lines[1..]);
    }
  }

  lemma BlankLineOpened(p: Parser, past: seq<Section>, s: Section)
    requires Opened(p, past, s)
    ensures var p' := Line(p, "");
            Opened(p', past, s) && p'.skipSection == p.skipSection && p'.skipNested == p.skipNested
  {
    if p.skipSection { assert MatchHeading("") == None; } else { BlankLine(p, past, s); }
  }

  lemma OneLine(p: Parser, a: string)
    ensures Lines(p, [a]) == Line(p, a)
  {
    assert [a][1..] == [];
    assert Lines(Line(p, a), []) == Line(p, a);
  }

  lemma TwoLines(p: Parser, a: string, b: string)
    ensures Lines(p, [a, b]) == Line(Line(p, a), b)
  {
    assert [a, b][1..] == [b] && [b][1..] == [];
    assert Lines(Line(p, a), [b]) == Lines(Line(Line(p, a), b), []);
  }

  lemma GroupRead(p: Parser, past: seq<Section>, s: Section, g: Group)
    requires Opened(p, past, s) && GoodPiece(g.title) && GoodItems(g.items)
    requires |s.features| + |KeptOf(g)| <= MAX_FEATURES
    ensures Opened(Lines(p, PrintGroup(g)), past, s.(features := s.features + KeptOf(g)))
  {
    hide Line, Lines, PrintItems, LeftOut, Joined, GoodItems;
    var meta := LeftOut(g.title);
    var s' := s.(features := s.features + KeptOf(g));
    SubHeadingLine(p, past, s, g);
    var p1 := Line(p, SubHeading(g));
    BlankLineOpened(p1, past, s);
    var p2 := Line(p1, "");
    if meta {
      ItemsArePrinted(g.items);
      SkippedLines(p2, PrintItems(g.items));
      assert s.features + [] == s.features;
    } else {
      ItemsWithin(p2, past, s, g.items);
    }
    var p3 := Lines(p2, PrintItems(g.items));
    assert Opened(p3, past, s');
    BlankLineOpened(p3, past, s');
    TwoLines(p, SubHeading(g), "");
    LinesAppend(p, [SubHeading(g), ""], PrintItems(g.items) + [""]);
    LinesAppend(p2, PrintItems(g.items), [""]);
    OneLine(p3, "");
  }

  lemma KeptGrows(features: seq<string>, groups: seq<Group>)
    requires groups != []
    ensures features + KeptOf(groups[0]) + KeptItems(groups[1..]) == features + KeptItems(groups)
    ensures |KeptItems(groups)| == |KeptOf(groups[0])| + |KeptItems(groups[1..])|
  {
    hide LeftOut, Joined;
  }

  lemma GroupsTail(groups: seq<Group>)
    requires groups != [] && GoodGroups(groups)
    ensures GoodGroups(groups[1..]) && GoodPiece(groups[0].title) && GoodItems(groups[0].items)
  {
    hide GoodItems, GoodPiece;
    assert forall i :: 0 <= i < |groups[1..]| ==> groups[1..][i] == groups[i + 1];
  }

  lemma {:induction false} GroupsRead(p: Parser, past: seq<Section>, s: Section, groups: seq<Group>)
    requires Opened(p, past, s) && GoodGroups(groups) && |s.features| + |KeptItems(groups)| <= MAX_FEATURES
    ensures Opened(Lines(p, PrintGroups(groups)), past, s.(features := s.features + KeptItems(groups)))
    decreases |groups|
  {
    if groups == [] {
      assert s.features + KeptItems(groups) == s.features;
    } else {
      hide Line, Lines, KeptItems, GoodGroups, GoodItems, GoodPiece, PrintGroup, Opened, LeftOut, Joined;
      var g, tail := groups[0], groups[1..];
      GroupsTail(groups);
      KeptGrows(s.features, groups);
      GroupRead(p, past, s, g);
      GroupsRead(Lines(p, PrintGroup(g)), past, s.(features := s.features + KeptOf(g)), tail);
      LinesAppend(p, PrintGroup(g), PrintGroups(tail));
    }
  }

  // ---------------------------------------------------------------- whole changelogs

  lemma HeadingWithin(p: Parser, r: Release)
    requires GoodRelease(r) && !p.inFence && !Known(p.entries, Version(r))
    ensures Within(Line(p, PrintHeading(r.major, r.minor, r.patch, r.date, r.title)),
                   p.entries, Section(Version(r), r.date, Clean(r.title), []))
  {
    hide Known, Clean, GoodItems, GoodGroups, KeptItems;
    var line := PrintHeading(r.major, r.minor, r.patch, r.date, r.title);
    HeadingRoundTrip(r.major, r.minor, r.patch, r.date, r.title);
    HeadingTrimmed(r.major, r.minor, r.patch, r.date, r.title);
    OpenRelease(p, line, Heading(Version(r), r.date, r.title));
  }

  lemma ReleaseRead(p: Parser, r: Release)
    requires GoodRelease(r) && !p.inFence && !Known(p.entries, Version(r))
    ensures Opened(Lines(p, PrintRelease(r)), p.entries, ToSection(r))
  {
    hide Line, Lines, PrintItems, PrintGroups, KeptItems, Joined, GoodItems, GoodGroups, PrintHeading, Known, Clean;
    var heading := PrintHeading(r.major, r.minor, r.patch, r.date, r.title);
    var s := Section(Version(r), r.date, Clean(r.title), []);
    var s' := s.(features := Joined(r.items));
    HeadingWithin(p, r);
    var p1 := Line(p, heading);
    BlankLine(p1, p.entries, s);
    var p2 := Line(p1, "");
    ItemsWithin(p2, p.entries, s, r.items);
    assert [] + Joined(r.items) == Joined(r.items);
    var p3 := Lines(p2, PrintItems(r.items));
    BlankLine(p3, p.entries, s');
    var p4 := Line(p3, "");
    GroupsRead(p4, p.entries, s', r.groups);
    TwoLines(p, heading, "");
    LinesAppend(p, [heading, ""], PrintItems(r.items) + ([""] + PrintGroups(r.groups)));
    LinesAppend(p2, PrintItems(r.items), [""] + PrintGroups(r.groups));
    LinesAppend(p3, [""], PrintGroups(r.groups));
    OneLine(p3, "");
  }

  ghost predicate DistinctReleases(releases: seq<Release>) {
    forall i, j :: 0 <= i < j < |releases| ==> Version(releases[i]) != Version(releases[j])
  }

  ghost predicate GoodReleases(releases: seq<Release>) {
    forall i :: 0 <= i < |releases| ==> GoodRelease(releases[i])
  }

  ghost predicate AllNew(entries: seq<Section>, releases: seq<Release>) {
    forall i :: 0 <= i < |releases| ==> !Known(entries, Version(releases[i]))
  }

  lemma TailStaysNew(entries: seq<Section>, releases: seq<Release>)
    requires releases != [] && AllNew(entries, releases) && DistinctReleases(releases) && GoodReleases(releases)
    ensures AllNew(entries + [ToSection(releases[0])], releases[1..])
    ensures DistinctReleases(releases[1..]) && GoodReleases(releases[1..])
  {
    var tail := releases[1..];
    assert forall i :: 0 <= i < |tail| ==> tail[i] == releases[i + 1];
    forall i | 0 <= i < |tail| ensures !Known(entries + [ToSection(releases[0])], Version(tail[i])) {
      assert !Known(entries, Version(releases[i + 1]));
    }
  }

  lemma SectionsGrow(entries: seq<Section>, releases: seq<Release>)
    requires releases != []
    ensures entries + [ToSection(releases[0])] + ToSections(releases[1..]) == entries + ToSections(releases)
  {
    hide ToSection;
  }

  lemma {:induction false} ReleasesRead(p: Parser, releases: seq<Release>)
    requires !p.inFence && DistinctReleases(releases) && GoodReleases(releases) && AllNew(p.entries, releases)
    ensures Lines(p, PrintChangelog(releases)).entries == p.entries + ToSections(releases)
    decreases |releases|
  {
    if releases == [] {
      assert p.entries + ToSections(releases) == p.entries;
    } else {
      var r := releases[0];
      ReleaseRead(p, r);
      TailStaysNew(p.entries, releases);
      ReleasesRead(Lines(p, PrintRelease(r)), releases[1..]);
      SectionsGrow(p.entries, releases);
      LinesAppend(p, PrintRelease(r), PrintChangelog(releases[1..]));
    }
  }

  // ---------------------------------------------------------------- printed lines are single ones

  lemma SingleJoin(a: seq<string>, b: seq<string>)
    requires AllSingle(a) && AllSingle(b)
    ensures AllSingle(a + b)
  {}

  lemma {:induction false} ContinuationsSingle(pieces: seq<string>)
    requires GoodContinuations(pieces)
    ensures AllSingle(PrintContinuations(pieces))
  {
    if pieces != [] {
      ContinuationsSingle(pieces[1..]);
      SingleJoin(["  " + pieces[0]], PrintContinuations(pieces[1..]));
    }
  }

  lemma {:induction false} ItemsSingle(items: seq<seq<string>>)
    requires GoodItems(items)
    ensures AllSingle(PrintItems(items))
  {
    hide GoodContinuations;
    if items != [] {
      ContinuationsSingle(items[0][1..]);
      SingleJoin(["- " + items[0][0]], PrintContinuations(items[0][1..]));
      ItemsSingle(items[1..]);
      SingleJoin(PrintItem(items[0]), PrintItems(items[1..]));
    }
  }

  lemma {:induction false} GroupsSingle(groups: seq<Group>)
    requires GoodGroups(groups)
    ensures AllSingle(PrintGroups(groups))
  {
    if groups != [] {
      hide GoodGroups, GoodItems, PrintItems;
      GroupsTail(groups);
      GroupsSingle(groups[1..]);
      ItemsSingle(groups[0].items);
      SingleJoin(PrintItems(groups[0].items), [""]);
      SingleJoin([SubHeading(groups[0]), ""], PrintItems(groups[0].items) + [""]);
      SingleJoin(PrintGroup(groups[0]), PrintGroups(groups[1..]));
    }
  }

  lemma DigitIsNoBreak(c: char)
    requires IsDigit(c)
    ensures !IsBreak(c)
  {}

  lemma NumberSingle(s: string)
    requires Digits(s)
    ensures SingleLine(s)
  {
    forall i | 0 <= i < |s| ensures !IsBreak(s[i]) { DigitIsNoBreak(s[i]); }
  }

  lemma HeadingSingle(r: Release)
    requires GoodRelease(r)
    ensures SingleLine(PrintHeading(r.major, r.minor, r.patch, r.date, r.title))
  {
    hide GoodItems, GoodGroups, KeptItems, IsDigit, Trimmed;
    NumberSingle(r.major);
    NumberSingle(r.minor);
    NumberSingle(r.patch);
    forall i | 0 <= i < |r.date| ensures !IsBreak(r.date[i]) {
      if i != 4 && i != 7 { DigitIsNoBreak(r.date[i]); }
    }
    PrintHeadingParts(r.major, r.minor, r.patch, r.date, r.title);
  }

  lemma {:induction false} ChangelogSingle(releases: seq<Release>)
    requires GoodReleases(releases)
    ensures AllSingle(PrintChangelog(releases))
  {
    if releases != [] {
      hide GoodItems, GoodGroups, KeptItems, PrintItems, PrintGroups, PrintHeading, Digits, IsDate, Trimmed;
      var r := releases[0];
      ChangelogSingle(releases[1..]);
      HeadingSingle(r);
      ItemsSingle(r.items);
      GroupsSingle(r.groups);
      SingleJoin([""], PrintGroups(r.groups));
      SingleJoin(PrintItems(r.items), [""] + PrintGroups(r.groups));
      SingleJoin([PrintHeading(r.major, r.minor, r.patch, r.date, r.title), ""],
                 PrintItems(r.items) + ([""] + PrintGroups(r.groups)));
      SingleJoin(PrintRelease(r), PrintChangelog(releases[1..]));
    }
  }

  /** The text of the changelog. */
  function ChangelogFile(releases: seq<Release>): string { Unlines(PrintChangelog(releases)) }

  /** Printing releases with distinct versions as the text of a changelog, sub-headings and
      left-out sub-sections included, and parsing that text gives the same releases back: the
      cleaned texts of the kept items, sorted by version. */
  lemma ChangelogRoundTrip(releases: seq<Release>)
    requires DistinctReleases(releases) && GoodReleases(releases)
    ensures Parsed(SplitLines(ChangelogFile(releases))) == SortByVersion(FinishAll(ToSections(releases)))
  {
    hide SplitLines, GoodReleases, PrintChangelog, ToSections;
    ChangelogSingle(releases);
    SplitSingleLines(PrintChangelog(releases));
    assert AllNew(START.entries, releases);
    ReleasesRead(START, releases);
    assert START.entries + ToSections(releases) == ToSections(releases);
  }

  // ---------------------------------------------------------------- word for word

  /** Cleaning leaves this text as it is. */
  predicate PlainText(s: string) {
    && '[' !in s && '*' !in s && '_' !in s && '`' !in s && Trimmed(s) && |s| <= 220
    && (forall i :: 0 <= i < |s| && IsSpace(s[i]) ==> s[i] == ' ' && (i + 1 < |s| ==> !IsSpace(s[i + 1])))
    && (s == "" || (s[|s| - 1] != ':' && s[|s| - 1] != '：'))
  }

  ghost predicate AllPlain(texts: seq<string>) {
    forall i :: 0 <= i < |texts| ==> PlainText(texts[i]) && texts[i] != ""
  }

  function ItemsOf(r: Release): seq<string> { Joined(r.items) + KeptItems(r.groups) }

  ghost predicate PlainReleases(releases: seq<Release>) {
    forall i :: 0 <= i < |releases| ==> PlainText(releases[i].title) && AllPlain(ItemsOf(releases[i]))
  }

  /** The entry with the release's own texts; what is missing is filled in. */
  function Literal(r: Release): Entry {
    var features := if ItemsOf(r) != [] then ItemsOf(r) else [if r.title != "" then r.title else "本次更新"];
    Printer.Entry(Version(r), r.date, if r.title != "" then r.title else features[0], features)
  }

  function Literals(releases: seq<Release>): (e: seq<Entry>)
    ensures |e| == |releases| && forall i :: 0 <= i < |e| ==> e[i] == Literal(releases[i])
  {
    if releases == [] then [] else [Literal(releases[0])] + Literals(releases[1..])
  }

  lemma PlainStays(s: string)
    requires PlainText(s)
    ensures Clean(s) == s
  {
    CleanKeepsPlainText(s);
  }

  lemma {:induction false} PlainItemsStay(items: seq<string>)
    requires AllPlain(items)
    ensures CleanAll(items) == items
  {
    hide PlainText, Clean;
    if items != [] {
      var tail := items[1..];
      assert AllPlain(tail) by { assert forall i :: 0 <= i < |tail| ==> tail[i] == items[i + 1]; }
      PlainStays(items[0]);
      PlainItemsStay(items[1..]);
    }
  }

  lemma PlainSection(r: Release)
    requires PlainText(r.title) && AllPlain(ItemsOf(r))
    ensures Finish(ToSection(r)) == Literal(r)
  {
    hide Clean, CleanAll, KeptItems, Joined, PlainText, AllPlain;
    PlainStays(r.title);
    PlainItemsStay(ItemsOf(r));
  }

  lemma {:induction false} SortOfAscending(entries: seq<Entry>)
    requires Ascending(entries)
    ensures SortByVersion(entries) == entries
  {
    hide Before;
    if entries != [] {
      assert Ascending(entries[1..]) by {
        forall i, j | 0 <= i < j < |entries| - 1 ensures Before(entries[1..][i], entries[1..][j]) {
          assert Before(entries[i + 1], entries[j + 1]);
        }
      }
      SortOfAscending(entries[1..]);
      if |entries| > 1 { assert Before(entries[0], entries[1]); }
      assert entries == [entries[0]] + entries[1..];
    }
  }

  /** Releases with plain titles and items come back word for word from the text of the printed
      changelog: the same entries in ascending order, and exactly the same list if the versions
      ascend already. */
  lemma PlainChangelogRoundTrip(releases: seq<Release>)
    requires DistinctReleases(releases) && GoodReleases(releases) && PlainReleases(releases)
    ensures var parsed := Parsed(SplitLines(ChangelogFile(releases)));
            && multiset(parsed) == multiset(Literals(releases)) && Ascending(parsed)
            && (Ascending(Literals(releases)) ==> parsed == Literals(releases))
  {
    hide SplitLines, ChangelogFile, GoodReleases, SortByVersion, Finish;
    hide Literal, ToSection, AllPlain, PlainText, Before;
    ChangelogRoundTrip(releases);
    forall i | 0 <= i < |releases| ensures Finish(ToSection(releases[i])) == Literal(releases[i]) {
      PlainSection(releases[i]);
    }
    assert FinishAll(ToSections(releases)) == Literals(releases);
    SortIsSorted(Literals(releases));
    if Ascending(Literals(releases)) { SortOfAscending(Literals(releases)); }
  }
}
