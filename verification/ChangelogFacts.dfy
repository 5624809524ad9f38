/**
 What every parsed changelog is like: which releases it contains and in which order, and that
 repeated releases leave no trace.
 */
module ChangelogFacts {
  import opened Text
  import opened Wrappers
  import opened ChangelogText
  import opened Changelog

  // ---------------------------------------------------------------- the sort

  lemma {:induction false} KeyLeqTotal(a: seq<nat>, b: seq<nat>)
    ensures KeyLeq(a, b) || KeyLeq(b, a)
  {
    if a != [] && b != [] {
      KeyLeqTotal(a[1..], b[1..]);
    }
  }

  lemma {:induction false} KeyLeqTransitive(a: seq<nat>, b: seq<nat>, c: seq<nat>)
    requires KeyLeq(a, b) && KeyLeq(b, c)
    ensures KeyLeq(a, c)
  {
    if a != [] && b != [] && c != [] && a[0] == b[0] == c[0] {
      KeyLeqTransitive(a[1..], b[1..], c[1..]);
    }
  }

  ghost predicate Ascending(s: seq<Entry>) {
    forall i, j :: 0 <= i < j < |s| ==> Before(s[i], s[j])
  }

  lemma {:induction false} InsertPermutes(e: Entry, s: seq<Entry>)
    ensures multiset(Insert(e, s)) == multiset{e} + multiset(s)
  {
    hide Before;
    if s != [] && !Before(e, s[0]) {
      InsertPermutes(e, s[1..]);
      assert s == [s[0]] + s[1..];
    }
  }

  lemma {:induction false} InsertSorts(e: Entry, s: seq<Entry>)
    requires Ascending(s)
    ensures Ascending(Insert(e, s))
  {
    if s == [] {
    } else if Before(e, s[0]) {
      forall i | 0 <= i < |s| ensures Before(e, s[i]) {
        if i > 0 { KeyLeqTransitive(Key(e.version), Key(s[0].version), Key(s[i].version)); }
      }
    } else {
      InsertSorts(e, s[1..]);
      KeyLeqTotal(Key(e.version), Key(s[0].version));
      InsertPermutes(e, s[1..]);
      var r := Insert(e, s[1..]);
      forall i | 0 <= i < |r| ensures Before(s[0], r[i]) {
        assert r[i] in multiset(r);
        assert r[i] == e || r[i] in s[1..];
      }
    }
  }

  /** The sort only reorders, and its result ascends. */
  lemma {:induction false} SortIsSorted(entries: seq<Entry>)
    ensures Ascending(SortByVersion(entries)) && multiset(SortByVersion(entries)) == multiset(entries)
  {
    if entries != [] {
      SortIsSorted(entries[1..]);
      InsertSorts(entries[0], SortByVersion(entries[1..]));
      InsertPermutes(entries[0], SortByVersion(entries[1..]));
      assert entries == [entries[0]] + entries[1..];
    }
  }

  /** The entries with a given numeric version, in order. */
  function WithKey(entries: seq<Entry>, key: seq<nat>): seq<Entry> {
    if entries == [] then []
    else (if Key(entries[0].version) == key then [entries[0]] else []) + WithKey(entries[1..], key)
  }

  lemma {:induction false} KeyLeqAntisymmetric(a: seq<nat>, b: seq<nat>)
    requires KeyLeq(a, b) && KeyLeq(b, a)
    ensures a == b
  {
    if a != [] && b != [] {
      KeyLeqAntisymmetric(a[1..], b[1..]);
      assert a == [a[0]] + a[1..] && b == [b[0]] + b[1..];
    }
  }

  lemma {:induction false} KeyLeqReflexive(a: seq<nat>)
    ensures KeyLeq(a, a)
  {
    if a != [] { KeyLeqReflexive(a[1..]); }
  }

  lemma {:induction false} InsertIsStable(e: Entry, s: seq<Entry>, key: seq<nat>)
    ensures WithKey(Insert(e, s), key) == WithKey([e] + s, key)
  {
    hide Key, KeyLeq;
    assert ([e] + s)[1..] == s;
    if s != [] && !Before(e, s[0]) {
      InsertIsStable(e, s[1..], key);
      assert ([e] + s[1..])[1..] == s[1..];
      if Key(e.version) == Key(s[0].version) { KeyLeqReflexive(Key(e.version)); }
    }
  }

  /** The sort is stable: releases with equal numeric versions keep their order. */
  lemma {:induction false} SortIsStable(entries: seq<Entry>, key: seq<nat>)
    ensures WithKey(SortByVersion(entries), key) == WithKey(entries, key)
  {
    if entries != [] {
      SortIsStable(entries[1..], key);
      InsertIsStable(entries[0], SortByVersion(entries[1..]), key);
      var sorted := SortByVersion(entries[1..]);
      assert ([entries[0]] + sorted)[1..] == sorted;
    }
  }

  // ---------------------------------------------------------------- which releases

  /** The version headings outside fences, in order. */
  function Headings(visible: seq<string>): seq<Heading> {
    if visible == [] then []
    else (match MatchHeading(visible[0]) case Some(h) => [h] case None => []) + Headings(visible[1..])
  }

  ghost predicate HasVersion(hs: seq<Heading>, version: string) {
    exists i :: 0 <= i < |hs| && hs[i].version == version
  }

  /** `known` followed by the headings of `hs` whose version has not come before. */
  ghost function FirstOfEach(known: seq<Heading>, hs: seq<Heading>): seq<Heading>
    decreases |hs|
  {
    if hs == [] then known
    else FirstOfEach(if HasVersion(known, hs[0].version) then known else known + [hs[0]], hs[1..])
  }

  /** The sections stand for these headings. */
  ghost predicate StandsFor(sections: seq<Section>, hs: seq<Heading>) {
    && |sections| == |hs|
    && forall i :: 0 <= i < |hs| ==>
         && sections[i].version == hs[i].version && sections[i].date == hs[i].date
         && sections[i].description == Clean(hs[i].title)
         && |sections[i].features| <= MAX_FEATURES
  }

  lemma KnownIff(sections: seq<Section>, known: seq<Heading>, version: string)
    requires StandsFor(sections, known)
    ensures Known(sections, version) <==> HasVersion(known, version)
  {
    if Known(sections, version) {
      var i :| 0 <= i < |sections| && sections[i].version == version;
      assert known[i].version == version;
    }
    if HasVersion(known, version) {
      var i :| 0 <= i < |known| && known[i].version == version;
      assert sections[i].version == version;
    }
  }

  lemma SectionLineStands(p: Parser, line: string, known: seq<Heading>)
    requires StandsFor(p.entries, known)
    ensures StandsFor(SectionLine(p, line).entries, known)
  {
    hide MatchHeading, Clean, MatchBullet, IsNested;
    if p.entries != [] {
      var cur := p.entries[|p.entries| - 1];
      assert |cur.features| <= MAX_FEATURES;
      assert |BodyLine(Body(cur.features, p.skipNested), line).features| <= MAX_FEATURES;
    }
  }

  lemma VisibleLineHeadings(p: Parser, line: string, known: seq<Heading>)
    requires StandsFor(p.entries, known)
    ensures StandsFor(VisibleLine(p, line).entries,
              match MatchHeading(line)
              case Some(h) => if HasVersion(known, h.version) then known else known + [h]
              case None => known)
  {
    hide MatchHeading, Clean, SectionLine, IsMeta, Known, HasVersion;
    match MatchHeading(line)
    case Some(h) => KnownIff(p.entries, known, h.version);
    case None => SectionLineStands(p, line, known);
  }

  lemma {:induction false} VisibleLinesHeadings(p: Parser, visible: seq<string>, known: seq<Heading>)
    requires StandsFor(p.entries, known)
    ensures StandsFor(VisibleLines(p, visible).entries, FirstOfEach(known, Headings(visible)))
    decreases |visible|
  {
    hide MatchHeading, VisibleLine, StandsFor;
    if visible != [] {
      VisibleLineHeadings(p, visible[0], known);
      match MatchHeading(visible[0])
      case Some(h) =>
        assert Headings(visible)[1..] == Headings(visible[1..]);
        VisibleLinesHeadings(VisibleLine(p, visible[0]), visible[1..],
                             if HasVersion(known, h.version) then known else known + [h]);
      case None =>
        assert Headings(visible) == Headings(visible[1..]);
        VisibleLinesHeadings(VisibleLine(p, visible[0]), visible[1..], known);
    }
  }

  ghost predicate DistinctVersions(hs: seq<Heading>) {
    forall i, j :: 0 <= i < j < |hs| ==> hs[i].version != hs[j].version
  }

  /** `h` is the first heading of its version in `hs`. */
  ghost predicate IsFirst(h: Heading, hs: seq<Heading>) {
    exists i :: 0 <= i < |hs| && hs[i] == h && forall j :: 0 <= j < i ==> hs[j].version != h.version
  }

  /** What `known` is for the headings seen so far. */
  ghost predicate FirstsOf(known: seq<Heading>, past: seq<Heading>) {
    && DistinctVersions(known)
    && (forall i :: 0 <= i < |known| ==> IsFirst(known[i], past))
    && (forall i :: 0 <= i < |past| ==> HasVersion(known, past[i].version))
  }

  lemma StaysFirst(past: seq<Heading>, first: Heading, h: Heading)
    requires IsFirst(first, past)
    ensures IsFirst(first, past + [h])
  {
    var k :| 0 <= k < |past| && past[k] == first && forall j :: 0 <= j < k ==> past[j].version != first.version;
    assert (past + [h])[k] == first;
  }

  lemma FirstsStep(past: seq<Heading>, known: seq<Heading>, h: Heading)
    requires FirstsOf(known, past)
    ensures FirstsOf(if HasVersion(known, h.version) then known else known + [h], past + [h])
  {
    var past' := past + [h];
    var known' := if HasVersion(known, h.version) then known else known + [h];
    forall i | 0 <= i < |known'| ensures IsFirst(known'[i], past') {
      if i < |known| {
        StaysFirst(past, known[i], h);
      } else {
        assert past'[|past|] == h;
        forall j | 0 <= j < |past| ensures past'[j].version != h.version {
          assert HasVersion(known, past[j].version);
        }
      }
    }
    forall i | 0 <= i < |past'| ensures HasVersion(known', past'[i].version) {
      if i < |past| {
        var k :| 0 <= k < |known| && known[k].version == past[i].version;
        assert known'[k].version == past'[i].version;
      } else if !HasVersion(known, h.version) {
        assert known'[|known|].version == h.version;
      }
    }
  }

  lemma {:induction false} FirstOfEachFacts(past: seq<Heading>, known: seq<Heading>, hs: seq<Heading>)
    requires FirstsOf(known, past)
    ensures FirstsOf(FirstOfEach(known, hs), past + hs)
    decreases |hs|
  {
    hide FirstsOf, HasVersion;
    if hs == [] {
      assert past + hs == past;
    } else {
      assert past + hs == past + [hs[0]] + hs[1..];
      FirstsStep(past, known, hs[0]);
      FirstOfEachFacts(past + [hs[0]], if HasVersion(known, hs[0].version) then known else known + [hs[0]], hs[1..]);
    }
  }

  lemma FirstOfEachFrom(hs: seq<Heading>)
    ensures FirstsOf(FirstOfEach([], hs), hs)
  {
    FirstOfEachFacts([], [], hs);
    assert [] + hs == hs;
  }

  lemma ReleasesOf(lines: seq<string>)
    ensures StandsFor(Lines(START, lines).entries, FirstOfEach([], Headings(Visible(lines, false))))
  {
    LinesSeeVisible(START, lines);
    VisibleLinesHeadings(START, Visible(lines, false), []);
  }

  ghost predicate GoodEntry(e: Entry) {
    && 1 <= |e.features| <= 12
    && (forall i :: 0 <= i < |e.features| ==> 1 <= |e.features[i]| <= 221)
    && 1 <= |e.description| <= 221
  }

  lemma FinishIsGood(s: Section)
    requires |s.features| <= MAX_FEATURES && |s.description| <= MAX_FEATURE_LEN + 1
    ensures GoodEntry(Finish(s))
  {}

  function VersionSet(entries: seq<Entry>): set<string> {
    if entries == [] then {} else {entries[0].version} + VersionSet(entries[1..])
  }

  lemma {:induction false} VersionSetMembers(entries: seq<Entry>, version: string)
    ensures version in VersionSet(entries) <==> exists i :: 0 <= i < |entries| && entries[i].version == version
  {
    if entries != [] {
      VersionSetMembers(entries[1..], version);
      if version in VersionSet(entries[1..]) {
        var k :| 0 <= k < |entries[1..]| && entries[1..][k].version == version;
        assert entries[k + 1].version == version;
      } else {
        forall i | 0 < i < |entries| ensures entries[i].version != version {
          assert entries[1..][i - 1].version != version;
        }
      }
    }
  }

  ghost predicate DistinctEntries(entries: seq<Entry>) {
    forall i, j :: 0 <= i < j < |entries| ==> entries[i].version != entries[j].version
  }

  /** Versions are distinct exactly when there are as many as entries. */
  lemma {:induction false} DistinctIffCounted(entries: seq<Entry>)
    ensures |VersionSet(entries)| <= |entries|
    ensures DistinctEntries(entries) <==> |VersionSet(entries)| == |entries|
  {
    if entries != [] {
      var tail := entries[1..];
      DistinctIffCounted(tail);
      VersionSetMembers(tail, entries[0].version);
      if entries[0].version in VersionSet(tail) {
        assert VersionSet(entries) == VersionSet(tail);
        var k :| 0 <= k < |tail| && tail[k].version == entries[0].version;
        assert entries[k + 1].version == entries[0].version;
      } else {
        forall j | 0 < j < |entries| ensures entries[j].version != entries[0].version {
          assert tail[j - 1].version != entries[0].version;
        }
        DistinctTail(entries);
      }
    }
  }

  lemma DistinctTail(entries: seq<Entry>)
    requires entries != [] && forall j :: 0 < j < |entries| ==> entries[j].version != entries[0].version
    ensures DistinctEntries(entries) <==> DistinctEntries(entries[1..])
  {
    var tail := entries[1..];
    if DistinctEntries(tail) {
      forall i, j | 0 <= i < j < |entries| ensures entries[i].version != entries[j].version {
        if i > 0 { assert tail[i - 1].version != tail[j - 1].version; }
      }
    }
  }

  lemma {:induction false} InsertKeepsVersions(e: Entry, s: seq<Entry>)
    ensures VersionSet(Insert(e, s)) == {e.version} + VersionSet(s) && |Insert(e, s)| == |s| + 1
  {
    if s != [] {
      if Before(e, s[0]) {
        assert ([e] + s)[1..] == s;
      } else {
        InsertKeepsVersions(e, s[1..]);
        assert ([s[0]] + Insert(e, s[1..]))[1..] == Insert(e, s[1..]);
      }
    }
  }

  lemma {:induction false} SortKeepsVersions(entries: seq<Entry>)
    ensures VersionSet(SortByVersion(entries)) == VersionSet(entries)
    ensures |SortByVersion(entries)| == |entries|
  {
    if entries != [] {
      SortKeepsVersions(entries[1..]);
      InsertKeepsVersions(entries[0], SortByVersion(entries[1..]));
    }
  }

  /** For every changelog: versions are pairwise distinct and ascend numerically, and every
      entry has one to twelve non-empty features and a description of bounded length. */
  lemma ParsedIsWellFormed(lines: seq<string>)
    ensures Ascending(Parsed(lines)) && DistinctEntries(Parsed(lines))
    ensures forall i :: 0 <= i < |Parsed(lines)| ==> GoodEntry(Parsed(lines)[i])
  {
    SortIsSorted(FinishAll(Lines(START, lines).entries));
    ParsedIsDistinct(lines);
    forall i | 0 <= i < |Parsed(lines)| ensures GoodEntry(Parsed(lines)[i]) { ParsedIsGood(lines, i); }
  }

  lemma ParsedIsDistinct(lines: seq<string>)
    ensures DistinctEntries(Parsed(lines))
  {
    hide FirstOfEach, Headings, Visible, Lines, SortByVersion, Clean;
    var finished := FinishAll(Lines(START, lines).entries);
    ReleasesOf(lines);
    FirstOfEachFrom(Headings(Visible(lines, false)));
    SortKeepsVersions(finished);
    DistinctIffCounted(finished);
    DistinctIffCounted(Parsed(lines));
  }

  lemma ParsedIsGood(lines: seq<string>, i: nat)
    requires i < |Parsed(lines)|
    ensures GoodEntry(Parsed(lines)[i])
  {
    var sections := Lines(START, lines).entries;
    var finished := FinishAll(sections);
    ReleasesOf(lines);
    SortIsSorted(finished);
    assert Parsed(lines)[i] in multiset(Parsed(lines));
    var k :| 0 <= k < |finished| && finished[k] == Parsed(lines)[i];
    FinishIsGood(sections[k]);
  }

  lemma SectionsCoverHeadings(hs: seq<Heading>, first: seq<Heading>, sections: seq<Section>, version: string)
    requires StandsFor(sections, first)
    requires FirstsOf(first, hs)
    ensures HasVersion(hs, version) <==> HasVersion(first, version)
    ensures HasVersion(first, version)
            <==> exists k :: 0 <= k < |FinishAll(sections)| && FinishAll(sections)[k].version == version
  {
    var finished := FinishAll(sections);
    if HasVersion(hs, version) {
      var i :| 0 <= i < |hs| && hs[i].version == version;
    }
    if HasVersion(first, version) {
      var k :| 0 <= k < |first| && first[k].version == version;
      assert IsFirst(first[k], hs) && finished[k].version == version;
    }
    if k :| 0 <= k < |finished| && finished[k].version == version {
      assert first[k].version == version;
    }
  }

  /** Every visible version heading has its release in the result, and nothing else has. */
  lemma ParsedCoversHeadings(lines: seq<string>, version: string)
    ensures HasVersion(Headings(Visible(lines, false)), version)
            <==> exists i :: 0 <= i < |Parsed(lines)| && Parsed(lines)[i].version == version
  {
    hide HasVersion, FinishAll, Lines, SortByVersion, VersionSet, StandsFor, FirstsOf, FirstOfEach;
    var hs := Headings(Visible(lines, false));
    var sections := Lines(START, lines).entries;
    var finished := FinishAll(sections);
    ReleasesOf(lines);
    FirstOfEachFrom(hs);
    SectionsCoverHeadings(hs, FirstOfEach([], hs), sections, version);
    SortKeepsVersions(finished);
    VersionSetMembers(finished, version);
    VersionSetMembers(Parsed(lines), version);
  }

  /** Of repeated sections the first is kept: an entry carries its date, and its title unless
      that is empty. */
  lemma ParsedKeepsFirst(lines: seq<string>, i: nat)
    requires i < |Parsed(lines)|
    ensures var e := Parsed(lines)[i];
            exists h :: IsFirst(h, Headings(Visible(lines, false))) && h.version == e.version && h.date == e.date
                        && (Clean(h.title) != "" ==> e.description == Clean(h.title))
  {
    hide FirstOfEach, Headings, Visible, Lines, SortByVersion, Clean, IsFirst;
    var hs := Headings(Visible(lines, false));
    var first := FirstOfEach([], hs);
    var finished := FinishAll(Lines(START, lines).entries);
    ReleasesOf(lines);
    FirstOfEachFrom(hs);
    SortIsSorted(finished);
    assert Parsed(lines)[i] in multiset(Parsed(lines));
    var k :| 0 <= k < |finished| && finished[k] == Parsed(lines)[i];
    assert IsFirst(first[k], hs);
  }

  // ---------------------------------------------------------------- repeated releases

  /** The two states read every later line alike: the flags of a closed section do not matter. */
  ghost predicate SameFuture(p: Parser, q: Parser) {
    && p.entries == q.entries && p.open == q.open && p.inFence == q.inFence
    && (p.open ==> p.skipSection == q.skipSection && p.skipNested == q.skipNested)
  }

  lemma SameFutureLine(p: Parser, q: Parser, raw: string)
    requires SameFuture(p, q)
    ensures SameFuture(Line(p, raw), Line(q, raw))
  {
    hide MatchHeading, IsMeta, Clean, BodyLine, Known, IsFence;
  }

  lemma {:induction false} SameFutureLines(p: Parser, q: Parser, lines: seq<string>)
    requires SameFuture(p, q)
    ensures SameFuture(Lines(p, lines), Lines(q, lines))
    decreases |lines|
  {
    hide SameFuture, Line;
    if lines != [] {
      SameFutureLine(p, q, lines[0]);
      SameFutureLines(Line(p, lines[0]), Line(q, lines[0]), lines[1..]);
    }
  }

  ghost predicate NoHeadings(visible: seq<string>) {
    forall i :: 0 <= i < |visible| ==> MatchHeading(visible[i]) == None
  }

  lemma {:induction false} ClosedSectionReadsNothing(p: Parser, visible: seq<string>)
    requires !p.open && NoHeadings(visible)
    ensures var p' := VisibleLines(p, visible); p'.entries == p.entries && !p'.open && p'.inFence == p.inFence
    decreases |visible|
  {
    hide MatchHeading, IsMeta, BodyLine;
    if visible != [] { ClosedSectionReadsNothing(VisibleLine(p, visible[0]), visible[1..]); }
  }

  /** A release whose version is known already, with everything up to the next heading. */
  ghost predicate RepeatedRelease(entries: seq<Section>, lines: seq<string>) {
    && lines != [] && MatchHeading(RStrip(lines[0])).Some?
    && Known(entries, MatchHeading(RStrip(lines[0])).value.version)
    && NoHeadings(Visible(lines[1..], false)) && !FenceAfter(lines[1..], false)
  }

  lemma RepeatedReleaseKeepsEntries(p: Parser, lines: seq<string>)
    requires !p.inFence && RepeatedRelease(p.entries, lines)
    ensures var p' := Lines(p, lines); p'.entries == p.entries && !p'.open && !p'.inFence
  {
    hide MatchHeading, NoHeadings, Visible, FenceAfter, VisibleLines, Clean, IsMeta, Known;
    assert MatchHeading(RStrip(lines[0])).Some? && !IsFence(lines[0]) by { HeadingIsNoFence(lines[0]); }
    var p1 := Line(p, lines[0]);
    assert p1.entries == p.entries && !p1.open && !p1.inFence;
    LinesSeeVisible(p1, lines[1..]);
    ClosedSectionReadsNothing(p1, Visible(lines[1..], false));
  }

  lemma HeadingIsNoFence(raw: string)
    requires MatchHeading(RStrip(raw)).Some? || "## " <= RStrip(raw)
    ensures !IsFence(raw)
  {
    assert RStrip(raw)[0] == '#';
  }

  /** Nothing follows, or a line that starts a release or ends the current one. */
  ghost predicate StartsAfresh(lines: seq<string>) {
    lines == [] || MatchHeading(RStrip(lines[0])).Some? || "## " <= RStrip(lines[0])
  }

  lemma AfreshLine(p: Parser, q: Parser, raw: string)
    requires p.entries == q.entries && !p.inFence && !q.inFence
    requires MatchHeading(RStrip(raw)).Some? || "## " <= RStrip(raw)
    ensures SameFuture(Line(p, raw), Line(q, raw))
  {
    hide MatchHeading, IsMeta, Clean, BodyLine, Known, IsFence;
    HeadingIsNoFence(raw);
  }

  lemma AfreshLines(p: Parser, q: Parser, lines: seq<string>)
    requires p.entries == q.entries && !p.inFence && !q.inFence && StartsAfresh(lines)
    ensures Lines(p, lines).entries == Lines(q, lines).entries
  {
    hide MatchHeading, Line;
    if lines != [] {
      AfreshLine(p, q, lines[0]);
      SameFutureLines(Line(p, lines[0]), Line(q, lines[0]), lines[1..]);
    }
  }

  lemma SeenVersionIsKnown(before: seq<string>, version: string)
    requires HasVersion(Headings(Visible(before, false)), version)
    ensures Known(Lines(START, before).entries, version)
  {
    hide Headings, Visible, Lines, FirstOfEach, Known;
    var hs := Headings(Visible(before, false));
    var first := FirstOfEach([], hs);
    ReleasesOf(before);
    FirstOfEachFrom(hs);
    var i :| 0 <= i < |hs| && hs[i].version == version;
    assert HasVersion(first, hs[i].version);
    KnownIff(Lines(START, before).entries, first, version);
  }

  /** A release whose version has a visible heading further up can be put or left out, with its
      whole body, wherever a section ends: neither its date nor its title nor its items show. */
  lemma RepeatedReleaseIsInvisible(before: seq<string>, repeated: seq<string>, after: seq<string>)
    requires !FenceAfter(before, false) && StartsAfresh(after)
    requires repeated != [] && MatchHeading(RStrip(repeated[0])).Some?
    requires HasVersion(Headings(Visible(before, false)), MatchHeading(RStrip(repeated[0])).value.version)
    requires NoHeadings(Visible(repeated[1..], false)) && !FenceAfter(repeated[1..], false)
    ensures Parsed(before + repeated + after) == Parsed(before + after)
  {
    hide Lines, Visible, FenceAfter, MatchHeading, Headings, HasVersion, NoHeadings, Known, StartsAfresh, SortByVersion;
    var p := Lines(START, before);
    SeenVersionIsKnown(before, MatchHeading(RStrip(repeated[0])).value.version);
    LinesSeeVisible(START, before);
    assert !p.inFence;
    RepeatedReleaseKeepsEntries(p, repeated);
    AfreshLines(Lines(p, repeated), p, after);
    LinesAppend(START, before + repeated, after);
    LinesAppend(START, before, repeated);
    LinesAppend(START, before, after);
  }
}
