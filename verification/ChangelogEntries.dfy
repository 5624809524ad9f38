/**
 What a parsed release shows: which texts become its features and its description, and how
 versions compare.

 Main results: the features of every entry are the non-empty cleaned items of its section, in
 order (`ParsedShowsCleanedItems`), and versions compare as the triples of their numbers
 (`VersionsCompareNumerically`).
 */
module ChangelogEntries {
  import opened Text
  import opened Wrappers
  import opened ChangelogText
  import opened Changelog
  import opened ChangelogFacts
  import opened Decimal

  // ---------------------------------------------------------------- features and description

  ghost predicate Increasing(s: seq<nat>) { forall i, j :: 0 <= i < j < |s| ==> s[i] < s[j] }

  /** The positions of exactly those items of which cleaning leaves something, in order. */
  ghost predicate Picks(pick: seq<nat>, raw: seq<string>) {
    && Increasing(pick)
    && forall i :: i in pick <==> 0 <= i < |raw| && Clean(raw[i]) != ""
  }

  /** The texts are the non-empty cleaned items, in order, none missing and none added. */
  ghost predicate CleanedItems(texts: seq<string>, raw: seq<string>) {
    exists pick :: Picks(pick, raw) && AreCleaned(texts, raw, pick)
  }

  ghost predicate AreCleaned(texts: seq<string>, raw: seq<string>, pick: seq<nat>) {
    && |texts| == |pick|
    && forall k :: 0 <= k < |pick| ==> pick[k] < |raw| && texts[k] == Clean(raw[pick[k]])
  }

  ghost predicate NothingLeft(raw: seq<string>) { forall i :: 0 <= i < |raw| ==> Clean(raw[i]) == "" }

  function Shifted(pick: seq<nat>): (r: seq<nat>)
    ensures |r| == |pick| && forall k :: 0 <= k < |r| ==> r[k] == pick[k] + 1
  {
    if pick == [] then [] else [pick[0] + 1] + Shifted(pick[1..])
  }

  lemma ShiftedMembers(pick: seq<nat>, i: nat)
    ensures i in Shifted(pick) <==> i > 0 && i - 1 in pick
  {
    if i in Shifted(pick) { var k :| 0 <= k < |pick| && Shifted(pick)[k] == i; }
    if i > 0 && i - 1 in pick {
      var k :| 0 <= k < |pick| && pick[k] == i - 1;
      assert Shifted(pick)[k] == i;
    }
  }

  /** The positions in a list with one more item in front. */
  function WithFirst(kept: bool, rest: seq<nat>): seq<nat> { (if kept then [0] else []) + Shifted(rest) }

  lemma PicksFirst(raw: seq<string>, rest: seq<nat>)
    requires raw != [] && Picks(rest, raw[1..])
    ensures Picks(WithFirst(Clean(raw[0]) != "", rest), raw)
  {
    hide Clean;
    var pick := WithFirst(Clean(raw[0]) != "", rest);
    forall i: nat ensures i in pick <==> i < |raw| && Clean(raw[i]) != "" {
      ShiftedMembers(rest, i);
      if i > 0 { assert i - 1 in rest <==> i - 1 < |raw[1..]| && Clean(raw[1..][i - 1]) != ""; }
    }
  }

  lemma CleanedFirst(texts: seq<string>, raw: seq<string>, rest: seq<nat>)
    requires raw != [] && AreCleaned(texts, raw[1..], rest)
    ensures AreCleaned((if Clean(raw[0]) == "" then [] else [Clean(raw[0])]) + texts, raw,
                       WithFirst(Clean(raw[0]) != "", rest))
  {
    hide Clean;
    var shifted := Shifted(rest);
    forall k | 0 <= k < |shifted| ensures shifted[k] < |raw| && texts[k] == Clean(raw[shifted[k]]) {
      assert rest[k] < |raw[1..]| && raw[1..][rest[k]] == raw[rest[k] + 1];
    }
  }

  lemma {:induction false} CleanAllPicks(raw: seq<string>) returns (pick: seq<nat>)
    ensures Picks(pick, raw) && AreCleaned(CleanAll(raw), raw, pick)
  {
    if raw == [] {
      pick := [];
    } else {
      hide Clean, Picks, AreCleaned, WithFirst;
      var rest := CleanAllPicks(raw[1..]);
      PicksFirst(raw, rest);
      CleanedFirst(CleanAll(raw[1..]), raw, rest);
      pick := WithFirst(Clean(raw[0]) != "", rest);
    }
  }

  lemma {:induction false} NothingLeftIff(raw: seq<string>)
    ensures CleanAll(raw) == [] <==> NothingLeft(raw)
  {
    hide Clean;
    if raw != [] {
      NothingLeftIff(raw[1..]);
      if NothingLeft(raw) {
        forall i | 0 <= i < |raw[1..]| ensures Clean(raw[1..][i]) == "" { assert raw[1..][i] == raw[i + 1]; }
      }
      if Clean(raw[0]) == "" && NothingLeft(raw[1..]) {
        forall i | 0 <= i < |raw| ensures Clean(raw[i]) == "" {
          if i > 0 { assert raw[1..][i - 1] == raw[i]; }
        }
      }
    }
  }

  /** What the entry of a section shows. */
  ghost predicate Shows(e: Entry, s: Section) {
    && e.version == s.version && e.date == s.date
    && (if NothingLeft(s.features)
        then e.features == [if s.description != "" then s.description else "本次更新"]
        else CleanedItems(e.features, s.features))
    && e.features != [] && e.description == if s.description != "" then s.description else e.features[0]
  }

  lemma FinishShows(s: Section)
    ensures Shows(Finish(s), s)
  {
    hide Clean;
    NothingLeftIff(s.features);
    var pick := CleanAllPicks(s.features);
    assert CleanedItems(CleanAll(s.features), s.features);
  }

  lemma SortKeepsMembers(entries: seq<Entry>)
    ensures |SortByVersion(entries)| == |entries|
    ensures forall e :: e in SortByVersion(entries) <==> e in entries
  {
    hide SortByVersion;
    SortIsSorted(entries);
    SortKeepsVersions(entries);
    forall e ensures e in SortByVersion(entries) <==> e in entries {
      assert e in SortByVersion(entries) <==> e in multiset(SortByVersion(entries));
      assert e in entries <==> e in multiset(entries);
    }
  }

  ghost predicate EachShown(entries: seq<Entry>, sections: seq<Section>) {
    forall s :: s in sections ==> exists e :: e in entries && Shows(e, s)
  }

  ghost predicate NothingElseShown(entries: seq<Entry>, sections: seq<Section>) {
    forall e :: e in entries ==> exists s :: s in sections && Shows(e, s)
  }

  /** For every changelog: the result has one entry for each section read, and its features are
      the non-empty cleaned items of that section, in order; without any they are the one
      description, or the default text. The description is the cleaned title, or the first
      feature if that is empty. */
  lemma ParsedShowsCleanedItems(lines: seq<string>)
    ensures var sections := Lines(START, lines).entries;
            && |Parsed(lines)| == |sections|
            && EachShown(Parsed(lines), sections) && NothingElseShown(Parsed(lines), sections)
  {
    hide Lines, SortByVersion, Shows, Finish;
    var sections := Lines(START, lines).entries;
    var finished := FinishAll(sections);
    SortKeepsMembers(finished);
    forall s | s in sections ensures exists e :: e in Parsed(lines) && Shows(e, s) {
      var i :| 0 <= i < |sections| && sections[i] == s;
      FinishShows(s);
      assert finished[i] in Parsed(lines) && Shows(finished[i], s);
    }
    forall e | e in Parsed(lines) ensures exists s :: s in sections && Shows(e, s) {
      var i :| 0 <= i < |finished| && finished[i] == e;
      FinishShows(sections[i]);
      assert sections[i] in sections;
    }
  }

  // ---------------------------------------------------------------- the order of versions

  lemma {:induction false} NumberOfNumeral(d: seq<nat>)
    requires forall i :: 0 <= i < |d| ==> d[i] < 10
    ensures Number(Numeral(d)) == ValueOf(d)
  {
    if d != [] {
      var n := |d| - 1;
      NumberOfNumeral(d[..n]);
      assert Numeral(d)[..n] == Numeral(d[..n]);
    }
  }

  function Decimals(n: nat): string { Numeral(DigitsOf(n)) }

  lemma {:induction false} DotAfter(s: string, rest: string)
    requires '.' !in s
    ensures IndexOf(s + ['.'] + rest, '.') == |s|
  {
    if s == "" {
      assert s + ['.'] + rest == ['.'] + rest;
    } else {
      assert (s + ['.'] + rest)[1..] == s[1..] + ['.'] + rest;
      DotAfter(s[1..], rest);
    }
  }

  lemma KeyFirst(n: nat, rest: string)
    ensures Key(Decimals(n) + ['.'] + rest) == [n] + Key(rest)
  {
    hide Number, IndexOf;
    var version := Decimals(n) + ['.'] + rest;
    DotAfter(Decimals(n), rest);
    assert version[..|Decimals(n)|] == Decimals(n) && version[|Decimals(n)| + 1..] == rest;
    NumberOfNumeral(DigitsOf(n));
    DigitsRoundTrip(n);
  }

  lemma KeyLast(n: nat)
    ensures Key(Decimals(n)) == [n]
  {
    hide Number, IndexOf, DigitsOf, ValueOf;
    var s := Decimals(n);
    assert s[..|s|] == s;
    NumberOfNumeral(DigitsOf(n));
    DigitsRoundTrip(n);
  }

  function VersionText(major: nat, minor: nat, patch: nat): string {
    Decimals(major) + ['.'] + (Decimals(minor) + ['.'] + Decimals(patch))
  }

  lemma KeyOfVersion(major: nat, minor: nat, patch: nat)
    ensures Key(VersionText(major, minor, patch)) == [major, minor, patch]
  {
    hide Key, Decimals;
    KeyFirst(major, Decimals(minor) + ['.'] + Decimals(patch));
    KeyFirst(minor, Decimals(patch));
    KeyLast(patch);
  }

  /** Entries are ordered by the numbers of their versions, so that 1.10.0 comes after 1.9.0. */
  lemma VersionsCompareNumerically(a: Entry, b: Entry, x: (nat, nat, nat), y: (nat, nat, nat))
    requires a.version == VersionText(x.0, x.1, x.2) && b.version == VersionText(y.0, y.1, y.2)
    ensures Before(a, b) <==> x.0 < y.0 || (x.0 == y.0 && (x.1 < y.1 || (x.1 == y.1 && x.2 <= y.2)))
  {
    hide Key, VersionText;
    KeyOfVersion(x.0, x.1, x.2);
    KeyOfVersion(y.0, y.1, y.2);
    var k, l := [x.0, x.1, x.2], [y.0, y.1, y.2];
    assert k[1..] == [x.1, x.2] && l[1..] == [y.1, y.2] && k[1..][1..] == [x.2] && l[1..][1..] == [y.2];
    assert [x.2][1..] == [] && [y.2][1..] == [];
    assert KeyLeq([x.2], [y.2]) <==> x.2 <= y.2;
    assert KeyLeq(k[1..], l[1..]) <==> x.1 < y.1 || (x.1 == y.1 && x.2 <= y.2);
  }
}
