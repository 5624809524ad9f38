/**
 The whole way from the changelog to the value of the generated Python module.

 Main result: the module evaluates to exactly the parsed releases if and only if no first
 heading of a version has a digit beyond U+FFFF (`GeneratedModuleIsTheChangelogIff`).
 */
module GeneratedModule {
  import opened Text
  import opened Wrappers
  import opened ChangelogText
  import opened Changelog
  import opened ChangelogFacts
  import Printer = UpdateLogPrinter
  import Python = PythonLiteral
  import RoundTrip = UpdateLogRoundTrip

  /** No character of the version and the date lies beyond U+FFFF. */
  ghost predicate Narrow(h: Heading) {
    Python.Readable(h.version, true) && Python.Readable(h.date, true)
  }

  /** The headings that give an entry its version and date are narrow. */
  ghost predicate FirstHeadingsNarrow(hs: seq<Heading>) {
    forall h :: IsFirst(h, hs) ==> Narrow(h)
  }

  lemma FirstIsUnique(h: Heading, g: Heading, hs: seq<Heading>)
    requires IsFirst(h, hs) && IsFirst(g, hs) && h.version == g.version
    ensures h == g
  {
    var i :| 0 <= i < |hs| && hs[i] == h && forall j :: 0 <= j < i ==> hs[j].version != h.version;
    var k :| 0 <= k < |hs| && hs[k] == g && forall j :: 0 <= j < k ==> hs[j].version != g.version;
    assert !(i < k) && !(k < i);
  }

  /** Every first heading has its entry, with its version and date. */
  lemma FirstHeadingHasEntry(lines: seq<string>, h: Heading) returns (i: nat)
    requires IsFirst(h, Headings(Visible(lines, false)))
    ensures i < |Parsed(lines)| && Parsed(lines)[i].version == h.version && Parsed(lines)[i].date == h.date
  {
    hide Headings, Visible, Parsed, Clean;
    var hs := Headings(Visible(lines, false));
    ParsedCoversHeadings(lines, h.version);
    assert HasVersion(hs, h.version);
    i :| 0 <= i < |Parsed(lines)| && Parsed(lines)[i].version == h.version;
    ParsedKeepsFirst(lines, i);
    var g :| IsFirst(g, hs) && g.version == Parsed(lines)[i].version && g.date == Parsed(lines)[i].date;
    FirstIsUnique(h, g, hs);
  }

  lemma EntriesReadableIff(lines: seq<string>)
    ensures RoundTrip.AllReadable(Parsed(lines)) <==> FirstHeadingsNarrow(Headings(Visible(lines, false)))
  {
    hide Headings, Visible, Parsed, Clean, IsFirst, Python.Readable;
    var data, hs := Parsed(lines), Headings(Visible(lines, false));
    if FirstHeadingsNarrow(hs) {
      forall i | 0 <= i < |data| ensures RoundTrip.EntryReadable(data[i]) {
        ParsedKeepsFirst(lines, i);
        var h :| IsFirst(h, hs) && h.version == data[i].version && h.date == data[i].date;
        assert Narrow(h);
      }
    }
    if RoundTrip.AllReadable(data) {
      forall h | IsFirst(h, hs) ensures Narrow(h) {
        var i := FirstHeadingHasEntry(lines, h);
        assert RoundTrip.EntryReadable(data[i]);
      }
    }
  }

  /** From text to value: the module generated from a changelog evaluates to exactly the parsed
      releases if and only if no heading that gives an entry its version and date has a digit
      beyond U+FFFF, which the version pattern and `int` accept but ASCII escaping splits. */
  lemma GeneratedModuleIsTheChangelogIff(lines: seq<string>)
    ensures Python.Eval(Printer.RenderText(Parsed(lines)))
              == Some(Python.List(RoundTrip.EntryValues(Parsed(lines))))
            <==> FirstHeadingsNarrow(Headings(Visible(lines, false)))
  {
    hide Headings, Visible, Parsed, Python.Eval, Printer.RenderText;
    EntriesReadableIff(lines);
    RoundTrip.RenderEvaluates(Parsed(lines));
  }

  const WIDE_ONE: string := "\U{1D7CF}"

  const WIDE_HEADING: string := PrintHeading(WIDE_ONE, "0", "0", "2026-01-01", "")

  lemma WideHeadingRead()
    ensures Headings(Visible([WIDE_HEADING], false))
            == [Heading(WIDE_ONE + "." + "0" + "." + "0", "2026-01-01", "")]
  {
    var line := WIDE_HEADING;
    assert DigitValue(WIDE_ONE[0]) == Some(1);
    HeadingRoundTrip(WIDE_ONE, "0", "0", "2026-01-01", "");
    HeadingTrimmed(WIDE_ONE, "0", "0", "2026-01-01", "");
    OneVisibleHeading(line, Heading(WIDE_ONE + "." + "0" + "." + "0", "2026-01-01", ""));
  }

  lemma OneVisibleHeading(line: string, h: Heading)
    requires RStrip(line) == line && MatchHeading(line) == Some(h)
    ensures Headings(Visible([line], false)) == [h]
  {
    HeadingIsNoFence(line);
    assert [line][1..] == [];
    assert Visible([line], false) == [line] + Visible([], false) == [line];
    assert Headings([line]) == [h] + Headings([]);
  }

  /** Such a changelog: a version heading whose major number is the mathematical bold digit one
      is parsed, but the generated module does not give its version back. */
  lemma WideDigitVersionIsSplit()
    ensures var data := Parsed([WIDE_HEADING]);
            Python.Eval(Printer.RenderText(data)) != Some(Python.List(RoundTrip.EntryValues(data)))
  {
    hide PrintHeading, Parsed, Visible, Headings, Python.Eval, Printer.RenderText;
    var h := Heading(WIDE_ONE + "." + "0" + "." + "0", "2026-01-01", "");
    WideHeadingRead();
    GeneratedModuleIsTheChangelogIff([WIDE_HEADING]);
    assert [h][0] == h && IsFirst(h, [h]);
    assert h.version[0] in h.version && Python.Astral(h.version[0]);
  }
}
