/**
 The printing half of scripts/sync_update_log.py: `_literal` writes a string as one Python
 literal or as a parenthesised row of adjacent ones, `render` writes the whole history list.

 Main results: the pieces of a long string make it up (`ChunksJoin`), fit the budget whenever
 single characters do (`ChunksFit`), and no split uses fewer of them (`NoSplitIsShorter`).
 */
module UpdateLogPrinter {
  import opened PythonLiteral
  import opened Text

  const BUDGET: int := 96

  predicate Fits(text: string, budget: int) {
    |Dumps(text, false)| <= budget
  }

  /** The length of the first piece of a non-empty text when `n` characters are in it already. */
  function ChunkEnd(text: string, n: nat, budget: int): (end: nat)
    requires 1 <= n <= |text|
    ensures n <= end <= |text|
    ensures end == n || Fits(text[..end], budget)
    ensures end == |text| || !Fits(text[..end + 1], budget)
    decreases |text| - n
  {
    if n < |text| && Fits(text[..n + 1], budget) then ChunkEnd(text, n + 1, budget) else n
  }

  /** The reference for the split: each piece is the longest that fits, but never empty. */
  function Chunks(text: string, budget: int): seq<string>
    decreases |text|
  {
    if text == "" then []
    else var n := ChunkEnd(text, 1, budget); [text[..n]] + Chunks(text[n..], budget)
  }

  function Concat(pieces: seq<string>): string {
    if pieces == [] then "" else pieces[0] + Concat(pieces[1..])
  }

  function ChunkLines(chunks: seq<string>, indent: string): seq<string> {
    if chunks == [] then []
    else [indent + "    " + Dumps(chunks[0], false)] + ChunkLines(chunks[1..], indent)
  }

  function LiteralText(text: string, indent: string, budget: int): string {
    if Fits(text, budget) then Dumps(text, false)
    else "(\n" + JoinLines(ChunkLines(Chunks(text, budget), indent)) + "\n" + indent + ")"
  }

  /** A started piece: the greedy split of `cur + rest` takes at least `cur` first. */
  ghost predicate Growing(cur: string, rest: string, budget: int) {
    cur != "" && ChunkEnd(cur + rest, 1, budget) == ChunkEnd(cur + rest, |cur|, budget)
  }

  lemma ClosePiece(cur: string, rest: string, budget: int)
    requires Growing(cur, rest, budget)
    requires rest == "" || !Fits(cur + [rest[0]], budget)
    ensures Chunks(cur + rest, budget) == [cur] + Chunks(rest, budget)
  {
    var t := cur + rest;
    if rest != "" { assert t[..|cur| + 1] == cur + [rest[0]]; }
    assert t[..|cur|] == cur && t[|cur|..] == rest;
  }

  lemma GrowPiece(cur: string, ch: char, rest: string, budget: int)
    requires cur == "" || (Growing(cur, [ch] + rest, budget) && Fits(cur + [ch], budget))
    ensures Growing(cur + [ch], rest, budget) && cur + [ch] + rest == cur + ([ch] + rest)
  {
    var t := cur + ([ch] + rest);
    assert cur + [ch] + rest == t;
    assert t[..|cur| + 1] == cur + [ch];
  }

  /** `_literal`: walks over the text once, closing a piece when the next character would not
      fit any more. */
  method Literal(text: string, indent: string, budget: int := BUDGET) returns (r: string)
    ensures r == LiteralText(text, indent, budget)
  {
    if |Dumps(text, false)| <= budget {
      return Dumps(text, false);
    }
    var chunks := SplitGreedily(text, budget);
    var inner := JoinLines(ChunkLines(chunks, indent));
    r := "(\n" + inner + "\n" + indent + ")";
  }

  /** The loop invariant: pieces closed so far, one growing, characters from `i` on to come. */
  ghost predicate Progress(text: string, i: nat, chunks: seq<string>, cur: string, budget: int)
    requires i <= |text|
  {
    && Chunks(text, budget) == chunks + Chunks(cur + text[i..], budget)
    && if i == 0 then cur == "" else Growing(cur, text[i..], budget)
  }

  lemma CloseStep(text: string, i: nat, chunks: seq<string>, cur: string, budget: int)
    requires i < |text| && Progress(text, i, chunks, cur, budget)
    requires cur != "" && !Fits(cur + [text[i]], budget)
    ensures Progress(text, i + 1, chunks + [cur], [text[i]], budget)
  {
    hide Fits;
    ClosePiece(cur, text[i..], budget);
    assert text[i..] == [text[i]] + text[i + 1..];
    assert chunks + ([cur] + Chunks(text[i..], budget)) == chunks + [cur] + Chunks(text[i..], budget);
  }

  lemma GrowStep(text: string, i: nat, chunks: seq<string>, cur: string, budget: int)
    requires i < |text| && Progress(text, i, chunks, cur, budget)
    requires cur == "" || Fits(cur + [text[i]], budget)
    ensures Progress(text, i + 1, chunks, cur + [text[i]], budget)
  {
    hide Fits;
    assert text[i..] == [text[i]] + text[i + 1..];
    GrowPiece(cur, text[i], text[i + 1..], budget);
  }

  lemma ProgressStarts(text: string, budget: int)
    ensures Progress(text, 0, [], "", budget)
  {
    assert "" + text[0..] == text;
  }

  lemma ProgressEnds(text: string, chunks: seq<string>, cur: string, budget: int)
    requires Progress(text, |text|, chunks, cur, budget)
    ensures Chunks(text, budget) == if cur != "" then chunks + [cur] else chunks
  {
    assert text[|text|..] == "" && cur + "" == cur;
    if cur != "" { ClosePiece(cur, "", budget); }
  }

  /** The character loop of `_literal`. */
  method SplitGreedily(text: string, budget: int) returns (chunks: seq<string>)
    ensures chunks == Chunks(text, budget)
  {
    hide Chunks, Progress, EscapeAll;
    chunks := [];
    var cur := "";
    ProgressStarts(text, budget);
    for i := 0 to |text|
      invariant Progress(text, i, chunks, cur, budget)
    {
      var ch := text[i];
      if cur != "" && |Dumps(cur + [ch], false)| > budget {
        CloseStep(text, i, chunks, cur, budget);
        chunks := chunks + [cur];
        cur := [ch];
      } else {
        GrowStep(text, i, chunks, cur, budget);
        cur := cur + [ch];
      }
    }
    ProgressEnds(text, chunks, cur, budget);
    if cur != "" { chunks := chunks + [cur]; }
  }

  // ---------------------------------------------------------------- the split

  lemma {:induction false} EscapeAllAppend(a: string, b: string, ascii: bool)
    ensures EscapeAll(a + b, ascii) == EscapeAll(a, ascii) + EscapeAll(b, ascii)
  {
    if a == "" {
      assert a + b == b;
    } else {
      assert (a + b)[1..] == a[1..] + b;
      EscapeAllAppend(a[1..], b, ascii);
    }
  }

  /** Every character costs one, two or six characters of the budget. */
  lemma EscapeCost(c: char)
    ensures |Escape(c, false)| in {1, 2, 6}
  {}

  lemma PartFits(a: string, b: string, c: string, budget: int)
    requires Fits(a + b + c, budget)
    ensures Fits(b, budget)
  {
    EscapeAllAppend(a + b, c, false);
    EscapeAllAppend(a, b, false);
  }

  /** The pieces make up the text. */
  lemma {:induction false} ChunksJoin(text: string, budget: int)
    ensures Concat(Chunks(text, budget)) == text
    decreases |text|
  {
    if text != "" {
      var n := ChunkEnd(text, 1, budget);
      ChunksJoin(text[n..], budget);
      assert text == text[..n] + text[n..];
    }
  }

  ghost predicate AllFit(pieces: seq<string>, budget: int) {
    forall i :: 0 <= i < |pieces| ==> Fits(pieces[i], budget)
  }

  ghost predicate CharsFit(text: string, budget: int) {
    forall i :: 0 <= i < |text| ==> Fits([text[i]], budget)
  }

  lemma FirstPieceFits(text: string, n: nat, budget: int)
    requires 1 <= n <= |text| && (n == 1 || Fits(text[..n], budget))
    ensures Fits(text[..n], budget) <==> CharsFit(text[..n], budget)
  {
    if Fits(text[..n], budget) {
      forall i | 0 <= i < n ensures Fits([text[..n][i]], budget) {
        assert text[..n] == text[..i] + [text[i]] + text[i + 1..n];
        PartFits(text[..i], [text[i]], text[i + 1..n], budget);
      }
    } else {
      assert text[..1] == [text[..1][0]];
    }
  }

  lemma CharsFitAppend(a: string, b: string, budget: int)
    ensures CharsFit(a + b, budget) <==> CharsFit(a, budget) && CharsFit(b, budget)
  {
    if CharsFit(a + b, budget) {
      forall i | 0 <= i < |a| ensures Fits([a[i]], budget) { assert (a + b)[i] == a[i]; }
      forall i | 0 <= i < |b| ensures Fits([b[i]], budget) { assert (a + b)[|a| + i] == b[i]; }
    }
  }

  /** Every piece is within the budget exactly when every single character is. */
  lemma {:induction false} ChunksFit(text: string, budget: int)
    ensures AllFit(Chunks(text, budget), budget) <==> CharsFit(text, budget)
    decreases |text|
  {
    if text != "" {
      var n := ChunkEnd(text, 1, budget);
      var tail := Chunks(text[n..], budget);
      ChunksFit(text[n..], budget);
      FirstPieceFits(text, n, budget);
      CharsFitAppend(text[..n], text[n..], budget);
      assert text == text[..n] + text[n..];
      AllFitCons(text[..n], tail, budget);
    }
  }

  lemma AllFitCons(first: string, tail: seq<string>, budget: int)
    ensures AllFit([first] + tail, budget) <==> Fits(first, budget) && AllFit(tail, budget)
  {
    var all := [first] + tail;
    assert all[0] == first;
    assert forall i :: 0 <= i < |tail| ==> all[i + 1] == tail[i];
  }

  lemma ChunkEndIsLongest(text: string, m: nat, budget: int)
    requires 1 <= m <= |text| && Fits(text[..m], budget)
    ensures m <= ChunkEnd(text, 1, budget)
  {
    var n := ChunkEnd(text, 1, budget);
    if n < m {
      assert text[..m] == "" + text[..n + 1] + text[n + 1..m];
      PartFits("", text[..n + 1], text[n + 1..m], budget);
    }
  }

  /** The first piece of a suffix that starts inside the first piece ends no earlier. */
  lemma SuffixEndsLater(text: string, k: nat, budget: int) returns (n': nat)
    requires 0 < k < |text| && k < ChunkEnd(text, 1, budget)
    ensures n' == ChunkEnd(text[k..], 1, budget) && k + n' >= ChunkEnd(text, 1, budget)
  {
    hide Fits;
    var n := ChunkEnd(text, 1, budget);
    n' := ChunkEnd(text[k..], 1, budget);
    assert text[..n] == text[..k] + text[k..n] + "";
    PartFits(text[..k], text[k..n], "", budget);
    assert text[k..][..n - k] == text[k..n];
    ChunkEndIsLongest(text[k..], n - k, budget);
  }

  /** Dropping a prefix never makes the greedy split longer. */
  lemma {:induction false} SuffixNeedsNoMore(text: string, k: nat, budget: int)
    requires k <= |text|
    ensures |Chunks(text[k..], budget)| <= |Chunks(text, budget)|
    decreases |text|
  {
    hide Fits;
    if k == 0 {
      assert text[0..] == text;
    } else if k < |text| {
      var n := ChunkEnd(text, 1, budget);
      if n <= k {
        assert text[k..] == text[n..][k - n..];
        SuffixNeedsNoMore(text[n..], k - n, budget);
      } else {
        var n' := SuffixEndsLater(text, k, budget);
        assert text[k..][n'..] == text[n..][k + n' - n..];
        SuffixNeedsNoMore(text[n..], k + n' - n, budget);
      }
    }
  }

  /** A first piece that fits leaves the greedy split at most one piece longer than the rest. */
  lemma FirstPieceCounts(text: string, m: nat, budget: int)
    requires 1 <= m <= |text| && Fits(text[..m], budget)
    ensures |Chunks(text, budget)| <= 1 + |Chunks(text[m..], budget)|
  {
    hide Fits;
    ChunkEndIsLongest(text, m, budget);
    var n := ChunkEnd(text, 1, budget);
    assert text[m..][n - m..] == text[n..];
    SuffixNeedsNoMore(text[m..], n - m, budget);
  }

  /** No split of the text into pieces within the budget uses fewer pieces. */
  lemma {:induction false} NoSplitIsShorter(text: string, pieces: seq<string>, budget: int)
    requires Concat(pieces) == text
    requires AllFit(pieces, budget)
    ensures |Chunks(text, budget)| <= |pieces|
    decreases |pieces|
  {
    if text != "" {
      hide Fits, Chunks;
      var m := |pieces[0]|;
      assert text[..m] == pieces[0] && text[m..] == Concat(pieces[1..]);
      NoSplitIsShorter(text[m..], pieces[1..], budget);
      if m > 0 { FirstPieceCounts(text, m, budget); } else { assert text[m..] == text; }
    }
  }

  // ---------------------------------------------------------------- the whole list

  datatype Entry = Entry(version: string, date: string, description: string, features: seq<string>)

  function Field(name: string, body: string): string {
    "        \"" + name + "\": " + body
  }

  function FeatureLines(features: seq<string>): seq<string> {
    if features == [] then []
    else ["            " + LiteralText(features[0], "            ", BUDGET) + ","] + FeatureLines(features[1..])
  }

  function EntryHead(e: Entry): seq<string> {
    ["    {",
     Field("version", Dumps(e.version, true) + ","),
     Field("date", Dumps(e.date, true) + ","),
     Field("description", LiteralText(e.description, "        ", BUDGET) + ","),
     Field("features", "[")]
  }

  function EntryLines(e: Entry): seq<string> {
    EntryHead(e) + FeatureLines(e.features) + ["        ],", "    },"]
  }

  function AllEntryLines(data: seq<Entry>): seq<string> {
    if data == [] then [] else EntryLines(data[0]) + AllEntryLines(data[1..])
  }

  /** The list literal that follows the assignment in the generated module. */
  function RenderText(data: seq<Entry>): string {
    Unlines(["["] + AllEntryLines(data) + ["]"])
  }

  /** The lines of one entry. */
  method RenderEntry(out: seq<string>, item: Entry) returns (r: seq<string>)
    ensures r == out + EntryLines(item)
  {
    hide LiteralText;
    var description := Literal(item.description, "        ");
    r := out + ["    {",
                Field("version", Dumps(item.version, true) + ","),
                Field("date", Dumps(item.date, true) + ","),
                Field("description", description + ","),
                Field("features", "[")];
    r := RenderFeatures(r, item.features);
    r := r + ["        ],", "    },"];
    assert r == out + (EntryHead(item) + FeatureLines(item.features) + ["        ],", "    },"]);
  }

  /** One line per feature. */
  method RenderFeatures(out: seq<string>, features: seq<string>) returns (r: seq<string>)
    ensures r == out + FeatureLines(features)
  {
    r := out;
    for j := 0 to |features|
      invariant r + FeatureLines(features[j..]) == out + FeatureLines(features)
    {
      var feature := Literal(features[j], "            ");
      assert features[j..][1..] == features[j + 1..];
      r := r + ["            " + feature + ","];
    }
  }

  lemma AllEntryLinesStep(out: seq<string>, data: seq<Entry>)
    requires data != []
    ensures out + AllEntryLines(data) == out + EntryLines(data[0]) + AllEntryLines(data[1..])
  {}

  /** `render`: collects the lines of all entries in order. */
  method Render(data: seq<Entry>) returns (r: string)
    ensures r == RenderText(data)
  {
    var out := ["["];
    for i := 0 to |data|
      invariant out + AllEntryLines(data[i..]) == ["["] + AllEntryLines(data)
    {
      assert data[i..][1..] == data[i + 1..];
      AllEntryLinesStep(out, data[i..]);
      out := RenderEntry(out, data[i]);
    }
    assert data[|data|..] == [] && out + [] == out;
    out := out + ["]"];
    r := Unlines(out);
  }
}
