/**
 The width of the generated update log: no line is longer than the 120 characters that the
 repository's flake8 settings allow (`RenderedLinesFit`).
 */
module UpdateLogLayout {
  import opened PythonLiteral
  import opened Text
  import opened UpdateLogPrinter

  /** No line feed between the positions `i` and `j`. */
  ghost predicate OneLine(s: string, i: nat, j: nat)
    requires i <= j <= |s|
  {
    forall k :: i <= k < j ==> s[k] != '\n'
  }

  /** No line of the text is longer than `width`. */
  ghost predicate LinesFit(s: string, width: nat) {
    forall i: nat, j: nat :: i <= j <= |s| && OneLine(s, i, j) ==> j - i <= width
  }

  lemma ShortFits(s: string, width: nat)
    requires |s| <= width
    ensures LinesFit(s, width)
  {}

  /** Texts put below each other. */
  lemma BelowFits(a: string, b: string, width: nat)
    requires LinesFit(a, width) && LinesFit(b, width)
    ensures LinesFit(a + "\n" + b, width)
  {
    var s, n := a + "\n" + b, |a| + 1;
    forall i: nat, j: nat | i <= j <= |s| && OneLine(s, i, j) ensures j - i <= width {
      assert s[|a|] == '\n';
      if j <= |a| {
        assert forall k :: i <= k < j ==> a[k] == s[k];
        assert OneLine(a, i, j);
      } else if i >= n {
        assert forall k :: i - n <= k < j - n ==> b[k] == s[k + n];
        assert OneLine(b, i - n, j - n);
      }
    }
  }

  lemma EmptyFits(width: nat)
    ensures LinesFit("", width)
  {}

  ghost predicate AllLinesFit(lines: seq<string>, width: nat) {
    forall i :: 0 <= i < |lines| ==> LinesFit(lines[i], width)
  }

  lemma {:induction false} UnlinesFit(lines: seq<string>, width: nat)
    requires AllLinesFit(lines, width)
    ensures LinesFit(Unlines(lines), width)
  {
    hide LinesFit;
    if lines == [] {
      EmptyFits(width);
    } else {
      assert forall i :: 0 <= i < |lines[1..]| ==> lines[1..][i] == lines[i + 1];
      UnlinesFit(lines[1..], width);
      BelowFits(lines[0], Unlines(lines[1..]), width);
    }
  }

  lemma {:induction false} JoinedFit(lines: seq<string>, width: nat)
    requires AllLinesFit(lines, width)
    ensures LinesFit(JoinLines(lines), width)
  {
    hide LinesFit;
    if lines == [] {
      EmptyFits(width);
    } else if |lines| > 1 {
      assert forall i :: 0 <= i < |lines[1..]| ==> lines[1..][i] == lines[i + 1];
      JoinedFit(lines[1..], width);
      BelowFits(lines[0], JoinLines(lines[1..]), width);
    }
  }

  /** A budget of eight leaves room for every character with its quotes. */
  lemma CharactersFit(text: string, budget: int)
    requires budget >= 8
    ensures CharsFit(text, budget)
  {
    forall i | 0 <= i < |text| ensures Fits([text[i]], budget) {
      EscapeCost(text[i]);
      assert |[text[i]][1..]| == 0;
      assert EscapeAll([text[i]][1..], false) == "";
    }
  }

  lemma {:induction false} ChunkLinesFit(chunks: seq<string>, indent: string, budget: nat)
    requires AllFit(chunks, budget)
    ensures AllLinesFit(ChunkLines(chunks, indent), |indent| + 4 + budget)
  {
    if chunks != [] {
      hide LinesFit, Dumps;
      var tail := chunks[1..];
      assert AllFit(tail, budget) by { assert forall i :: 0 <= i < |tail| ==> tail[i] == chunks[i + 1]; }
      assert |Dumps(chunks[0], false)| <= budget;
      ChunkLinesFit(tail, indent, budget);
      ShortFits(indent + "    " + Dumps(chunks[0], false), |indent| + 4 + budget);
    }
  }

  /** A printed literal between a prefix and a comma: on one line if it fits there, else its
      pieces stand one below the other, each within the budget. */
  lemma LiteralFits(prefix: string, text: string, indent: string, budget: nat, width: nat)
    requires 8 <= budget && |prefix| + budget + 1 <= width && |indent| + 4 + budget <= width
    ensures LinesFit(prefix + LiteralText(text, indent, budget) + ",", width)
  {
    hide LinesFit, Dumps, Chunks, ChunkLines, JoinLines;
    if Fits(text, budget) {
      assert |Dumps(text, false)| <= budget;
      ShortFits(prefix + LiteralText(text, indent, budget) + ",", width);
    } else {
      CharactersFit(text, budget);
      ChunksFit(text, budget);
      ChunkLinesFit(Chunks(text, budget), indent, budget);
      var inner := JoinLines(ChunkLines(Chunks(text, budget), indent));
      WiderFits(ChunkLines(Chunks(text, budget), indent), |indent| + 4 + budget, width);
      JoinedFit(ChunkLines(Chunks(text, budget), indent), width);
      ShortFits(prefix + "(", width);
      ShortFits(indent + ")" + ",", width);
      BelowFits(prefix + "(", inner, width);
      BelowFits(prefix + "(" + "\n" + inner, indent + ")" + ",", width);
      assert prefix + LiteralText(text, indent, budget) + ","
             == prefix + "(" + "\n" + inner + "\n" + (indent + ")" + ",");
    }
  }

  lemma WiderFits(lines: seq<string>, width: nat, wider: nat)
    requires AllLinesFit(lines, width) && width <= wider
    ensures AllLinesFit(lines, wider)
  {
    forall i | 0 <= i < |lines| ensures LinesFit(lines[i], wider) { assert LinesFit(lines[i], width); }
  }

  lemma FitsJoin(a: seq<string>, b: seq<string>, width: nat)
    requires AllLinesFit(a, width) && AllLinesFit(b, width)
    ensures AllLinesFit(a + b, width)
  {
    hide LinesFit;
  }

  lemma OneFits(line: string, width: nat)
    requires LinesFit(line, width)
    ensures AllLinesFit([line], width)
  {}

  lemma {:induction false} FeatureLinesFit(features: seq<string>)
    ensures AllLinesFit(FeatureLines(features), 120)
  {
    if features != [] {
      hide LinesFit, LiteralText, AllLinesFit;
      var line := "            " + LiteralText(features[0], "            ", BUDGET) + ",";
      LiteralFits("            ", features[0], "            ", BUDGET, 120);
      OneFits(line, 120);
      FeatureLinesFit(features[1..]);
      FitsJoin([line], FeatureLines(features[1..]), 120);
    } else {
      assert AllLinesFit([], 120);
    }
  }

  /** Version and date have at most 100 characters when they are printed. */
  predicate ShortHead(e: Entry) { |Dumps(e.version, true)| <= 100 && |Dumps(e.date, true)| <= 100 }

  lemma EntryHeadFits(e: Entry)
    requires ShortHead(e)
    ensures AllLinesFit(EntryHead(e), 120)
  {
    hide LinesFit, LiteralText, Dumps;
    var described := LiteralText(e.description, "        ", BUDGET);
    var prefix := "        \"" + "description" + "\": ";
    LiteralFits(prefix, e.description, "        ", BUDGET, 120);
    assert Field("description", described + ",") == prefix + described + ",";
    ShortFits("    {", 120);
    ShortFits(Field("version", Dumps(e.version, true) + ","), 120);
    ShortFits(Field("date", Dumps(e.date, true) + ","), 120);
    ShortFits(Field("features", "["), 120);
  }

  lemma EntryLinesFit(e: Entry)
    requires ShortHead(e)
    ensures AllLinesFit(EntryLines(e), 120)
  {
    hide LinesFit, EntryHead, FeatureLines;
    EntryHeadFits(e);
    FeatureLinesFit(e.features);
    ShortFits("        ],", 120);
    ShortFits("    },", 120);
    FitsJoin(EntryHead(e), FeatureLines(e.features), 120);
    FitsJoin(EntryHead(e) + FeatureLines(e.features), ["        ],", "    },"], 120);
  }

  lemma {:induction false} AllEntryLinesFit(data: seq<Entry>)
    requires forall e :: e in data ==> ShortHead(e)
    ensures AllLinesFit(AllEntryLines(data), 120)
  {
    if data != [] {
      hide LinesFit, ShortHead;
      assert data[0] in data;
      EntryLinesFit(data[0]);
      AllEntryLinesFit(data[1..]);
      FitsJoin(EntryLines(data[0]), AllEntryLines(data[1..]), 120);
    }
  }

  /** However long descriptions and features are, no line of the printed list is longer than 120
      characters. */
  lemma RenderedLinesFit(data: seq<Entry>)
    requires forall e :: e in data ==> ShortHead(e)
    ensures LinesFit(RenderText(data), 120)
  {
    hide LinesFit, ShortHead, AllEntryLines, Unlines;
    AllEntryLinesFit(data);
    ShortFits("[", 120);
    ShortFits("]", 120);
    OneFits("[", 120);
    OneFits("]", 120);
    FitsJoin(["["], AllEntryLines(data), 120);
    FitsJoin(["["] + AllEntryLines(data), ["]"], 120);
    UnlinesFit(["["] + AllEntryLines(data) + ["]"], 120);
  }
}
