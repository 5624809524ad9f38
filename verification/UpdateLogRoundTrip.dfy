/**
 Reading back what `UpdateLogPrinter` prints: the generated list, evaluated as Python, is
 exactly the data it was printed from (`RenderEvaluates`).
 */
module UpdateLogRoundTrip {
  import opened PythonLiteral
  import opened Text
  import opened UpdateLogPrinter
  import opened Wrappers

  // ---------------------------------------------------------------- evaluating a literal

  function StrTokens(pieces: seq<string>): (ts: seq<Token>)
    ensures |ts| == |pieces|
  {
    if pieces == [] then [] else [Str(pieces[0])] + StrTokens(pieces[1..])
  }

  function LiteralTokens(text: string, budget: int): seq<Token> {
    if Fits(text, budget) then [Str(text)]
    else [LParen] + StrTokens(Chunks(text, budget)) + [RParen]
  }

  lemma ReadableAlways(s: string)
    ensures LexesTo(Dumps(s, false), [Str(s)])
  {
    LexDumps(s, false);
  }

  lemma {:induction false} LexChunkLines(chunks: seq<string>, indent: string)
    requires Blank(indent)
    ensures LexesTo(JoinLines(ChunkLines(chunks, indent)), StrTokens(chunks))
  {
    if chunks == [] {
      LexBlank("");
    } else {
      LexIndented(chunks[0], indent);
      var first := indent + "    " + Dumps(chunks[0], false);
      var lines := ChunkLines(chunks, indent);
      if |chunks| == 1 {
        assert ChunkLines(chunks[1..], indent) == [] && lines == [first];
        assert StrTokens(chunks) == [Str(chunks[0])];
      } else {
        LexChunkLines(chunks[1..], indent);
        assert lines[1..] == ChunkLines(chunks[1..], indent);
        LexBlank("\n");
        LexAppend(first, [Str(chunks[0])], "\n", []);
        LexAppend(first + "\n", [Str(chunks[0])] + [], JoinLines(lines[1..]), StrTokens(chunks[1..]));
        assert [Str(chunks[0])] + [] + StrTokens(chunks[1..]) == StrTokens(chunks);
      }
    }
  }

  lemma LexIndented(text: string, indent: string)
    requires Blank(indent)
    ensures LexesTo(indent + "    " + Dumps(text, false), [Str(text)])
  {
    hide LexesTo;
    LexBlank(indent + "    ");
    ReadableAlways(text);
    LexAppend(indent + "    ", [], Dumps(text, false), [Str(text)]);
    assert [] + [Str(text)] == [Str(text)];
  }

  lemma LexLiteral(text: string, indent: string, budget: int)
    requires Blank(indent)
    ensures LexesTo(LiteralText(text, indent, budget), LiteralTokens(text, budget))
  {
    hide LexesTo;
    if Fits(text, budget) {
      ReadableAlways(text);
    } else {
      var inner := JoinLines(ChunkLines(Chunks(text, budget), indent));
      var ts := StrTokens(Chunks(text, budget));
      LexPunctuation('(', LParen);
      LexBlank("\n");
      LexAppend("(", [LParen], "\n", []);
      assert "(" + "\n" == "(\n" && [LParen] + [] == [LParen];
      LexChunkLines(Chunks(text, budget), indent);
      LexAppend("(\n", [LParen], inner, ts);
      LexAppend("(\n" + inner, [LParen] + ts, "\n", []);
      LexBlank(indent);
      LexAppend("(\n" + inner + "\n", [LParen] + ts + [], indent, []);
      LexPunctuation(')', RParen);
      LexAppend("(\n" + inner + "\n" + indent, [LParen] + ts + [] + [], ")", [RParen]);
      assert [LParen] + ts + [] + [] + [RParen] == LiteralTokens(text, budget);
    }
  }

  lemma ParseTextStep(text: string, rest: seq<Token>)
    ensures ParseText([Str(text)] + rest)
            == match ParseText(rest)
               case None => Some((text, rest))
               case Some((more, end)) => Some((text + more, end))
  {
    assert ([Str(text)] + rest)[1..] == rest;
  }

  lemma ParseNoText(rest: seq<Token>)
    requires rest == [] || !rest[0].Str?
    ensures ParseText(rest) == None
  {}

  lemma {:induction false} ParseStrTokens(pieces: seq<string>, rest: seq<Token>)
    requires rest == [] || !rest[0].Str?
    ensures ParseText(StrTokens(pieces) + rest)
            == if pieces == [] then None else Some((Concat(pieces), rest))
  {
    hide ParseText;
    ParseNoText(rest);
    if pieces == [] {
      assert StrTokens(pieces) + rest == rest;
    } else {
      var tail := StrTokens(pieces[1..]) + rest;
      assert StrTokens(pieces) + rest == [Str(pieces[0])] + tail;
      ParseStrTokens(pieces[1..], rest);
      ParseTextStep(pieces[0], tail);
      if |pieces| == 1 {
        assert tail == rest && Concat(pieces) == pieces[0] + Concat(pieces[1..]) == pieces[0];
      }
    }
  }

  predicate Printable(text: string, budget: int) {
    text != "" || budget >= 2
  }

  lemma ParseParenthesised(pieces: seq<string>, rest: seq<Token>)
    ensures ParseValue([LParen] + StrTokens(pieces) + [RParen] + rest)
            == if pieces == [] then None else Some((Text(Concat(pieces)), rest))
  {
    var ts := [LParen] + StrTokens(pieces) + [RParen] + rest;
    assert ts[1..] == StrTokens(pieces) + ([RParen] + rest);
    ParseStrTokens(pieces, [RParen] + rest);
    assert ([RParen] + rest)[1..] == rest;
  }

  lemma ParseLiteral(text: string, budget: int, rest: seq<Token>)
    requires rest == [] || !rest[0].Str?
    ensures ParseValue(LiteralTokens(text, budget) + rest)
            == if Printable(text, budget) then Some((Text(text), rest)) else None
  {
    assert text == "" ==> |Dumps(text, false)| == 2;
    if Fits(text, budget) {
      ParseStrTokens([text], rest);
      assert StrTokens([text]) == [Str(text)] && Concat([text]) == text;
    } else {
      ChunksJoin(text, budget);
      ParseParenthesised(Chunks(text, budget), rest);
    }
  }

  /** Evaluating what `_literal` prints gives the text back, for every text, indentation and
      budget, except that the empty text printed with a budget below two becomes `()`. */
  lemma LiteralEvaluates(text: string, indent: string, budget: int)
    requires Blank(indent)
    ensures Eval(LiteralText(text, indent, budget)) == Some(Text(text)) <==> text != "" || budget >= 2
  {
    var src := LiteralText(text, indent, budget);
    LexLiteral(text, indent, budget);
    var ts := LiteralTokens(text, budget);
    LexWhole(src, ts);
    assert ts + [] == ts;
    ParseLiteral(text, budget, []);
  }

  // ---------------------------------------------------------------- evaluating the list

  predicate Plain(name: string) {
    forall i :: 0 <= i < |name| ==> 0x20 <= name[i] as int && name[i] != '\"' && name[i] != '\\'
  }

  lemma {:induction false} PlainNeedsNoEscape(name: string)
    requires Plain(name)
    ensures EscapeAll(name, false) == name
  {
    if name != "" {
      PlainNeedsNoEscape(name[1..]);
    }
  }

  lemma LexKey(name: string)
    requires Plain(name)
    ensures LexesTo("        \"" + name + "\": ", [Str(name), Colon])
  {
    hide LexesTo;
    var key := "\"" + name + "\"";
    PlainNeedsNoEscape(name);
    ReadableAlways(name);
    assert Dumps(name, false) == key;
    LexBlank("        ");
    LexAppend("        ", [], key, [Str(name)]);
    assert [] + [Str(name)] == [Str(name)];
    LexPunctuation(':', Colon);
    LexAppend("        " + key, [Str(name)], ":", [Colon]);
    LexBlank(" ");
    LexAppend("        " + key + ":", [Str(name)] + [Colon], " ", []);
    assert [Str(name)] + [Colon] + [] == [Str(name), Colon];
    assert "        " + key + ":" + " " == "        \"" + name + "\": ";
  }

  lemma LexField(name: string, body: string, ts: seq<Token>)
    requires Plain(name)
    ensures LexesTo(body, ts) ==> LexesTo(Field(name, body), [Str(name), Colon] + ts)
    ensures LexFails(body) ==> LexFails(Field(name, body))
  {
    var head := "        \"" + name + "\": ";
    LexKey(name);
    if LexesTo(body, ts) { LexAppend(head, [Str(name), Colon], body, ts); }
    if LexFails(body) { LexFailsAfter(head, [Str(name), Colon], body); }
  }

  lemma LexWithComma(body: string, ts: seq<Token>)
    ensures LexesTo(body, ts) ==> LexesTo(body + ",", ts + [Comma])
    ensures LexFails(body) ==> LexFails(body + ",")
  {
    LexPunctuation(',', Comma);
    if LexesTo(body, ts) { LexAppend(body, ts, ",", [Comma]); }
    if LexFails(body) { LexFailsBefore(body, ","); }
  }

  function Flatten(rows: seq<seq<Token>>): seq<Token> {
    if rows == [] then [] else rows[0] + Flatten(rows[1..])
  }

  lemma {:induction false} FlattenAppend(a: seq<seq<Token>>, b: seq<seq<Token>>)
    ensures Flatten(a + b) == Flatten(a) + Flatten(b)
  {
    if a == [] {
      assert a + b == b;
    } else {
      assert (a + b)[1..] == a[1..] + b;
      FlattenAppend(a[1..], b);
    }
  }

  /** Line by line: each line contributes its row of tokens. */
  ghost predicate LinesLexTo(lines: seq<string>, rows: seq<seq<Token>>) {
    |lines| == |rows| && forall i :: 0 <= i < |lines| ==> LexesTo(lines[i], rows[i])
  }

  lemma {:induction false} LexLines(lines: seq<string>, rows: seq<seq<Token>>)
    requires LinesLexTo(lines, rows)
    ensures LexesTo(Unlines(lines), Flatten(rows))
  {
    if lines == [] {
      LexBlank("");
    } else {
      LexLines(lines[1..], rows[1..]);
      LexBlank("\n");
      LexAppend(lines[0], rows[0], "\n", []);
      LexAppend(lines[0] + "\n", rows[0] + [], Unlines(lines[1..]), Flatten(rows[1..]));
      assert rows[0] + [] == rows[0];
    }
  }

  lemma {:induction false} LexLinesFail(lines: seq<string>, rows: seq<seq<Token>>, k: nat)
    requires k < |lines| && LinesLexTo(lines[..k], rows) && LexFails(lines[k])
    ensures LexFails(Unlines(lines))
  {
    if k == 0 {
      LexFailsBefore(lines[0], "\n");
      LexFailsBefore(lines[0] + "\n", Unlines(lines[1..]));
    } else {
      assert lines[1..][..k - 1] == lines[..k][1..];
      LexLinesFail(lines[1..], rows[1..], k - 1);
      assert lines[..k][0] == lines[0];
      LexBlank("\n");
      LexAppend(lines[0], rows[0], "\n", []);
      LexFailsAfter(lines[0] + "\n", rows[0] + [], Unlines(lines[1..]));
    }
  }

  function FeatureRows(features: seq<string>): seq<seq<Token>> {
    if features == [] then []
    else [LiteralTokens(features[0], BUDGET) + [Comma]] + FeatureRows(features[1..])
  }

  function EntryRows(e: Entry): seq<seq<Token>> {
    [[LBrace],
     [Str("version"), Colon] + [Str(e.version), Comma],
     [Str("date"), Colon] + [Str(e.date), Comma],
     [Str("description"), Colon] + (LiteralTokens(e.description, BUDGET) + [Comma]),
     [Str("features"), Colon] + [LBracket]] + FeatureRows(e.features) + [[RBracket, Comma], [RBrace, Comma]]
  }

  function AllEntryRows(data: seq<Entry>): seq<seq<Token>> {
    if data == [] then [] else EntryRows(data[0]) + AllEntryRows(data[1..])
  }

  /** A version and a date are written with `ensure_ascii`; beyond U+FFFF that is no round trip. */
  ghost predicate EntryReadable(e: Entry) {
    Readable(e.version, true) && Readable(e.date, true)
  }

  lemma {:induction false} LexFeatureLines(features: seq<string>)
    ensures LinesLexTo(FeatureLines(features), FeatureRows(features))
  {
    if features != [] {
      LexFeatureLines(features[1..]);
      var literal := LiteralText(features[0], "            ", BUDGET);
      LexLiteral(features[0], "            ", BUDGET);
      LexBlank("            ");
      LexAppend("            ", [], literal, LiteralTokens(features[0], BUDGET));
      assert [] + LiteralTokens(features[0], BUDGET) == LiteralTokens(features[0], BUDGET);
      LexWithComma("            " + literal, LiteralTokens(features[0], BUDGET));
    }
  }

  lemma LexTextField(name: string, text: string)
    requires Plain(name)
    ensures Readable(text, true) ==>
              LexesTo(Field(name, Dumps(text, true) + ","), [Str(name), Colon] + [Str(text), Comma])
    ensures !Readable(text, true) ==> LexFails(Field(name, Dumps(text, true) + ","))
  {
    hide LexesTo, LexFails;
    LexDumps(text, true);
    LexWithComma(Dumps(text, true), [Str(text)]);
    assert [Str(text)] + [Comma] == [Str(text), Comma];
    LexField(name, Dumps(text, true) + ",", [Str(text), Comma]);
  }

  lemma LexBracketLine(indent: string, c: char, t: Token)
    requires Blank(indent) && Punctuation(c) == Some(t)
    ensures LexesTo(indent + [c], [t])
    ensures LexesTo(indent + [c] + ",", [t, Comma])
  {
    hide LexesTo;
    LexBlank(indent);
    LexPunctuation(c, t);
    LexAppend(indent, [], [c], [t]);
    assert [] + [t] == [t];
    LexWithComma(indent + [c], [t]);
    assert [t] + [Comma] == [t, Comma];
  }

  lemma LexDescriptionField(text: string)
    ensures LexesTo(Field("description", LiteralText(text, "        ", BUDGET) + ","),
                    [Str("description"), Colon] + (LiteralTokens(text, BUDGET) + [Comma]))
  {
    hide LexesTo, LexFails;
    LexLiteral(text, "        ", BUDGET);
    LexWithComma(LiteralText(text, "        ", BUDGET), LiteralTokens(text, BUDGET));
    LexField("description", LiteralText(text, "        ", BUDGET) + ",", LiteralTokens(text, BUDGET) + [Comma]);
  }

  lemma LexEntryEnd()
    ensures LinesLexTo(["        ],", "    },"], [[RBracket, Comma], [RBrace, Comma]])
  {
    hide LexesTo;
    LexBracketLine("        ", ']', RBracket);
    LexBracketLine("    ", '}', RBrace);
    assert "        " + [']'] + "," == "        ],";
    assert "    " + ['}'] + "," == "    },";
  }

  lemma LexEntryHead(e: Entry)
    requires EntryReadable(e)
    ensures LinesLexTo(EntryHead(e), EntryRows(e)[..5])
  {
    hide LexesTo, LiteralText, LiteralTokens, FeatureRows, Dumps;
    LexBracketLine("    ", '{', LBrace);
    assert "    " + ['{'] == "    {";
    LexTextField("version", e.version);
    LexTextField("date", e.date);
    LexDescriptionField(e.description);
    LexPunctuation('[', LBracket);
    LexField("features", "[", [LBracket]);
  }

  lemma LexEntryLines(e: Entry)
    requires EntryReadable(e)
    ensures LinesLexTo(EntryLines(e), EntryRows(e))
  {
    hide LexesTo, LiteralText, LiteralTokens, Dumps;
    LexEntryHead(e);
    LexFeatureLines(e.features);
    LexEntryEnd();
    assert EntryRows(e) == EntryRows(e)[..5] + FeatureRows(e.features) + [[RBracket, Comma], [RBrace, Comma]];
  }

  lemma LexEntryFails(e: Entry) returns (k: nat, rows: seq<seq<Token>>)
    requires !EntryReadable(e)
    ensures k < |EntryLines(e)| && LinesLexTo(EntryLines(e)[..k], rows) && LexFails(EntryLines(e)[k])
  {
    hide LexesTo, LexFails, LiteralText, LiteralTokens, FeatureLines, FeatureRows, Dumps;
    LexBracketLine("    ", '{', LBrace);
    assert "    " + ['{'] == "    {";
    LexTextField("version", e.version);
    LexTextField("date", e.date);
    k := if Readable(e.version, true) then 2 else 1;
    rows := EntryRows(e)[..k];
  }

  lemma LinesLexAppend(a: seq<string>, x: seq<seq<Token>>, b: seq<string>, y: seq<seq<Token>>)
    requires LinesLexTo(a, x) && LinesLexTo(b, y)
    ensures LinesLexTo(a + b, x + y)
  {}

  ghost predicate AllReadable(data: seq<Entry>) {
    forall i :: 0 <= i < |data| ==> EntryReadable(data[i])
  }

  lemma {:induction false} LexAllEntryLines(data: seq<Entry>)
    requires AllReadable(data)
    ensures LinesLexTo(AllEntryLines(data), AllEntryRows(data))
  {
    if data != [] {
      LexEntryLines(data[0]);
      LexAllEntryLines(data[1..]);
      LinesLexAppend(EntryLines(data[0]), EntryRows(data[0]), AllEntryLines(data[1..]), AllEntryRows(data[1..]));
    }
  }

  lemma {:induction false} LexAllEntriesFail(data: seq<Entry>) returns (k: nat, rows: seq<seq<Token>>)
    requires !AllReadable(data)
    ensures k < |AllEntryLines(data)| && LinesLexTo(AllEntryLines(data)[..k], rows) && LexFails(AllEntryLines(data)[k])
  {
    hide LexesTo, LexFails, EntryLines, EntryRows, EntryReadable;
    var lines, tail := EntryLines(data[0]), AllEntryLines(data[1..]);
    if !EntryReadable(data[0]) {
      k, rows := LexEntryFails(data[0]);
      assert (lines + tail)[..k] == lines[..k];
    } else {
      LexEntryLines(data[0]);
      var k', rows' := LexAllEntriesFail(data[1..]);
      k, rows := |lines| + k', EntryRows(data[0]) + rows';
      LinesLexAppend(lines, EntryRows(data[0]), tail[..k'], rows');
      assert (lines + tail)[..k] == lines + tail[..k'];
    }
  }

  // ---- parsing the tokens

  function Texts(features: seq<string>): seq<Value> {
    if features == [] then [] else [Text(features[0])] + Texts(features[1..])
  }

  function EntryValue(e: Entry): Value {
    Dict([("version", Text(e.version)), ("date", Text(e.date)),
          ("description", Text(e.description)), ("features", List(Texts(e.features)))])
  }

  function EntryValues(data: seq<Entry>): seq<Value> {
    if data == [] then [] else [EntryValue(data[0])] + EntryValues(data[1..])
  }

  lemma LiteralStart(text: string, budget: int)
    ensures LiteralTokens(text, budget) != []
    ensures LiteralTokens(text, budget)[0].Str? || LiteralTokens(text, budget)[0] == LParen
  {}

  lemma {:induction false} ParseFeatures(features: seq<string>, rest: seq<Token>)
    ensures ParseItems(Flatten(FeatureRows(features)) + ([RBracket] + rest)) == Some((Texts(features), rest))
  {
    var end := [RBracket] + rest;
    if features == [] {
      assert Flatten(FeatureRows(features)) + end == end;
      assert end[1..] == rest;
    } else {
      ParseFeatures(features[1..], rest);
      var more := Flatten(FeatureRows(features[1..])) + end;
      var literal := LiteralTokens(features[0], BUDGET);
      assert Flatten(FeatureRows(features)) + end == literal + ([Comma] + more);
      ParseLiteral(features[0], BUDGET, [Comma] + more);
      LiteralStart(features[0], BUDGET);
      assert ([Comma] + more)[1..] == more;
    }
  }

  function FieldTokens(key: string, value: seq<Token>, more: seq<Token>): seq<Token> {
    [Str(key), Colon] + (value + ([Comma] + more))
  }

  lemma ParseField(key: string, value: seq<Token>, v: Value, more: seq<Token>,
                   fields: seq<(string, Value)>, end: seq<Token>)
    requires ParseValue(value + ([Comma] + more)) == Some((v, [Comma] + more))
    requires ParseFields(more) == Some((fields, end))
    ensures ParseFields(FieldTokens(key, value, more)) == Some(([(key, v)] + fields, end))
  {
    var afterKey := [Colon] + (value + ([Comma] + more));
    assert FieldTokens(key, value, more) == StrTokens([key]) + afterKey;
    ParseStrTokens([key], afterKey);
    assert Concat([key]) == key;
    assert afterKey[1..] == value + ([Comma] + more);
    assert ([Comma] + more)[1..] == more;
  }

  lemma ParseDict(tokens: seq<Token>, fields: seq<(string, Value)>, end: seq<Token>)
    requires ParseFields(tokens) == Some((fields, end))
    ensures ParseValue([LBrace] + tokens) == Some((Dict(fields), end))
  {
    assert ([LBrace] + tokens)[1..] == tokens;
  }

  lemma ParseOneText(text: string, rest: seq<Token>)
    requires rest == [] || !rest[0].Str?
    ensures ParseValue([Str(text)] + rest) == Some((Text(text), rest))
  {
    ParseStrTokens([text], rest);
    assert StrTokens([text]) == [Str(text)] && Concat([text]) == text;
  }

  function FeaturesTokens(e: Entry): seq<Token> {
    [LBracket] + Flatten(FeatureRows(e.features)) + [RBracket]
  }

  lemma ParseFeaturesList(e: Entry, more: seq<Token>)
    ensures ParseValue(FeaturesTokens(e) + more) == Some((List(Texts(e.features)), more))
  {
    var list := FeaturesTokens(e) + more;
    assert list[1..] == Flatten(FeatureRows(e.features)) + ([RBracket] + more);
    ParseFeatures(e.features, more);
  }

  lemma ParseFeaturesField(e: Entry, rest: seq<Token>)
    ensures ParseFields(FieldTokens("features", FeaturesTokens(e), [RBrace] + rest))
            == Some(([("features", List(Texts(e.features)))], rest))
  {
    var end := [RBrace] + rest;
    assert end[1..] == rest;
    ParseFeaturesList(e, [Comma] + end);
    ParseField("features", FeaturesTokens(e), List(Texts(e.features)), end, [], rest);
    var field := ("features", List(Texts(e.features)));
    assert [field] + [] == [field];
  }

  function EntryAll(e: Entry, rest: seq<Token>): seq<Token> {
    [LBrace] + FieldTokens("version", [Str(e.version)],
                 FieldTokens("date", [Str(e.date)],
                   FieldTokens("description", LiteralTokens(e.description, BUDGET),
                     FieldTokens("features", FeaturesTokens(e), [RBrace] + rest))))
  }

  lemma ParseEntry(e: Entry, rest: seq<Token>)
    ensures ParseValue(EntryAll(e, rest)) == Some((EntryValue(e), rest))
  {
    hide ParseValue, ParseFields;
    var features := FieldTokens("features", FeaturesTokens(e), [RBrace] + rest);
    var f := [("features", List(Texts(e.features)))];
    ParseFeaturesField(e, rest);
    ParseDescribed(e, features, f, rest);
    assert EntryValue(e).fields
        == [("version", Text(e.version)), ("date", Text(e.date)), ("description", Text(e.description))] + f;
  }

  lemma ParseDescribed(e: Entry, features: seq<Token>, f: seq<(string, Value)>, rest: seq<Token>)
    requires ParseFields(features) == Some((f, rest))
    ensures ParseValue([LBrace] + FieldTokens("version", [Str(e.version)],
                 FieldTokens("date", [Str(e.date)],
                   FieldTokens("description", LiteralTokens(e.description, BUDGET), features))))
            == Some((Dict([("version", Text(e.version)), ("date", Text(e.date)),
                           ("description", Text(e.description))] + f), rest))
  {
    hide ParseValue, ParseFields;
    var d := [("description", Text(e.description))] + f;
    var description := FieldTokens("description", LiteralTokens(e.description, BUDGET), features);
    ParseLiteral(e.description, BUDGET, [Comma] + features);
    ParseField("description", LiteralTokens(e.description, BUDGET), Text(e.description), features, f, rest);
    ParseDated(e, description, d, rest);
    assert [("version", Text(e.version)), ("date", Text(e.date))] + d
        == [("version", Text(e.version)), ("date", Text(e.date)), ("description", Text(e.description))] + f;
  }

  lemma ParseDated(e: Entry, more: seq<Token>, d: seq<(string, Value)>, rest: seq<Token>)
    requires ParseFields(more) == Some((d, rest))
    ensures ParseValue([LBrace] + FieldTokens("version", [Str(e.version)], FieldTokens("date", [Str(e.date)], more)))
            == Some((Dict([("version", Text(e.version)), ("date", Text(e.date))] + d), rest))
  {
    hide ParseValue, ParseFields;
    var date := FieldTokens("date", [Str(e.date)], more);
    ParseOneText(e.date, [Comma] + more);
    ParseField("date", [Str(e.date)], Text(e.date), more, d, rest);
    ParseOneText(e.version, [Comma] + date);
    ParseField("version", [Str(e.version)], Text(e.version), date, [("date", Text(e.date))] + d, rest);
    ParseDict(FieldTokens("version", [Str(e.version)], date),
              [("version", Text(e.version))] + ([("date", Text(e.date))] + d), rest);
    assert [("version", Text(e.version))] + ([("date", Text(e.date))] + d)
        == [("version", Text(e.version)), ("date", Text(e.date))] + d;
  }

  lemma FlattenHead(a: seq<Token>, b: seq<Token>, c: seq<Token>, d: seq<Token>, e: seq<Token>)
    ensures Flatten([a, b, c, d, e]) == a + (b + (c + (d + e)))
  {
    assert [a, b, c, d, e][1..] == [b, c, d, e] && [b, c, d, e][1..] == [c, d, e];
    assert [c, d, e][1..] == [d, e] && [d, e][1..] == [e];
    assert Flatten([e]) == e && Flatten([d, e]) == d + e && Flatten([c, d, e]) == c + (d + e);
    assert Flatten([b, c, d, e]) == b + (c + (d + e));
  }

  lemma FlattenEntryTail(e: Entry, rest: seq<Token>)
    ensures [Str("features"), Colon] + [LBracket]
            + (Flatten(FeatureRows(e.features)) + ([RBracket, Comma, RBrace, Comma] + rest))
            == FieldTokens("features", FeaturesTokens(e), [RBrace] + ([Comma] + rest))
  {
    hide Flatten, FeatureRows;
    var features := Flatten(FeatureRows(e.features));
    var end := [Comma] + ([RBrace] + ([Comma] + rest));
    assert [RBracket, Comma, RBrace, Comma] + rest == [RBracket] + end;
    assert FeaturesTokens(e) + end == [LBracket] + (features + ([RBracket] + end));
  }

  lemma FlattenParts(a: seq<Token>, b: seq<Token>, c: seq<Token>, d: seq<Token>, o: seq<Token>,
                     features: seq<seq<Token>>, end: seq<seq<Token>>, rest: seq<Token>)
    ensures Flatten([a, b, c, d, o] + features + end) + rest
            == a + (b + (c + (d + (o + (Flatten(features) + (Flatten(end) + rest))))))
  {
    FlattenAppend([a, b, c, d, o] + features, end);
    FlattenAppend([a, b, c, d, o], features);
    FlattenHead(a, b, c, d, o);
  }

  lemma FlattenEntry(e: Entry, rest: seq<Token>)
    ensures Flatten(EntryRows(e)) + rest == EntryAll(e, [Comma] + rest)
  {
    var description := [Str("description"), Colon] + (LiteralTokens(e.description, BUDGET) + [Comma]);
    var version := [Str("version"), Colon] + [Str(e.version), Comma];
    var date := [Str("date"), Colon] + [Str(e.date), Comma];
    var end := [[RBracket, Comma], [RBrace, Comma]];
    FlattenParts([LBrace], version, date, description, [Str("features"), Colon] + [LBracket],
                 FeatureRows(e.features), end, rest);
    assert Flatten(end) == [RBracket, Comma, RBrace, Comma];
    FlattenEntryTail(e, rest);
    var tail := FieldTokens("features", FeaturesTokens(e), [RBrace] + ([Comma] + rest));
    assert description + tail == FieldTokens("description", LiteralTokens(e.description, BUDGET), tail);
    FlattenEntryHead(e, FieldTokens("description", LiteralTokens(e.description, BUDGET), tail));
  }

  lemma FlattenEntryHead(e: Entry, more: seq<Token>)
    ensures [Str("version"), Colon] + [Str(e.version), Comma] + ([Str("date"), Colon] + [Str(e.date), Comma] + more)
            == FieldTokens("version", [Str(e.version)], FieldTokens("date", [Str(e.date)], more))
  {}

  lemma {:induction false} ParseEntries(data: seq<Entry>)
    ensures ParseItems(Flatten(AllEntryRows(data)) + [RBracket]) == Some((EntryValues(data), []))
  {
    if data == [] {
      assert Flatten(AllEntryRows(data)) + [RBracket] == [RBracket];
    } else {
      hide ParseValue, EntryRows, EntryValue, Flatten;
      ParseEntries(data[1..]);
      var more := Flatten(AllEntryRows(data[1..])) + [RBracket];
      FlattenAppend(EntryRows(data[0]), AllEntryRows(data[1..]));
      assert Flatten(AllEntryRows(data)) + [RBracket] == Flatten(EntryRows(data[0])) + more;
      FlattenEntry(data[0], more);
      ParseEntry(data[0], [Comma] + more);
      assert ([Comma] + more)[1..] == more;
    }
  }

  lemma LexWhole(src: string, ts: seq<Token>)
    ensures LexesTo(src, ts) ==> Lex(src) == Some(ts)
    ensures LexFails(src) ==> Lex(src) == None
  {
    assert src + "" == src && ts + [] == ts;
    if LexesTo(src, ts) { assert Lex(src + "") == Prepend(ts, Lex("")); }
    if LexFails(src) { assert Lex(src + "") == None; }
  }

  lemma FlattenList(rows: seq<seq<Token>>)
    ensures Flatten([[LBracket]] + rows + [[RBracket]]) == [LBracket] + Flatten(rows) + [RBracket]
  {
    FlattenAppend([[LBracket]] + rows, [[RBracket]]);
    FlattenAppend([[LBracket]], rows);
    assert Flatten([[LBracket]]) == [LBracket] && Flatten([[RBracket]]) == [RBracket];
  }

  lemma LexFramed(lines: seq<string>, rows: seq<seq<Token>>)
    requires LinesLexTo(lines, rows)
    ensures LinesLexTo(["["] + lines, [[LBracket]] + rows)
    ensures LinesLexTo(["["] + lines + ["]"], [[LBracket]] + rows + [[RBracket]])
  {
    hide LexesTo;
    LexPunctuation('[', LBracket);
    LexPunctuation(']', RBracket);
  }

  lemma LexRendered(data: seq<Entry>)
    ensures AllReadable(data) ==>
              Lex(RenderText(data)) == Some([LBracket] + Flatten(AllEntryRows(data)) + [RBracket])
    ensures !AllReadable(data) ==> Lex(RenderText(data)) == None
  {
    hide Lex, LexesTo, LexFails, Unlines, LinesLexTo, Flatten, AllEntryLines, AllEntryRows;
    var lines := ["["] + AllEntryLines(data) + ["]"];
    if AllReadable(data) {
      LexAllEntryLines(data);
      LexFramed(AllEntryLines(data), AllEntryRows(data));
      LexLines(lines, [[LBracket]] + AllEntryRows(data) + [[RBracket]]);
      FlattenList(AllEntryRows(data));
      LexWhole(RenderText(data), [LBracket] + Flatten(AllEntryRows(data)) + [RBracket]);
    } else {
      var k, rows := LexAllEntriesFail(data);
      assert lines[..k + 1] == ["["] + AllEntryLines(data)[..k];
      LexFramed(AllEntryLines(data)[..k], rows);
      LexLinesFail(lines, [[LBracket]] + rows, k + 1);
      LexWhole(RenderText(data), []);
    }
  }

  /** The generated module gives back exactly the history it was generated from, for every
      history whose versions and dates stay within the Basic Multilingual Plane, and no other. */
  lemma RenderEvaluates(data: seq<Entry>)
    ensures Eval(RenderText(data)) == Some(List(EntryValues(data))) <==> AllReadable(data)
  {
    hide Lex, RenderText, AllEntryRows, Flatten;
    LexRendered(data);
    if AllReadable(data) {
      var ts := [LBracket] + Flatten(AllEntryRows(data)) + [RBracket];
      ParseEntries(data);
      assert ts[1..] == Flatten(AllEntryRows(data)) + [RBracket];
    }
  }

  /** Different histories are printed differently. */
  lemma {:induction false} EntryValuesInjective(a: seq<Entry>, b: seq<Entry>)
    requires EntryValues(a) == EntryValues(b)
    ensures a == b
  {
    if a != [] && b != [] {
      assert EntryValues(a)[0] == EntryValue(a[0]) && EntryValues(b)[0] == EntryValue(b[0]);
      assert EntryValues(a)[1..] == EntryValues(a[1..]) && EntryValues(b)[1..] == EntryValues(b[1..]);
      EntryValueInjective(a[0], b[0]);
      EntryValuesInjective(a[1..], b[1..]);
    }
  }

  lemma EntryValueInjective(a: Entry, b: Entry)
    requires EntryValue(a) == EntryValue(b)
    ensures a == b
  {
    var x, y := EntryValue(a).fields, EntryValue(b).fields;
    assert x[0] == y[0] && x[1] == y[1] && x[2] == y[2] && x[3] == y[3];
    TextsInjective(a.features, b.features);
  }

  lemma {:induction false} TextsInjective(a: seq<string>, b: seq<string>)
    requires Texts(a) == Texts(b)
    ensures a == b
  {
    if a != [] && b != [] {
      assert Texts(a)[0] == Text(a[0]) && Texts(b)[0] == Text(b[0]);
      assert Texts(a)[1..] == Texts(a[1..]) && Texts(b)[1..] == Texts(b[1..]);
      TextsInjective(a[1..], b[1..]);
    }
  }
}
