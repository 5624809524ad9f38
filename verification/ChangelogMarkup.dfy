/**
 What cleaning an item does to Markdown and to over-long texts.

 Main results: cleaning decorated text gives the plain text behind the decoration
 (`CleanUndecorates`), and an over-long text is cut exactly where the rules say (`ShortenCutsAtMark`).
 */
module ChangelogMarkup {
  import opened Text
  import opened Wrappers
  import opened ChangelogText

  // ---------------------------------------------------------------- decorated text

  datatype Piece =
    | Plain(text: string)
    | Code(text: string)
    | Underlined(text: string)
    | Bold(text: string)
    | Link(text: string, url: string)

  function Markdown(p: Piece): string {
    match p
    case Plain(text) => text
    case Code(text) => "`" + text + "`"
    case Underlined(text) => "__" + text + "__"
    case Bold(text) => "**" + text + "**"
    case Link(text, url) => "[" + text + "](" + url + ")"
  }

  function Render(pieces: seq<Piece>): string {
    if pieces == [] then "" else Markdown(pieces[0]) + Render(pieces[1..])
  }

  /** The text behind the decoration. */
  function TextOf(pieces: seq<Piece>): string {
    if pieces == [] then "" else pieces[0].text + TextOf(pieces[1..])
  }

  predicate Undecorated(s: string) { '[' !in s && '*' !in s && '_' !in s && '`' !in s }

  ghost predicate GoodPieces(pieces: seq<Piece>) {
    forall p :: p in pieces ==>
      Undecorated(p.text) && (p.Link? ==> p.text != "" && ']' !in p.text && p.url != "" && ')' !in p.url)
  }

  /** What is left after the first `k` of the four passes: links, bold, underlined, code. */
  function Pass(p: Piece, k: nat): Piece {
    if (p.Link? && k >= 1) || (p.Bold? && k >= 2) || (p.Underlined? && k >= 3) || (p.Code? && k >= 4)
    then Plain(p.text) else p
  }

  function PassAll(pieces: seq<Piece>, k: nat): seq<Piece> {
    if pieces == [] then [] else [Pass(pieces[0], k)] + PassAll(pieces[1..], k)
  }

  lemma {:induction false} RenderPasses(pieces: seq<Piece>)
    ensures Render(PassAll(pieces, 0)) == Render(pieces)
    ensures Render(PassAll(pieces, 4)) == TextOf(pieces)
  {
    if pieces != [] {
      assert PassAll(pieces, 0)[1..] == PassAll(pieces[1..], 0);
      assert PassAll(pieces, 4)[1..] == PassAll(pieces[1..], 4);
      RenderPasses(pieces[1..]);
    }
  }

  lemma GoodTail(pieces: seq<Piece>)
    requires pieces != [] && GoodPieces(pieces)
    ensures GoodPieces([pieces[0]]) && GoodPieces(pieces[1..])
  {
    assert pieces[0] in pieces;
  }

  lemma {:induction false} StripLinksPasses(a: string, rest: string)
    requires '[' !in a
    ensures StripLinks(a + rest) == a + StripLinks(rest)
  {
    if a == "" {
      assert a + rest == rest;
    } else {
      assert (a + rest)[1..] == a[1..] + rest;
      StripLinksPasses(a[1..], rest);
    }
  }

  lemma {:induction false} IndexAfter(a: string, c: char, rest: string)
    requires c !in a
    ensures IndexOf(a + [c] + rest, c) == |a|
  {
    if a == "" {
      assert a + [c] + rest == [c] + rest;
    } else {
      assert (a + [c] + rest)[1..] == a[1..] + [c] + rest;
      IndexAfter(a[1..], c, rest);
    }
  }

  /** Where the bracket and the parenthesis of a link close. */
  lemma LinkParts(text: string, url: string, rest: string)
    requires text != "" && ']' !in text && url != "" && ')' !in url
    ensures var s := Markdown(Link(text, url)) + rest; var n := |text| + 1;
            && |s| == n + 3 + |url| + |rest| && s[0] == '[' && IndexOf(s, ']') == n && s[n + 1] == '('
            && IndexOf(s[n + 2..], ')') == |url| && s[1..n] == text && s[n + 3 + |url|..] == rest
  {
    hide IndexOf;
    var s := Markdown(Link(text, url)) + rest;
    var tail := url + [')'] + rest;
    assert s == ("[" + text) + [']'] + ("(" + tail);
    IndexAfter("[" + text, ']', "(" + tail);
    assert s[|text| + 3..] == tail;
    IndexAfter(url, ')', rest);
  }

  lemma LinkStripped(text: string, url: string, rest: string)
    requires text != "" && ']' !in text && url != "" && ')' !in url
    ensures StripLinks(Markdown(Link(text, url)) + rest) == text + StripLinks(rest)
  {
    hide IndexOf, Markdown;
    LinkParts(text, url, rest);
  }

  lemma {:induction false} RemovePasses(a: string, part: string, rest: string)
    requires part != "" && part[0] !in a
    ensures Remove(a + rest, part) == a + Remove(rest, part)
  {
    if a == "" {
      assert a + rest == rest;
    } else {
      assert (a + rest)[1..] == a[1..] + rest && (a + rest)[0] != part[0];
      RemovePasses(a[1..], part, rest);
    }
  }

  lemma RemoveFirst(part: string, rest: string)
    requires part != ""
    ensures Remove(part + rest, part) == Remove(rest, part)
  {
    assert (part + rest)[|part|..] == rest;
  }

  /** A text between two markers loses both. */
  lemma RemoveAround(part: string, text: string, rest: string)
    requires part != "" && part[0] !in text
    ensures Remove(part + text + part + rest, part) == text + Remove(rest, part)
  {
    hide Remove;
    assert part + text + part + rest == part + (text + (part + rest));
    RemoveFirst(part, text + (part + rest));
    RemovePasses(text, part, part + rest);
    RemoveFirst(part, rest);
  }

  /** The marker of the pass from `k` to `k + 1`. */
  function Mark(k: nat): string
    requires 1 <= k <= 3
    ensures Mark(k) != ""
  {
    if k == 1 then "**" else if k == 2 then "__" else "`"
  }

  lemma LinksPass(p: Piece, rest: string)
    requires GoodPieces([p])
    ensures StripLinks(Markdown(p) + rest) == Markdown(Pass(p, 1)) + StripLinks(rest)
  {
    hide StripLinks;
    assert p in [p];
    if p.Link? { LinkStripped(p.text, p.url, rest); } else { StripLinksPasses(Markdown(p), rest); }
  }

  lemma MarkPass(p: Piece, k: nat, rest: string)
    requires GoodPieces([p]) && 1 <= k <= 3
    ensures Remove(Markdown(Pass(p, k)) + rest, Mark(k)) == Markdown(Pass(p, k + 1)) + Remove(rest, Mark(k))
  {
    hide Remove;
    assert p in [p];
    if Pass(p, k) != Pass(p, k + 1) {
      assert Markdown(Pass(p, k)) == Mark(k) + p.text + Mark(k);
      RemoveAround(Mark(k), p.text, rest);
    } else {
      RemovePasses(Markdown(Pass(p, k)), Mark(k), rest);
    }
  }

  lemma {:induction false} LinksPassAll(pieces: seq<Piece>)
    requires GoodPieces(pieces)
    ensures StripLinks(Render(pieces)) == Render(PassAll(pieces, 1))
  {
    if pieces != [] {
      hide GoodPieces, StripLinks, Markdown, Pass;
      GoodTail(pieces);
      LinksPass(pieces[0], Render(pieces[1..]));
      LinksPassAll(pieces[1..]);
      assert PassAll(pieces, 1)[1..] == PassAll(pieces[1..], 1);
    }
  }

  lemma {:induction false} MarkPassAll(pieces: seq<Piece>, k: nat)
    requires GoodPieces(pieces) && 1 <= k <= 3
    ensures Remove(Render(PassAll(pieces, k)), Mark(k)) == Render(PassAll(pieces, k + 1))
  {
    if pieces != [] {
      hide GoodPieces, Remove, Markdown, Pass, Mark;
      GoodTail(pieces);
      MarkPass(pieces[0], k, Render(PassAll(pieces[1..], k)));
      MarkPassAll(pieces[1..], k);
      assert PassAll(pieces, k)[1..] == PassAll(pieces[1..], k);
      assert PassAll(pieces, k + 1)[1..] == PassAll(pieces[1..], k + 1);
    }
  }

  /** Links become their labels and bold, underlined and code markers disappear: cleaning
      decorated text gives the text behind the decoration, if that is tidy and fits. */
  lemma CleanUndecorates(pieces: seq<Piece>)
    requires GoodPieces(pieces)
    requires Trimmed(TextOf(pieces)) && SingleSpaced(TextOf(pieces)) && |TextOf(pieces)| <= 220
    requires TextOf(pieces) == "" || (TextOf(pieces)[|TextOf(pieces)| - 1] != ':'
                                      && TextOf(pieces)[|TextOf(pieces)| - 1] != '：')
    ensures Clean(Render(pieces)) == TextOf(pieces)
  {
    hide StripLinks, Remove, Render, TextOf, PassAll, CollapseSpaces, Strip;
    LinksPassAll(pieces);
    MarkPassAll(pieces, 1);
    MarkPassAll(pieces, 2);
    MarkPassAll(pieces, 3);
    RenderPasses(pieces);
    CollapseKeeps(TextOf(pieces));
    StripTrimmed(TextOf(pieces));
  }

  lemma {:induction false} CollapsePasses(a: string, rest: string)
    requires forall i :: 0 <= i < |a| ==> !IsSpace(a[i])
    ensures CollapseSpaces(a + rest) == a + CollapseSpaces(rest)
  {
    if a == "" {
      assert a + rest == rest;
    } else {
      assert (a + rest)[1..] == a[1..] + rest;
      CollapsePasses(a[1..], rest);
    }
  }

  /** White space between two words becomes one space, whatever it was. */
  lemma SpacesCollapse(word: string, spaces: string, rest: string)
    requires forall i :: 0 <= i < |word| ==> !IsSpace(word[i])
    requires spaces != "" && forall i :: 0 <= i < |spaces| ==> IsSpace(spaces[i])
    requires rest == "" || !IsSpace(rest[0])
    ensures CollapseSpaces(word + spaces + rest) == word + " " + CollapseSpaces(rest)
  {
    assert word + spaces + rest == word + (spaces + rest);
    CollapsePasses(word, spaces + rest);
    assert (spaces + rest)[1..] == spaces[1..] + rest;
    LStripSpaces(spaces[1..], rest);
  }

  /** Colons at the end are dropped, with the white space around them. */
  lemma ColonsDropped(s: string, colons: string)
    requires Trimmed(s) && (s == "" || (s[|s| - 1] != ':' && s[|s| - 1] != '：'))
    requires forall i :: 0 <= i < |colons| ==> colons[i] == ':' || colons[i] == '：'
    ensures Strip(RStripColons(s + colons)) == s
    decreases |colons|
  {
    if colons == "" {
      assert s + colons == s;
      StripTrimmed(s);
    } else {
      assert (s + colons)[..|s + colons| - 1] == s + colons[..|colons| - 1];
      ColonsDropped(s, colons[..|colons| - 1]);
    }
  }

  // ---------------------------------------------------------------- over-long text

  const MARKS: seq<char> := ['。', '；', '！', '？']

  /** The last `c` of the second half of the first 220 characters. */
  ghost predicate LastInHalf(text: string, c: char, p: nat)
    requires |text| > 220
  {
    110 <= p < 220 && text[p] == c && forall q :: p < q < 220 ==> text[q] != c
  }

  ghost predicate NoneInHalf(text: string, c: char)
    requires |text| > 220
  {
    forall q :: 110 <= q < 220 ==> text[q] != c
  }

  lemma LastIndexIs(text: string, c: char, p: nat)
    requires |text| > 220
    ensures LastInHalf(text, c, p) ==> LastIndexOf(text[..220], c) == p
    ensures NoneInHalf(text, c) ==> LastIndexOf(text[..220], c) < 110
  {
    hide LastIndexOf;
    var head := text[..220];
    var i := LastIndexOf(head, c);
    assert i >= 0 ==> text[i] == c;
    if LastInHalf(text, c, p) {
      assert head[p] == c;
      assert i >= p;
    }
  }

  /** An over-long text ends behind the last mark in the second half of its first 220 characters,
      where a full stop takes precedence over a semicolon, that over an exclamation mark and that
      over a question mark. */
  lemma ShortenCutsAtMark(text: string, k: nat, p: nat)
    requires |text| > 220 && k < 4 && LastInHalf(text, MARKS[k], p)
    requires forall j :: 0 <= j < k ==> NoneInHalf(text, MARKS[j])
    ensures Shorten(text) == text[..p + 1]
  {
    hide LastIndexOf;
    forall j: nat | j < 4 ensures LastInHalf(text, MARKS[j], p) ==> LastIndexOf(text[..220], MARKS[j]) == p {
      LastIndexIs(text, MARKS[j], p);
    }
    forall j | 0 <= j < k ensures LastIndexOf(text[..220], MARKS[j]) < 110 { LastIndexIs(text, MARKS[j], p); }
    assert FULL_STOP == MARKS[0] && SEMICOLON == MARKS[1] && EXCLAMATION == MARKS[2] && QUESTION == MARKS[3];
    assert text[..220][..p + 1] == text[..p + 1];
  }

  /** Without such a mark it is cut before the last comma there, and without a comma after 220
      characters; an ellipsis follows. */
  lemma ShortenCutsWithEllipsis(text: string, p: nat)
    requires |text| > 220 && forall j :: 0 <= j < 4 ==> NoneInHalf(text, MARKS[j])
    ensures LastInHalf(text, '，', p) ==> Shorten(text) == text[..p] + "…"
    ensures NoneInHalf(text, '，') ==> Shorten(text) == RStrip(text[..220]) + "…"
  {
    hide LastIndexOf;
    forall j: nat | j < 4 ensures LastIndexOf(text[..220], MARKS[j]) < 110 { LastIndexIs(text, MARKS[j], p); }
    LastIndexIs(text, COMMA, p);
    assert FULL_STOP == MARKS[0] && SEMICOLON == MARKS[1] && EXCLAMATION == MARKS[2] && QUESTION == MARKS[3];
    if LastInHalf(text, '，', p) { assert text[..220][..p] == text[..p]; }
  }
}
