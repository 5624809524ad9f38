/**
 The string operations and patterns that scripts/sync_update_log.py applies to single lines:
 stripping, the heading, bullet and sub-item patterns, and the clean-up of item texts.
 */
module ChangelogText {
  import opened Text
  import opened Wrappers

  predicate Contains(s: string, part: string) {
    part <= s || (s != "" && Contains(s[1..], part))
  }

  // ---------------------------------------------------------------- patterns of whole lines

  datatype Heading = Heading(version: string, date: string, title: string)

  function TakeDigits(s: string): (r: string)
    ensures |r| <= |s|
  {
    if s != "" && IsDigit(s[0]) then [s[0]] + TakeDigits(s[1..]) else ""
  }

  predicate Digits(s: string) {
    s != "" && forall i :: 0 <= i < |s| ==> IsDigit(s[i])
  }

  /** Digits followed by the character `end`: the digits and what comes after `end`. */
  function DigitsUpTo(s: string, end: char): Option<(string, string)> {
    var d := TakeDigits(s);
    if d != "" && |d| < |s| && s[|d|] == end then Some((d, s[|d| + 1..])) else None
  }

  predicate IsDate(s: string) {
    && |s| == 10 && s[4] == '-' && s[7] == '-'
    && forall i :: 0 <= i < 10 && i != 4 && i != 7 ==> IsDigit(s[i])
  }

  predicate IsDash(c: char) { c == '-' || c as int == 0x2013 || c as int == 0x2014 }

  /** What follows the date and white space: nothing, or a dash and the title. */
  function MatchTitle(version: string, date: string, s: string): Option<Heading> {
    if s == "" then Some(Heading(version, date, ""))
    else if IsDash(s[0]) then Some(Heading(version, date, Strip(s[1..])))
    else None
  }

  function MatchDate(version: string, s: string): Option<Heading> {
    if |s| < 10 || !IsDate(s[..10]) then None else MatchTitle(version, s[..10], LStrip(s[10..]))
  }

  /** What follows the version's bracket: white space, a dash, the date, possibly a title. */
  function MatchAfterVersion(version: string, s: string): Option<Heading> {
    var dashed := LStrip(s);
    if dashed == "" || dashed[0] != '-' then None else MatchDate(version, LStrip(dashed[1..]))
  }

  /** The version up to its closing bracket and what comes after that. */
  function MatchVersion(s: string): Option<(string, string)> {
    match DigitsUpTo(s, '.')
    case None => None
    case Some((major, afterMajor)) =>
      match DigitsUpTo(afterMajor, '.')
      case None => None
      case Some((minor, afterMinor)) =>
        match DigitsUpTo(afterMinor, ']')
        case None => None
        case Some((patch, rest)) => Some((major + "." + minor + "." + patch, rest))
  }

  /** A version heading such as `## [1.2.3] - 2026-10-28 — title`. */
  function MatchHeading(line: string): Option<Heading> {
    if !("##" <= line) then None
    else
      var bracketed := LStrip(line[2..]);
      if bracketed == "" || bracketed[0] != '[' then None
      else match MatchVersion(bracketed[1..])
           case None => None
           case Some((version, rest)) => MatchAfterVersion(version, rest)
  }

  /** A top-level list item; its text is stripped. */
  function MatchBullet(line: string): Option<string> {
    if |line| >= 2 && (line[0] == '-' || line[0] == '*') && IsSpace(line[1]) then Some(Strip(line[2..]))
    else None
  }

  /** An indented list item: a bullet or a number with a dot or bracket. */
  predicate IsNested(line: string) {
    var item := LStrip(line);
    var digits := TakeDigits(item);
    && |item| < |line|
    && (|| (|item| >= 2 && (item[0] == '-' || item[0] == '*') && IsSpace(item[1]))
        || (digits != "" && |digits| + 1 < |item| && (item[|digits|] == '.' || item[|digits|] == ')')
            && IsSpace(item[|digits| + 1])))
  }

  // ---------------------------------------------------------------- cleaning item texts

  const MAX_FEATURE_LEN: nat := 220

  /** The position of the first `c`, or the length when there is none. */
  function IndexOf(s: string, c: char): (i: nat)
    ensures i <= |s|
    ensures i < |s| ==> s[i] == c
    ensures forall j :: 0 <= j < i ==> s[j] != c
  {
    if s == "" || s[0] == c then 0 else 1 + IndexOf(s[1..], c)
  }

  /** The position of the last `c`, or -1. */
  function LastIndexOf(s: string, c: char): (i: int)
    ensures -1 <= i < |s|
    ensures i >= 0 ==> s[i] == c
    ensures forall j :: i < j < |s| ==> s[j] != c
  {
    if s == "" then -1
    else if s[|s| - 1] == c then |s| - 1
    else LastIndexOf(s[..|s| - 1], c)
  }

  /** Replaces Markdown links by their labels. */
  function StripLinks(s: string): (r: string)
    ensures |r| <= |s|
    decreases |s|
  {
    if s == "" then ""
    else
      var close := IndexOf(s, ']');
      if s[0] == '[' && 1 < close && close + 1 < |s| && s[close + 1] == '(' then
        var end := IndexOf(s[close + 2..], ')');
        if 0 < end && close + 2 + end < |s|
        then s[1..close] + StripLinks(s[close + 3 + end..])
        else [s[0]] + StripLinks(s[1..])
      else [s[0]] + StripLinks(s[1..])
  }

  /** Removes the occurrences of `part` from left to right. */
  function Remove(s: string, part: string): (r: string)
    requires part != ""
    ensures |r| <= |s|
    decreases |s|
  {
    if s == "" then "" else if part <= s then Remove(s[|part|..], part) else [s[0]] + Remove(s[1..], part)
  }

  /** Replaces each run of white space by one space. */
  function CollapseSpaces(s: string): (r: string)
    ensures |r| <= |s|
    decreases |s|
  {
    if s == "" then ""
    else if IsSpace(s[0]) then " " + CollapseSpaces(LStrip(s[1..]))
    else [s[0]] + CollapseSpaces(s[1..])
  }

  function RStripColons(s: string): (r: string)
    ensures |r| <= |s|
  {
    if s != "" && (s[|s| - 1] == ':' || s[|s| - 1] as int == 0xFF1A) then RStripColons(s[..|s| - 1]) else s
  }

  function PlainText(s: string): string {
    Strip(RStripColons(Strip(CollapseSpaces(Remove(Remove(Remove(StripLinks(s), "**"), "__"), "`")))))
  }

  const FULL_STOP: char := 0x3002 as char
  const SEMICOLON: char := 0xFF1B as char
  const EXCLAMATION: char := 0xFF01 as char
  const QUESTION: char := 0xFF1F as char
  const COMMA: char := 0xFF0C as char
  const ELLIPSIS: char := 0x2026 as char

  predicate IsSentenceMark(c: char) { c == FULL_STOP || c == SEMICOLON || c == EXCLAMATION || c == QUESTION }

  /** Ends an over-long text at the last sentence mark of its second half, else at a comma,
      else in mid-sentence: what is kept is the start of the text, up to the mark or followed by
      an ellipsis. */
  function Shorten(text: string): (r: string)
    requires |text| > MAX_FEATURE_LEN
    ensures 1 <= |r| <= MAX_FEATURE_LEN + 1
    ensures (r <= text && |r| > MAX_FEATURE_LEN / 2 && IsSentenceMark(r[|r| - 1]))
            || (r[..|r| - 1] <= text && r[|r| - 1] == ELLIPSIS)
  {
    var head := text[..MAX_FEATURE_LEN];
    var half := MAX_FEATURE_LEN / 2;
    if LastIndexOf(head, FULL_STOP) >= half then head[..LastIndexOf(head, FULL_STOP) + 1]
    else if LastIndexOf(head, SEMICOLON) >= half then head[..LastIndexOf(head, SEMICOLON) + 1]
    else if LastIndexOf(head, EXCLAMATION) >= half then head[..LastIndexOf(head, EXCLAMATION) + 1]
    else if LastIndexOf(head, QUESTION) >= half then head[..LastIndexOf(head, QUESTION) + 1]
    else if LastIndexOf(head, COMMA) >= half then head[..LastIndexOf(head, COMMA)] + [ELLIPSIS]
    else RStrip(head) + [ELLIPSIS]
  }

  /** `_clean`: plain text of at most one character over the limit. */
  function Clean(s: string): (r: string)
    ensures |r| <= MAX_FEATURE_LEN + 1
  {
    var text := PlainText(s);
    if |text| <= MAX_FEATURE_LEN then text else Shorten(text)
  }

  // ---------------------------------------------------------------- what cleaning does

  /** Every character of `r` is one of `s` or a space. */
  ghost predicate From(r: string, s: string) { forall c :: c in r ==> c in s || c == ' ' }

  /** All white space is single spaces. */
  ghost predicate SingleSpaced(s: string) {
    forall i :: 0 <= i < |s| && IsSpace(s[i]) ==> s[i] == ' ' && (i + 1 < |s| ==> !IsSpace(s[i + 1]))
  }

  lemma FromJoin(s: string, i: nat, j: nat, k: nat, rest: string)
    requires i <= j <= |s| && k <= |s| && From(rest, s[k..])
    ensures From(s[i..j] + rest, s)
  {}

  lemma {:induction false} StripLinksFrom(s: string)
    ensures From(StripLinks(s), s)
    decreases |s|
  {
    if s == "" {
      assert From("", s);
    } else {
      hide From, IndexOf;
      var close := IndexOf(s, ']');
      var linked := s[0] == '[' && 1 < close && close + 1 < |s| && s[close + 1] == '(';
      var end := if linked then IndexOf(s[close + 2..], ')') else 0;
      if linked && 0 < end && close + 2 + end < |s| {
        StripLinksFrom(s[close + 3 + end..]);
        FromJoin(s, 1, close, close + 3 + end, StripLinks(s[close + 3 + end..]));
      } else {
        StripLinksFrom(s[1..]);
        FromJoin(s, 0, 1, 1, StripLinks(s[1..]));
        assert s[0..1] == [s[0]];
      }
    }
  }

  lemma {:induction false} RemoveFrom(s: string, part: string)
    requires part != ""
    ensures From(Remove(s, part), s)
    ensures |part| == 1 ==> part[0] !in Remove(s, part)
    decreases |s|
  {
    if s != "" {
      if part <= s {
        RemoveFrom(s[|part|..], part);
      } else {
        RemoveFrom(s[1..], part);
      }
    }
  }

  lemma {:induction false} CollapseFacts(s: string)
    ensures From(CollapseSpaces(s), s) && SingleSpaced(CollapseSpaces(s))
    ensures s != "" && !IsSpace(s[0]) ==> CollapseSpaces(s) != "" && CollapseSpaces(s)[0] == s[0]
    decreases |s|
  {
    if s != "" {
      if IsSpace(s[0]) {
        var rest := LStrip(s[1..]);
        var a := LStripIsSuffix(s[1..]);
        CollapseFacts(rest);
        SpaceBefore(CollapseSpaces(rest));
      } else {
        CollapseFacts(s[1..]);
        assert CollapseSpaces(s) == [s[0]] + CollapseSpaces(s[1..]);
        CharacterBefore(s[0], CollapseSpaces(s[1..]));
      }
    }
  }

  lemma SpaceBefore(s: string)
    requires SingleSpaced(s) && (s == "" || !IsSpace(s[0]))
    ensures SingleSpaced(" " + s)
  {
    var t := " " + s;
    forall i | 0 <= i < |t| && IsSpace(t[i]) ensures t[i] == ' ' && (i + 1 < |t| ==> !IsSpace(t[i + 1])) {
      if i > 0 { assert t[i] == s[i - 1]; }
    }
  }

  lemma CharacterBefore(c: char, s: string)
    requires SingleSpaced(s) && !IsSpace(c)
    ensures SingleSpaced([c] + s)
  {
    var t := [c] + s;
    forall i | 0 <= i < |t| && IsSpace(t[i]) ensures t[i] == ' ' && (i + 1 < |t| ==> !IsSpace(t[i + 1])) {
      assert t[i] == s[i - 1];
    }
  }

  lemma SliceFacts(s: string, a: nat, b: nat)
    requires a <= b <= |s| && SingleSpaced(s)
    ensures SingleSpaced(s[a..b]) && From(s[a..b], s)
  {
    var t := s[a..b];
    forall i | 0 <= i < |t| && IsSpace(t[i]) ensures t[i] == ' ' && (i + 1 < |t| ==> !IsSpace(t[i + 1])) {
      assert t[i] == s[a + i];
      if i + 1 < |t| { assert t[i + 1] == s[a + (i + 1)]; }
    }
  }

  lemma {:induction false} RStripColonsIsPrefix(s: string)
    ensures RStripColons(s) <= s
  {
    if s != "" && (s[|s| - 1] == ':' || s[|s| - 1] as int == 0xFF1A) { RStripColonsIsPrefix(s[..|s| - 1]); }
  }

  lemma PlainTextFacts(s: string)
    ensures var r := PlainText(s); Trimmed(r) && SingleSpaced(r) && From(r, s) && '`' !in r
  {
    hide StripLinks, Remove, CollapseSpaces, Strip, RStripColons, IsSpace, SingleSpaced;
    var a := StripLinks(s);
    var b := Remove(a, "**");
    var c := Remove(b, "__");
    var d := Remove(c, "`");
    var e := CollapseSpaces(d);
    StripLinksFrom(s);
    RemoveFrom(a, "**");
    RemoveFrom(b, "__");
    RemoveFrom(c, "`");
    CollapseFacts(d);
    var f := Strip(e);
    var a1, b1 := StripIsSlice(e);
    SliceFacts(e, a1, b1);
    var g := RStripColons(f);
    RStripColonsIsPrefix(f);
    assert g == f[0..|g|];
    SliceFacts(f, 0, |g|);
    var a2, b2 := StripIsSlice(g);
    SliceFacts(g, a2, b2);
  }

  lemma ShortenFacts(text: string)
    requires |text| > MAX_FEATURE_LEN && Trimmed(text) && SingleSpaced(text)
    ensures var r := Shorten(text);
            Trimmed(r) && SingleSpaced(r) && forall c :: c in r ==> c in text || c == ELLIPSIS
  {
    var r := Shorten(text);
    if r <= text && IsSentenceMark(r[|r| - 1]) {
      assert r == text[0..|r|];
      SliceFacts(text, 0, |r|);
    } else {
      var front := r[..|r| - 1];
      assert r == front + [ELLIPSIS] && front == text[0..|front|];
      SliceFacts(text, 0, |front|);
      EllipsisAfter(front);
    }
  }

  lemma EllipsisAfter(s: string)
    requires SingleSpaced(s)
    ensures SingleSpaced(s + [ELLIPSIS])
  {
    var t := s + [ELLIPSIS];
    forall i | 0 <= i < |t| && IsSpace(t[i]) ensures t[i] == ' ' && (i + 1 < |t| ==> !IsSpace(t[i + 1])) {
      assert t[i] == s[i];
      if i + 1 < |s| { assert t[i + 1] == s[i + 1]; }
    }
  }

  /** Cleaned text has no white space at its ends and only single spaces inside, no backtick, and
      no character that is not in the original, but for spaces and an ellipsis. */
  lemma CleanFacts(s: string)
    ensures var r := Clean(s);
            && Trimmed(r) && SingleSpaced(r) && '`' !in r
            && forall c :: c in r ==> c in s || c == ' ' || c == ELLIPSIS
  {
    hide PlainText, Shorten, SingleSpaced, Trimmed;
    PlainTextFacts(s);
    if |PlainText(s)| > MAX_FEATURE_LEN { ShortenFacts(PlainText(s)); }
  }

  lemma {:induction false} StripLinksKeeps(s: string)
    requires '[' !in s
    ensures StripLinks(s) == s
  {
    if s != "" {
      StripLinksKeeps(s[1..]);
      assert s == [s[0]] + s[1..];
    }
  }

  lemma {:induction false} RemoveKeeps(s: string, part: string)
    requires part != "" && part[0] !in s
    ensures Remove(s, part) == s
  {
    if s != "" {
      RemoveKeeps(s[1..], part);
      assert s == [s[0]] + s[1..];
    }
  }

  lemma {:induction false} CollapseKeeps(s: string)
    requires SingleSpaced(s)
    ensures CollapseSpaces(s) == s
  {
    if s != "" {
      assert s == [s[0]] + s[1..];
      assert s[1..] == s[1..|s|];
      SliceFacts(s, 1, |s|);
      if IsSpace(s[0]) { assert LStrip(s[1..]) == s[1..]; }
      CollapseKeeps(s[1..]);
    }
  }

  /** Plain text of fitting length is left as it is. */
  lemma CleanKeepsPlainText(s: string)
    requires '[' !in s && '*' !in s && '_' !in s && '`' !in s
    requires Trimmed(s) && SingleSpaced(s) && |s| <= 220
    requires s == "" || (s[|s| - 1] != ':' && s[|s| - 1] as int != 0xFF1A)
    ensures Clean(s) == s
  {
    StripLinksKeeps(s);
    RemoveKeeps(s, "**");
    RemoveKeeps(s, "__");
    RemoveKeeps(s, "`");
    CollapseKeeps(s);
    StripTrimmed(s);
  }

  // ---------------------------------------------------------------- reading printed lines back

  lemma {:induction false} LStripSpaces(s: string, rest: string)
    requires forall i :: 0 <= i < |s| ==> IsSpace(s[i])
    requires rest == "" || !IsSpace(rest[0])
    ensures LStrip(s + rest) == rest
  {
    if s == "" {
      assert s + rest == rest;
    } else {
      assert (s + rest)[1..] == s[1..] + rest;
      LStripSpaces(s[1..], rest);
    }
  }

  lemma {:induction false} TakeDigitsThen(d: string, rest: string)
    requires Digits(d) || d == ""
    requires rest == "" || !IsDigit(rest[0])
    ensures TakeDigits(d + rest) == d
  {
    if d == "" {
      assert d + rest == rest;
    } else {
      assert (d + rest)[1..] == d[1..] + rest;
      TakeDigitsThen(d[1..], rest);
    }
  }

  lemma DigitsUpToPrinted(d: string, end: char, rest: string)
    requires Digits(d) && !IsDigit(end)
    ensures DigitsUpTo(d + [end] + rest, end) == Some((d, rest))
  {
    assert d + [end] + rest == d + ([end] + rest);
    TakeDigitsThen(d, [end] + rest);
    assert (d + [end] + rest)[|d| + 1..] == rest;
  }

  lemma LStripOne(c: char, rest: string)
    requires IsSpace(c) && (rest == "" || !IsSpace(rest[0]))
    ensures LStrip([c] + rest) == rest
  {
    LStripSpaces([c], rest);
  }

  function PrintTitle(title: string): string {
    if title == "" then "" else " " + [0x2014 as char] + " " + title
  }

  function PrintHeading(major: string, minor: string, patch: string, date: string, title: string): string {
    "## [" + major + "." + minor + "." + patch + "] - " + date + PrintTitle(title)
  }

  lemma MatchTitlePrinted(version: string, date: string, title: string)
    requires Trimmed(title)
    ensures MatchTitle(version, date, LStrip(PrintTitle(title))) == Some(Heading(version, date, title))
  {
    if title != "" {
      var dash := [0x2014 as char] + (" " + title);
      assert PrintTitle(title) == [' '] + dash;
      LStripOne(' ', dash);
      StripSpaceTrimmed(title);
      assert dash[1..] == " " + title;
    }
  }

  lemma MatchDatePrinted(version: string, date: string, title: string)
    requires IsDate(date) && Trimmed(title)
    ensures MatchDate(version, date + PrintTitle(title)) == Some(Heading(version, date, title))
  {
    var s := date + PrintTitle(title);
    assert s[..10] == date && s[10..] == PrintTitle(title);
    MatchTitlePrinted(version, date, title);
  }

  lemma MatchAfterVersionPrinted(version: string, date: string, title: string)
    requires IsDate(date) && Trimmed(title)
    ensures MatchAfterVersion(version, " - " + (date + PrintTitle(title))) == Some(Heading(version, date, title))
  {
    hide LStrip, MatchDate, PrintTitle, Trimmed;
    var dated := date + PrintTitle(title);
    assert IsDigit(dated[0]);
    assert " - " + dated == [' '] + ("- " + dated);
    LStripOne(' ', "- " + dated);
    assert ("- " + dated)[1..] == [' '] + dated;
    LStripOne(' ', dated);
    MatchDatePrinted(version, date, title);
  }

  lemma MatchVersionPrinted(major: string, minor: string, patch: string, rest: string)
    requires Digits(major) && Digits(minor) && Digits(patch)
    ensures MatchVersion(major + ['.'] + (minor + ['.'] + (patch + [']'] + rest)))
            == Some((major + "." + minor + "." + patch, rest))
  {
    DigitsUpToPrinted(major, '.', minor + ['.'] + (patch + [']'] + rest));
    DigitsUpToPrinted(minor, '.', patch + [']'] + rest);
    DigitsUpToPrinted(patch, ']', rest);
  }

  lemma StripSpaceTrimmed(title: string)
    requires title != "" && Trimmed(title)
    ensures Strip(" " + title) == title
  {
    assert (" " + title)[|title|] == title[|title| - 1];
    LStripOne(' ', title);
    assert " " + title == [' '] + title;
  }

  lemma MatchBracketed(body: string, version: string, rest: string)
    requires MatchVersion(body) == Some((version, rest))
    ensures MatchHeading("## [" + body) == MatchAfterVersion(version, rest)
  {
    var line := "## [" + body;
    assert line[2..] == [' '] + (['['] + body);
    LStripOne(' ', ['['] + body);
    assert (['['] + body)[1..] == body;
  }

  lemma PrintHeadingParts(major: string, minor: string, patch: string, date: string, title: string)
    ensures PrintHeading(major, minor, patch, date, title)
            == "## [" + (major + ['.'] + (minor + ['.'] + (patch + [']'] + (" - " + (date + PrintTitle(title))))))
  {
    var tail := date + PrintTitle(title);
    assert "] - " + tail == [']'] + (" - " + tail);
  }

  /** A printed version heading is recognised with its version, date and title. */
  lemma HeadingRoundTrip(major: string, minor: string, patch: string, date: string, title: string)
    requires Digits(major) && Digits(minor) && Digits(patch) && IsDate(date) && Trimmed(title)
    ensures MatchHeading(PrintHeading(major, minor, patch, date, title))
            == Some(Heading(major + "." + minor + "." + patch, date, title))
  {
    var rest := " - " + (date + PrintTitle(title));
    PrintHeadingParts(major, minor, patch, date, title);
    MatchVersionPrinted(major, minor, patch, rest);
    MatchBracketed(major + ['.'] + (minor + ['.'] + (patch + [']'] + rest)), major + "." + minor + "." + patch, rest);
    MatchAfterVersionPrinted(major + "." + minor + "." + patch, date, title);
  }

  lemma HeadingTrimmed(major: string, minor: string, patch: string, date: string, title: string)
    requires IsDate(date) && Trimmed(title)
    ensures RStrip(PrintHeading(major, minor, patch, date, title)) == PrintHeading(major, minor, patch, date, title)
  {
    var line := PrintHeading(major, minor, patch, date, title);
    if title == "" {
      assert line[|line| - 1] == date[9] && IsDigit(date[9]);
    } else {
      assert line[|line| - 1] == title[|title| - 1];
    }
  }
}
