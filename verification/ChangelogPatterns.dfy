/**
 Which lines the changelog parser takes for version headings (`HeadingIff`) and for sub-items
 (`SubItemIff`).
 */
module ChangelogPatterns {
  import opened Text
  import opened Wrappers
  import opened ChangelogText

  predicate AllSpaces(s: string) { forall i :: 0 <= i < |s| ==> IsSpace(s[i]) }

  /** The parts of a version heading; `s1` to `s4` are its white space, `tail` is empty or the dash
      before the title and what follows it. */
  datatype Parts = Parts(s1: string, major: string, minor: string, patch: string, s2: string, s3: string,
                         date: string, s4: string, tail: string)

  ghost predicate GoodParts(p: Parts) {
    && AllSpaces(p.s1) && AllSpaces(p.s2) && AllSpaces(p.s3) && AllSpaces(p.s4)
    && Digits(p.major) && Digits(p.minor) && Digits(p.patch) && IsDate(p.date)
    && (p.tail == "" || IsDash(p.tail[0]))
  }

  function AfterVersion(p: Parts): string { p.s2 + ("-" + (p.s3 + (p.date + (p.s4 + p.tail)))) }

  function HeadingText(p: Parts): string {
    "##" + (p.s1 + ("[" + (p.major + ['.'] + (p.minor + ['.'] + (p.patch + [']'] + AfterVersion(p))))))
  }

  function HeadingOf(p: Parts): Heading {
    Heading(p.major + "." + p.minor + "." + p.patch, p.date, if p.tail == "" then "" else Strip(p.tail[1..]))
  }

  lemma DashIsNoSpace(c: char)
    requires IsDash(c)
    ensures !IsSpace(c)
  {}

  lemma AfterVersionMatched(version: string, p: Parts)
    requires GoodParts(p)
    ensures MatchAfterVersion(version, AfterVersion(p))
            == Some(Heading(version, p.date, if p.tail == "" then "" else Strip(p.tail[1..])))
  {
    hide LStrip, Strip, Digits;
    var dated := p.date + (p.s4 + p.tail);
    if p.tail != "" { DashIsNoSpace(p.tail[0]); }
    LStripSpaces(p.s2, "-" + (p.s3 + dated));
    assert ("-" + (p.s3 + dated))[1..] == p.s3 + dated;
    assert IsDigit(dated[0]);
    LStripSpaces(p.s3, dated);
    assert dated[..10] == p.date && dated[10..] == p.s4 + p.tail;
    LStripSpaces(p.s4, p.tail);
  }

  lemma PartsMatched(p: Parts)
    requires GoodParts(p)
    ensures MatchHeading(HeadingText(p)) == Some(HeadingOf(p))
  {
    hide MatchAfterVersion, MatchVersion, LStrip, Digits, IsDate, AllSpaces;
    var line := HeadingText(p);
    var numbers := p.major + ['.'] + (p.minor + ['.'] + (p.patch + [']'] + AfterVersion(p)));
    assert line[2..] == p.s1 + ("[" + numbers) && "##" <= line;
    LStripAll(p.s1, "[" + numbers);
    assert ("[" + numbers)[1..] == numbers;
    MatchVersionPrinted(p.major, p.minor, p.patch, AfterVersion(p));
    AfterVersionMatched(p.major + "." + p.minor + "." + p.patch, p);
  }

  lemma LStripAll(s: string, rest: string)
    requires AllSpaces(s) && (rest == "" || !IsSpace(rest[0]))
    ensures LStrip(s + rest) == rest
  {
    LStripSpaces(s, rest);
  }

  /** Leading white space and the rest. */
  lemma {:induction false} LStripSplit(s: string) returns (spaces: string)
    ensures AllSpaces(spaces) && s == spaces + LStrip(s)
  {
    if s != "" && IsSpace(s[0]) {
      var tail := LStripSplit(s[1..]);
      spaces := [s[0]] + tail;
      assert s == [s[0]] + s[1..];
    } else {
      spaces := "";
      assert s == "" + s;
    }
  }

  lemma {:induction false} TakeDigitsFacts(s: string)
    ensures TakeDigits(s) <= s
    ensures TakeDigits(s) != "" ==> Digits(TakeDigits(s))
  {
    if s != "" && IsDigit(s[0]) {
      TakeDigitsFacts(s[1..]);
      assert s == [s[0]] + s[1..];
    }
  }

  lemma DigitsUpToSplit(s: string, end: char)
    requires DigitsUpTo(s, end).Some?
    ensures var (d, rest) := DigitsUpTo(s, end).value; Digits(d) && s == d + [end] + rest
  {
    TakeDigitsFacts(s);
  }

  lemma VersionSplit(s: string) returns (major: string, minor: string, patch: string, rest: string)
    requires MatchVersion(s).Some?
    ensures Digits(major) && Digits(minor) && Digits(patch)
    ensures s == major + ['.'] + (minor + ['.'] + (patch + [']'] + rest))
    ensures MatchVersion(s) == Some((major + "." + minor + "." + patch, rest))
  {
    hide Digits, DigitsUpTo;
    DigitsUpToSplit(s, '.');
    var (a, afterA) := DigitsUpTo(s, '.').value;
    DigitsUpToSplit(afterA, '.');
    var (b, afterB) := DigitsUpTo(afterA, '.').value;
    DigitsUpToSplit(afterB, ']');
    var (c, afterC) := DigitsUpTo(afterB, ']').value;
    major, minor, patch, rest := a, b, c, afterC;
  }

  lemma AfterVersionSplit(version: string, s: string)
    returns (s2: string, s3: string, date: string, s4: string, tail: string)
    requires MatchAfterVersion(version, s).Some?
    ensures AllSpaces(s2) && AllSpaces(s3) && AllSpaces(s4) && IsDate(date) && (tail == "" || IsDash(tail[0]))
    ensures s == s2 + ("-" + (s3 + (date + (s4 + tail))))
  {
    hide LStrip, Strip, AllSpaces;
    s2 := LStripSplit(s);
    var dashed := LStrip(s);
    assert dashed == "-" + dashed[1..];
    s3 := LStripSplit(dashed[1..]);
    var dated := LStrip(dashed[1..]);
    date := dated[..10];
    assert dated == date + dated[10..];
    s4 := LStripSplit(dated[10..]);
    tail := LStrip(dated[10..]);
  }

  lemma HeadingSplit(line: string) returns (p: Parts)
    requires MatchHeading(line).Some?
    ensures GoodParts(p) && line == HeadingText(p)
  {
    hide MatchVersion, MatchAfterVersion, LStrip, Digits, IsDate, AllSpaces;
    assert line == "##" + line[2..];
    var s1 := LStripSplit(line[2..]);
    var bracketed := LStrip(line[2..]);
    assert bracketed == "[" + bracketed[1..];
    var major, minor, patch, rest := VersionSplit(bracketed[1..]);
    var s2, s3, date, s4, tail := AfterVersionSplit(major + "." + minor + "." + patch, rest);
    p := Parts(s1, major, minor, patch, s2, s3, date, s4, tail);
    assert AfterVersion(p) == rest;
  }

  /** A line is a version heading exactly when it consists of two number signs, three numbers in
      brackets, a dash, a date and, after another dash, possibly a title, with any white space
      between these; it then has that version and date and the stripped title. */
  lemma HeadingIff(line: string, h: Heading)
    ensures MatchHeading(line) == Some(h)
            <==> exists p :: GoodParts(p) && line == HeadingText(p) && h == HeadingOf(p)
  {
    hide MatchHeading, HeadingText, HeadingOf, GoodParts;
    if MatchHeading(line) == Some(h) {
      var p := HeadingSplit(line);
      PartsMatched(p);
    }
    if p :| GoodParts(p) && line == HeadingText(p) && h == HeadingOf(p) { PartsMatched(p); }
  }

  // ---------------------------------------------------------------- sub-items

  /** A list marker: a hyphen, an asterisk, or a number with a dot or a closing parenthesis. */
  predicate IsMarker(m: string) {
    || m == "-" || m == "*"
    || (|m| >= 2 && Digits(m[..|m| - 1]) && (m[|m| - 1] == '.' || m[|m| - 1] == ')'))
  }

  ghost predicate MadeOf(line: string, indent: string, marker: string, space: char, text: string) {
    && indent != "" && AllSpaces(indent) && IsMarker(marker) && IsSpace(space)
    && line == indent + (marker + ([space] + text))
  }

  /** White space, a list marker, white space and any text. */
  ghost predicate SubItem(line: string) {
    exists indent, marker, space, text :: MadeOf(line, indent, marker, space, text)
  }

  lemma {:induction false} TakeDigitsOf(d: string, rest: string)
    requires forall i :: 0 <= i < |d| ==> IsDigit(d[i])
    requires rest == "" || !IsDigit(rest[0])
    ensures TakeDigits(d + rest) == d
  {
    if d == "" {
      assert d + rest == rest;
    } else {
      assert (d + rest)[1..] == d[1..] + rest;
      TakeDigitsOf(d[1..], rest);
    }
  }

  lemma MarkerStarts(marker: string)
    requires IsMarker(marker)
    ensures !IsSpace(marker[0])
  {
    if |marker| >= 2 { assert IsDigit(marker[..|marker| - 1][0]); }
  }

  lemma SubItemIsNested(line: string, indent: string, marker: string, space: char, text: string)
    requires MadeOf(line, indent, marker, space, text)
    ensures IsNested(line)
  {
    hide LStrip, TakeDigits;
    var item := marker + ([space] + text);
    MarkerStarts(marker);
    LStripSpaces(indent, item);
    if |marker| >= 2 {
      var d := marker[..|marker| - 1];
      var rest := [marker[|marker| - 1]] + ([space] + text);
      assert item == d + rest;
      TakeDigitsOf(d, rest);
    }
  }

  lemma NestedIsSubItem(line: string)
    requires IsNested(line)
    ensures SubItem(line)
  {
    hide LStrip, TakeDigits;
    var indent := LStripSplit(line);
    var item := LStrip(line);
    if |item| >= 2 && (item[0] == '-' || item[0] == '*') && IsSpace(item[1]) {
      assert item == [item[0]] + ([item[1]] + item[2..]);
      assert MadeOf(line, indent, [item[0]], item[1], item[2..]);
    } else {
      TakeDigitsFacts(item);
      var n := |TakeDigits(item)|;
      var marker := item[..n + 1];
      assert marker[..n] == TakeDigits(item);
      assert item == marker + ([item[n + 1]] + item[n + 2..]);
      assert MadeOf(line, indent, marker, item[n + 1], item[n + 2..]);
    }
  }

  /** A line is a sub-item exactly when it consists of white space, a list marker, white space and
      any text. */
  lemma SubItemIff(line: string)
    ensures IsNested(line) <==> SubItem(line)
  {
    hide IsNested, MadeOf;
    if IsNested(line) { NestedIsSubItem(line); }
    if indent, marker, space, text :| MadeOf(line, indent, marker, space, text) {
      SubItemIsNested(line, indent, marker, space, text);
    }
  }
}
