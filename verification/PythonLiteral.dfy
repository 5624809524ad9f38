/**
 JSON string encoding as `json.dumps` does it, and the evaluation of Python literals built
 from strings, lists and dictionaries. The evaluator reads the escapes that JSON can emit as
 Python reads them, joins adjacent string literals and accepts parenthesised strings.
 */
module PythonLiteral {

  import opened Wrappers

  // ---------------------------------------------------------------- json.dumps of a string

  function HexDigit(n: nat): char
    requires n < 16
  {
    "0123456789abcdef"[n]
  }

  function Hex4(n: nat): string
    requires n < 0x1_0000
  {
    [HexDigit(n / 16 / 16 / 16), HexDigit(n / 16 / 16 % 16), HexDigit(n / 16 % 16), HexDigit(n % 16)]
  }

  function EscapeCode(n: nat): string
    requires n < 0x1_0000
  {
    "\\u" + Hex4(n)
  }

  /** The surrogates of a character beyond U+FFFF. */
  function EscapePair(n: nat): string
    requires n < 0x10_0000
  {
    EscapeCode(0xD800 + n / 1024) + EscapeCode(0xDC00 + n % 1024)
  }

  /** With `ascii`, characters outside the printable ASCII range are escaped too, those above
      U+FFFF as a pair of surrogates. */
  function Escape(c: char, ascii: bool): string {
    var n := c as int;
    if c == '\"' then "\\\""
    else if c == '\\' then "\\\\"
    else if c == '\n' then "\\n"
    else if c == '\r' then "\\r"
    else if c == '\t' then "\\t"
    else if n == 8 then "\\b"
    else if n == 12 then "\\f"
    else if n < 0x20 then EscapeCode(n)
    else if ascii && 0x7E < n < 0x1_0000 then EscapeCode(n)
    else if ascii && 0x1_0000 <= n then EscapePair(n - 0x1_0000)
    else [c]
  }

  function EscapeAll(s: string, ascii: bool): string {
    if s == "" then "" else Escape(s[0], ascii) + EscapeAll(s[1..], ascii)
  }

  function Dumps(s: string, ascii: bool): string {
    "\"" + EscapeAll(s, ascii) + "\""
  }

  // ---------------------------------------------------------------- tokens

  datatype Token = LBracket | RBracket | LBrace | RBrace | LParen | RParen | Colon | Comma | Str(text: string)

  function HexValue(c: char): Option<nat> {
    if '0' <= c <= '9' then Some(c as int - '0' as int)
    else if 'a' <= c <= 'f' then Some(c as int - 'a' as int + 10)
    else if 'A' <= c <= 'F' then Some(c as int - 'A' as int + 10)
    else None
  }

  /** The character named by four hex digits; a lone surrogate is not a character here. */
  function Unhex4(s: string): Option<char>
    requires |s| == 4
  {
    match (HexValue(s[0]), HexValue(s[1]), HexValue(s[2]), HexValue(s[3]))
    case (Some(a), Some(b), Some(c), Some(d)) =>
      var n := ((a * 16 + b) * 16 + c) * 16 + d;
      if n < 0xD800 || 0xE000 <= n < 0x11_0000 then Some(n as char) else None
    case _ => None
  }

  function SimpleEscape(c: char): Option<char> {
    match c
    case '\"' => Some('\"')
    case '\\' => Some('\\')
    case 'n' => Some('\n')
    case 'r' => Some('\r')
    case 't' => Some('\t')
    case 'b' => Some(8 as char)
    case 'f' => Some(12 as char)
    case _ => None
  }

  function Cons(c: char, r: Option<(string, string)>): Option<(string, string)> {
    match r
    case None => None
    case Some((text, rest)) => Some(([c] + text, rest))
  }

  /** Reads up to the closing quote; a string literal may not run over the end of a line. */
  function LexString(src: string): (r: Option<(string, string)>)
    ensures r.Some? ==> |r.value.1| < |src|
  {
    if src == "" || src[0] == '\n' || src[0] == '\r' then None
    else if src[0] == '\"' then Some(("", src[1..]))
    else if src[0] != '\\' then Cons(src[0], LexString(src[1..]))
    else if |src| >= 6 && src[1] == 'u' then
      match Unhex4(src[2..6])
      case Some(c) => Cons(c, LexString(src[6..]))
      case None => None
    else if |src| >= 2 then
      match SimpleEscape(src[1])
      case Some(c) => Cons(c, LexString(src[2..]))
      case None => None
    else None
  }

  function Prepend(ts: seq<Token>, r: Option<seq<Token>>): Option<seq<Token>> {
    if r.None? then None else Some(ts + r.value)
  }

  function Punctuation(c: char): Option<Token> {
    match c
    case '[' => Some(LBracket)
    case ']' => Some(RBracket)
    case '{' => Some(LBrace)
    case '}' => Some(RBrace)
    case '(' => Some(LParen)
    case ')' => Some(RParen)
    case ':' => Some(Colon)
    case ',' => Some(Comma)
    case _ => None
  }

  /** The tokens of an expression inside brackets, where spaces and line ends mean nothing. */
  function Lex(src: string): Option<seq<Token>>
    decreases |src|
  {
    if src == "" then Some([])
    else if src[0] == ' ' || src[0] == '\n' then Lex(src[1..])
    else if src[0] == '\"' then
      match LexString(src[1..])
      case Some((text, rest)) => Prepend([Str(text)], Lex(rest))
      case None => None
    else
      match Punctuation(src[0])
      case Some(t) => Prepend([t], Lex(src[1..]))
      case None => None
  }

  // ---------------------------------------------------------------- values

  datatype Value = Text(text: string) | List(items: seq<Value>) | Dict(fields: seq<(string, Value)>)

  /** One or more adjacent string literals denote their concatenation. */
  function ParseText(ts: seq<Token>): (r: Option<(string, seq<Token>)>)
    ensures r.Some? ==> |r.value.1| < |ts|
    decreases |ts|
  {
    if ts == [] || !ts[0].Str? then None
    else match ParseText(ts[1..])
         case None => Some((ts[0].text, ts[1..]))
         case Some((more, rest)) => Some((ts[0].text + more, rest))
  }

  function ParseValue(ts: seq<Token>): (r: Option<(Value, seq<Token>)>)
    ensures r.Some? ==> |r.value.1| < |ts|
    decreases |ts|, 1
  {
    if ts == [] then None
    else match ts[0]
         case Str(_) =>
           (match ParseText(ts)
            case Some((text, rest)) => Some((Text(text), rest))
            case None => None)
         case LParen =>
           (match ParseText(ts[1..])
            case Some((text, rest)) =>
              if rest != [] && rest[0] == RParen then Some((Text(text), rest[1..])) else None
            case None => None)
         case LBracket =>
           (match ParseItems(ts[1..])
            case Some((items, rest)) => Some((List(items), rest))
            case None => None)
         case LBrace =>
           (match ParseFields(ts[1..])
            case Some((fields, rest)) => Some((Dict(fields), rest))
            case None => None)
         case _ => None
  }

  /** List elements up to the closing bracket, with an optional trailing comma. */
  function ParseItems(ts: seq<Token>): (r: Option<(seq<Value>, seq<Token>)>)
    ensures r.Some? ==> |r.value.1| < |ts|
    decreases |ts|, 2
  {
    if ts == [] then None
    else if ts[0] == RBracket then Some(([], ts[1..]))
    else match ParseValue(ts)
         case None => None
         case Some((v, rest)) =>
           if rest == [] then None
           else if rest[0] == RBracket then Some(([v], rest[1..]))
           else if rest[0] == Comma then
             match ParseItems(rest[1..])
             case Some((vs, end)) => Some(([v] + vs, end))
             case None => None
           else None
  }

  function ParseFields(ts: seq<Token>): (r: Option<(seq<(string, Value)>, seq<Token>)>)
    ensures r.Some? ==> |r.value.1| < |ts|
    decreases |ts|, 2
  {
    if ts == [] then None
    else if ts[0] == RBrace then Some(([], ts[1..]))
    else match ParseText(ts)
         case None => None
         case Some((key, afterKey)) =>
           if afterKey == [] || afterKey[0] != Colon then None
           else match ParseValue(afterKey[1..])
                case None => None
                case Some((v, rest)) =>
                  if rest == [] then None
                  else if rest[0] == RBrace then Some(([(key, v)], rest[1..]))
                  else if rest[0] == Comma then
                    match ParseFields(rest[1..])
                    case Some((fs, end)) => Some(([(key, v)] + fs, end))
                    case None => None
                  else None
  }

  /** The value of a literal that is the whole of `src`. */
  function Eval(src: string): Option<Value> {
    match Lex(src)
    case None => None
    case Some(ts) =>
      match ParseValue(ts)
      case Some((v, rest)) => if rest == [] then Some(v) else None
      case None => None
  }

  // ---------------------------------------------------------------- JSON strings read as Python

  lemma HexInverse(n: nat)
    requires n < 16
    ensures HexValue(HexDigit(n)) == Some(n)
  {}

  lemma Hex4Inverse(n: nat)
    requires n < 0x1_0000
    ensures Unhex4(Hex4(n)) == if 0xD800 <= n < 0xE000 then None else Some(n as char)
  {
    var s := Hex4(n);
    assert HexValue(s[0]) == Some(n / 16 / 16 / 16) by { HexInverse(n / 16 / 16 / 16); }
    assert HexValue(s[1]) == Some(n / 16 / 16 % 16) by { HexInverse(n / 16 / 16 % 16); }
    assert HexValue(s[2]) == Some(n / 16 % 16) by { HexInverse(n / 16 % 16); }
    assert HexValue(s[3]) == Some(n % 16) by { HexInverse(n % 16); }
  }

  lemma LexCode(n: nat, rest: string)
    requires n < 0x1_0000
    ensures LexString(EscapeCode(n) + rest)
            == if 0xD800 <= n < 0xE000 then None else Cons(n as char, LexString(rest))
  {
    var src := EscapeCode(n) + rest;
    assert src[2..6] == Hex4(n) && src[6..] == rest;
    Hex4Inverse(n);
  }

  predicate Astral(c: char) { c as int >= 0x1_0000 }

  lemma LexAstral(c: char, rest: string)
    requires Astral(c)
    ensures LexString(Escape(c, true) + rest) == None
  {
    hide LexString, Hex4, EscapePair;
    assert Escape(c, true) == EscapePair(c as int - 0x1_0000);
    LexPair(c as int - 0x1_0000, rest);
  }

  lemma LexPair(n: nat, rest: string)
    requires n < 0x10_0000
    ensures LexString(EscapePair(n) + rest) == None
  {
    LexSurrogate(0xD800 + n / 1024, EscapeCode(0xDC00 + n % 1024), rest);
  }

  lemma LexSurrogate(hi: nat, more: string, rest: string)
    requires 0xD800 <= hi < 0xE000
    ensures LexString(EscapeCode(hi) + more + rest) == None
  {
    assert EscapeCode(hi) + more + rest == EscapeCode(hi) + (more + rest);
    LexCode(hi, more + rest);
  }

  lemma LexShort(c: char, rest: string)
    requires |Escape(c, false)| == 2
    ensures LexString(Escape(c, false) + rest) == Cons(c, LexString(rest))
  {
    var e := Escape(c, false);
    var src := e + rest;
    assert src[0] == '\\' && src[1] == e[1] && src[1] != 'u' && src[2..] == rest;
    assert SimpleEscape(e[1]) == Some(c);
  }

  /** An escaped character is read back, unless it was written as a pair of surrogates. */
  lemma LexEscaped(c: char, ascii: bool, rest: string)
    ensures LexString(Escape(c, ascii) + rest)
            == if ascii && Astral(c) then None else Cons(c, LexString(rest))
  {
    if ascii && Astral(c) {
      LexAstral(c, rest);
    } else if Escape(c, ascii) == [c] {
      assert ([c] + rest)[1..] == rest;
    } else if |Escape(c, false)| == 2 {
      LexShort(c, rest);
    } else {
      LexCode(c as int, rest);
    }
  }

  ghost predicate Readable(s: string, ascii: bool) {
    ascii ==> forall c :: c in s ==> !Astral(c)
  }

  lemma {:induction false} LexEscapedAll(s: string, ascii: bool, rest: string)
    ensures LexString(EscapeAll(s, ascii) + "\"" + rest)
            == if Readable(s, ascii) then Some((s, rest)) else None
  {
    if s == "" {
      assert EscapeAll(s, ascii) + "\"" + rest == "\"" + rest;
    } else {
      var tail := EscapeAll(s[1..], ascii) + "\"" + rest;
      assert EscapeAll(s, ascii) + "\"" + rest == Escape(s[0], ascii) + tail;
      LexEscaped(s[0], ascii, tail);
      LexEscapedAll(s[1..], ascii, rest);
      assert s == [s[0]] + s[1..];
    }
  }

  // ---------------------------------------------------------------- lexing piece by piece

  /** Whatever follows, the piece contributes exactly these tokens. */
  ghost predicate LexesTo(piece: string, ts: seq<Token>) {
    forall rest: string :: Lex(piece + rest) == Prepend(ts, Lex(rest))
  }

  ghost predicate LexFails(piece: string) {
    forall rest: string :: Lex(piece + rest) == None
  }

  lemma PrependAppend(x: seq<Token>, y: seq<Token>, r: Option<seq<Token>>)
    ensures Prepend(x, Prepend(y, r)) == Prepend(x + y, r)
    ensures Prepend([], r) == r
  {
    if r.Some? {
      assert x + (y + r.value) == x + y + r.value;
      assert [] + r.value == r.value;
    }
  }

  lemma LexAppend(a: string, x: seq<Token>, b: string, y: seq<Token>)
    requires LexesTo(a, x) && LexesTo(b, y)
    ensures LexesTo(a + b, x + y)
  {
    hide Lex;
    forall rest: string ensures Lex(a + b + rest) == Prepend(x + y, Lex(rest)) {
      assert a + b + rest == a + (b + rest);
      PrependAppend(x, y, Lex(rest));
    }
  }

  lemma LexFailsAfter(a: string, x: seq<Token>, b: string)
    requires LexesTo(a, x) && LexFails(b)
    ensures LexFails(a + b)
  {
    hide Lex;
    forall rest: string ensures Lex(a + b + rest) == None {
      assert a + b + rest == a + (b + rest);
    }
  }

  lemma LexFailsBefore(a: string, b: string)
    requires LexFails(a)
    ensures LexFails(a + b)
  {
    hide Lex;
    forall rest: string ensures Lex(a + b + rest) == None {
      assert a + b + rest == a + (b + rest);
    }
  }

  lemma LexPunctuationThen(c: char, t: Token, src: string)
    requires src != "" && src[0] == c && Punctuation(c) == Some(t)
    ensures Lex(src) == Prepend([t], Lex(src[1..]))
  {
    assert c != ' ' && c != '\n' && c != '\"';
  }

  lemma LexPunctuation(c: char, t: Token)
    requires Punctuation(c) == Some(t)
    ensures LexesTo([c], [t])
  {
    forall rest: string ensures Lex([c] + rest) == Prepend([t], Lex(rest)) {
      LexPunctuationThen(c, t, [c] + rest);
      assert ([c] + rest)[1..] == rest;
    }
  }

  predicate Blank(s: string) {
    forall i :: 0 <= i < |s| ==> s[i] == ' ' || s[i] == '\n'
  }

  lemma {:induction false} LexBlankThen(s: string, rest: string)
    requires Blank(s)
    ensures Lex(s + rest) == Lex(rest)
  {
    if s == "" {
      assert s + rest == rest;
    } else {
      LexBlankThen(s[1..], rest);
      assert (s + rest)[0] == s[0] && (s + rest)[1..] == s[1..] + rest;
    }
  }

  lemma LexBlank(s: string)
    requires Blank(s)
    ensures LexesTo(s, [])
  {
    forall rest: string ensures Lex(s + rest) == Prepend([], Lex(rest)) {
      LexBlankThen(s, rest);
      PrependAppend([], [], Lex(rest));
    }
  }

  /** A JSON string literal is one token whose text is the encoded string, whatever follows. */
  lemma LexDumps(s: string, ascii: bool)
    ensures Readable(s, ascii) ==> LexesTo(Dumps(s, ascii), [Str(s)])
    ensures !Readable(s, ascii) ==> LexFails(Dumps(s, ascii))
  {
    forall rest: string
      ensures Lex(Dumps(s, ascii) + rest) == if Readable(s, ascii) then Prepend([Str(s)], Lex(rest)) else None
    {
      assert (Dumps(s, ascii) + rest)[1..] == EscapeAll(s, ascii) + "\"" + rest;
      LexEscapedAll(s, ascii, rest);
    }
  }
}
