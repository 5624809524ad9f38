/** UTF-8 as Python encodes it and as it decodes it with the error handler `replace`. */
module Utf8 {

  newtype byte = x: int | 0 <= x < 256

  type Bytes = seq<byte>

  function Encode(c: char): (b: Bytes)
    ensures 1 <= |b| <= 4
  {
    var n := c as int;
    if n < 0x80 then [n as byte]
    else if n < 0x800 then [(0xC0 + n / 64) as byte, (0x80 + n % 64) as byte]
    else if n < 0x1_0000 then
      [(0xE0 + n / 64 / 64) as byte, (0x80 + n / 64 % 64) as byte, (0x80 + n % 64) as byte]
    else
      [(0xF0 + n / 64 / 64 / 64) as byte, (0x80 + n / 64 / 64 % 64) as byte, (0x80 + n / 64 % 64) as byte,
       (0x80 + n % 64) as byte]
  }

  function EncodeAll(s: string): Bytes {
    if s == "" then [] else Encode(s[0]) + EncodeAll(s[1..])
  }

  /** The length of the sequence that a byte starts; 0 for a byte that starts none. */
  function LengthOf(b: byte): (n: nat)
    ensures n <= 4
  {
    if b < 0x80 then 1
    else if b < 0xC2 then 0
    else if b < 0xE0 then 2
    else if b < 0xF0 then 3
    else if b < 0xF5 then 4
    else 0
  }

  /** Whether `b` may come second after `first`: neither overlong forms nor surrogates nor
      numbers beyond U+10FFFF. */
  predicate MayFollow(first: byte, b: byte) {
    (if first == 0xE0 then 0xA0 else if first == 0xF0 then 0x90 else 0x80) <= b
    < (if first == 0xED then 0xA0 else if first == 0xF4 then 0x90 else 0xC0)
  }

  predicate Continues(b: byte) { 0x80 <= b < 0xC0 }

  /** How many bytes at the start of `s` belong together; all `LengthOf` of them, or the part of
      them that is there and valid. */
  function Valid(s: Bytes): (n: nat)
    requires s != []
    ensures 1 <= n <= |s|
    ensures n <= 4
  {
    var length := LengthOf(s[0]);
    if length <= 1 || |s| < 2 || !MayFollow(s[0], s[1]) then 1
    else if length == 2 || |s| < 3 || !Continues(s[2]) then 2
    else if length == 3 || |s| < 4 || !Continues(s[3]) then 3
    else 4
  }

  function Low(b: byte): int { b as int % 64 }

  /** The number that a complete sequence stands for. */
  function CodePoint(s: Bytes): int
    requires 1 <= |s| <= 4
  {
    if |s| == 1 then s[0] as int
    else if |s| == 2 then (s[0] as int - 0xC0) * 64 + Low(s[1])
    else if |s| == 3 then ((s[0] as int - 0xE0) * 64 + Low(s[1])) * 64 + Low(s[2])
    else (((s[0] as int - 0xF0) * 64 + Low(s[1])) * 64 + Low(s[2])) * 64 + Low(s[3])
  }

  const REPLACEMENT: char := 0xFFFD as char

  predicate IsScalar(n: int) { 0 <= n < 0xD800 || 0xE000 <= n < 0x11_0000 }

  /** The first character; an incomplete or invalid sequence gives one replacement character. */
  function FirstChar(s: Bytes): char
    requires s != []
  {
    var n := CodePoint(s[..Valid(s)]);
    if Valid(s) == LengthOf(s[0]) && IsScalar(n) then n as char else REPLACEMENT
  }

  function Decode(s: Bytes): string
    decreases |s|
  {
    if s == [] then "" else [FirstChar(s)] + Decode(s[Valid(s)..])
  }

  lemma EncodedLength(c: char, rest: Bytes)
    ensures var s := Encode(c) + rest; Valid(s) == |Encode(c)| == LengthOf(s[0])
  {
    var n := c as int;
    var s := Encode(c) + rest;
    if 0x800 <= n < 0x1_0000 {
      assert MayFollow(s[0], s[1]);
    } else if n >= 0x1_0000 {
      assert MayFollow(s[0], s[1]);
    }
  }

  lemma EncodedNumber(c: char)
    ensures CodePoint(Encode(c)) == c as int
  {}

  lemma DecodeFirst(c: char, rest: Bytes)
    ensures Decode(Encode(c) + rest) == [c] + Decode(rest)
  {
    hide CodePoint, Encode, LengthOf, MayFollow, Continues, Valid;
    var s := Encode(c) + rest;
    EncodedLength(c, rest);
    EncodedNumber(c);
    assert s[..|Encode(c)|] == Encode(c) && s[|Encode(c)|..] == rest;
  }

  /** Decoding undoes encoding, whatever bytes follow. */
  lemma {:induction false} DecodeUndoesEncode(s: string, rest: Bytes)
    ensures Decode(EncodeAll(s) + rest) == s + Decode(rest)
  {
    hide Encode, Decode;
    if s == "" {
      assert EncodeAll(s) + rest == rest;
    } else {
      var tail := EncodeAll(s[1..]) + rest;
      assert EncodeAll(s) + rest == Encode(s[0]) + tail;
      DecodeFirst(s[0], tail);
      DecodeUndoesEncode(s[1..], rest);
      assert s == [s[0]] + s[1..];
    }
  }
}
