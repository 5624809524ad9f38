/**
 The `ar` container of scripts/extract_deb.py: reading the members of arbitrary bytes, and
 writing members so that they are read back.
 */
module ArArchive {
  import opened Decimal
  import opened Wrappers
  import opened Utf8
  import Text

  const AR_MAGIC: Bytes := [0x21, 0x3C, 0x61, 0x72, 0x63, 0x68, 0x3E, 0x0A]
  const HEADER_SIZE: nat := 60
  const SPACE: byte := 0x20
  const SLASH: byte := 0x2F

  datatype Member = Member(name: string, payload: Bytes)

  /** How reading ended; an error carries the member's name. */
  datatype End = Finished | NotAnArchive | CorruptedHeader(name: string) | TruncatedMember(name: string)

  datatype Listing = Listing(members: seq<Member>, end: End)

  // ---------------------------------------------------------------- header fields

  predicate IsSpace(b: byte) { 9 <= b <= 13 || 0x1C <= b <= 0x20 }

  function LStrip(s: Bytes): Bytes {
    if s != [] && IsSpace(s[0]) then LStrip(s[1..]) else s
  }

  function RStrip(s: Bytes): Bytes {
    if s != [] && IsSpace(s[|s| - 1]) then RStrip(s[..|s| - 1]) else s
  }

  function RStripSlashes(s: string): string {
    if s != "" && s[|s| - 1] == '/' then RStripSlashes(s[..|s| - 1]) else s
  }

  /** The decoded field, stripped, without slashes at its end. */
  function NameOf(field: Bytes): string { RStripSlashes(Text.Strip(Decode(field))) }

  predicate IsDigit(b: byte) { 0x30 <= b <= 0x39 }

  /** Digits with single underscores between them, as Python's `int` reads them. */
  function DigitsOfText(s: Bytes): Option<seq<nat>> {
    if s == [] || !IsDigit(s[|s| - 1]) then None
    else
      var last := s[|s| - 1] as nat - 0x30;
      var front := s[..|s| - 1];
      if front == [] then Some([last])
      else
        var more := if front[|front| - 1] == 0x5F then DigitsOfText(front[..|front| - 1]) else DigitsOfText(front);
        if more.None? then None else Some(more.value + [last])
  }

  /** Python's `int` of an ASCII field: white space around, a sign, digits. */
  function ParseInt(field: Bytes): Option<int> {
    if exists i :: 0 <= i < |field| && field[i] >= 128 then None
    else
      var s := LStrip(RStrip(field));
      var negative := s != [] && s[0] == 0x2D;
      var signed := negative || (s != [] && s[0] == 0x2B);
      match DigitsOfText(if signed then s[1..] else s)
      case None => None
      case Some(d) => Some(if negative then -(ValueOf(d) as int) else ValueOf(d) as int)
  }

  // ---------------------------------------------------------------- reading

  /** Where the next header starts after a member of `size` bytes: padded to an even length,
      but never past the end of the file. */
  function NextHeader(pos: nat, size: nat, length: nat): nat {
    var next := pos + HEADER_SIZE + size + size % 2;
    if next < length then next else length
  }

  /** One round of the loop at `pos`: the end of the listing, or a member and where to go on. */
  datatype Round = Stop(end: End) | Yield(member: Member, next: nat)

  function ReadAt(data: Bytes, pos: nat): (r: Round)
    requires pos <= |data|
    ensures r.Yield? ==> pos < r.next <= |data|
  {
    if |data| - pos < HEADER_SIZE then Stop(Finished)
    else
      var header := data[pos..pos + HEADER_SIZE];
      var name := NameOf(header[..16]);
      var start := pos + HEADER_SIZE;
      match ParseInt(header[48..58])
      case None => Stop(CorruptedHeader(name))
      case Some(size) =>
        if size < 0 || start + size > |data| then Stop(TruncatedMember(name))
        else Yield(Member(name, data[start..start + size]), NextHeader(pos, size, |data|))
  }

  function MembersFrom(data: Bytes, pos: nat): Listing
    requires pos <= |data|
    decreases |data| - pos
  {
    match ReadAt(data, pos)
    case Stop(end) => Listing([], end)
    case Yield(member, next) =>
      var rest := MembersFrom(data, next);
      Listing([member] + rest.members, rest.end)
  }

  function MembersOf(data: Bytes): Listing {
    if |data| < 8 || data[..8] != AR_MAGIC then Listing([], NotAnArchive) else MembersFrom(data, 8)
  }

  /** Reads one header and payload and skips the pad byte. */
  method ReadMember(data: Bytes, pos: nat) returns (r: Round)
    requires pos <= |data|
    ensures r == ReadAt(data, pos)
  {
    if |data| - pos < HEADER_SIZE { return Stop(Finished); }
    var header := data[pos..pos + HEADER_SIZE];
    var name := NameOf(header[..16]);
    var size := ParseInt(header[48..58]);
    if size.None? { return Stop(CorruptedHeader(name)); }
    var start := pos + HEADER_SIZE;
    if size.value < 0 || start + size.value > |data| { return Stop(TruncatedMember(name)); }
    var next := start + size.value;
    if size.value % 2 != 0 && next < |data| { next := next + 1; }
    return Yield(Member(name, data[start..start + size.value]), next);
  }

  /** `iter_ar_members`: the members yielded before the generator ends or raises. */
  method IterArMembers(data: Bytes) returns (r: Listing)
    ensures r == MembersOf(data)
  {
    if |data| < 8 || data[..8] != AR_MAGIC { return Listing([], NotAnArchive); }
    var members: seq<Member> := [];
    var pos := 8;
    while true
      invariant 8 <= pos <= |data|
      invariant MembersFrom(data, 8)
                == Listing(members + MembersFrom(data, pos).members, MembersFrom(data, pos).end)
      decreases |data| - pos
    {
      var round := ReadMember(data, pos);
      if round.Stop? { return Listing(members, round.end); }
      members := members + [round.member];
      pos := round.next;
    }
  }

  /** The members lie one after the other from `pos` on: each payload follows its header, the
      next header follows the padded payload, and `end` is where the last one stops. */
  ghost predicate LaidOut(data: Bytes, pos: nat, members: seq<Member>, end: nat)
    decreases |members|
  {
    if members == [] then pos == end
    else
      var start, size := pos + HEADER_SIZE, |members[0].payload|;
      && start + size <= |data|
      && members[0].name == NameOf(data[pos..pos + 16])
      && data[start..start + size] == members[0].payload
      && LaidOut(data, NextHeader(pos, size, |data|), members[1..], end)
  }

  lemma {:induction false} MembersAreLaidOut(data: Bytes, pos: nat) returns (end: nat)
    requires pos <= |data|
    ensures pos <= end <= |data| && LaidOut(data, pos, MembersFrom(data, pos).members, end)
    ensures MembersFrom(data, pos).end == Finished <==> |data| - end < HEADER_SIZE
    decreases |data| - pos
  {
    hide ParseInt, NameOf, NextHeader;
    end := pos;
    match ReadAt(data, pos)
    case Stop(_) =>
    case Yield(member, next) =>
      end := MembersAreLaidOut(data, next);
      assert data[pos..pos + HEADER_SIZE][..16] == data[pos..pos + 16];
      assert ([member] + MembersFrom(data, next).members)[1..] == MembersFrom(data, next).members;
  }

  /** On arbitrary bytes: the yielded members account for the archive from the magic to a point
      at which less than one header is left, or at which an error is reported. */
  lemma ReadingAccountsForBytes(data: Bytes) returns (end: nat)
    requires |data| >= 8 && data[..8] == AR_MAGIC
    ensures 8 <= end <= |data| && LaidOut(data, 8, MembersOf(data).members, end)
    ensures MembersOf(data).end == Finished <==> |data| - end < HEADER_SIZE
  {
    end := MembersAreLaidOut(data, 8);
  }

  // ---------------------------------------------------------------- writing

  function Spaces(n: nat): (s: Bytes)
    ensures |s| == n && forall i :: 0 <= i < n ==> s[i] == SPACE
  {
    seq(n, _ => SPACE)
  }

  function Pad(s: Bytes, width: nat): (r: Bytes)
    requires |s| <= width
    ensures |r| == width
  {
    s + Spaces(width - |s|)
  }

  function Ascii(d: seq<nat>): (r: Bytes)
    requires forall i :: 0 <= i < |d| ==> d[i] < 10
    ensures |r| == |d| && forall i :: 0 <= i < |d| ==> r[i] as nat == d[i] + 0x30
  {
    seq(|d|, i requires 0 <= i < |d| => (d[i] + 0x30) as byte)
  }

  /** A member with the rest of its header: time, owner, group and mode. `slash` says whether
      the name is terminated by a slash, as GNU ar writes it. */
  datatype Source = Source(member: Member, meta: Bytes, slash: bool)

  ghost predicate Writable(s: Source) {
    var name := s.member.name;
    && |EncodeAll(name)| <= 15 && |s.meta| == 32 && |s.member.payload| < Power10(10)
    && Text.Trimmed(name) && (name == "" || name[|name| - 1] != '/')
  }

  function NameField(s: Source): Bytes
    requires |EncodeAll(s.member.name)| <= 15
  {
    Pad(EncodeAll(s.member.name) + (if s.slash then [SLASH] else []), 16)
  }

  ghost function HeaderBytes(s: Source): (h: Bytes)
    requires Writable(s)
    ensures |h| == HEADER_SIZE
  {
    DigitCount(|s.member.payload|, 10);
    NameField(s) + s.meta + Pad(Ascii(DigitsOf(|s.member.payload|)), 10) + [0x60, 0x0A]
  }

  ghost function MemberBytes(s: Source): (r: Bytes)
    requires Writable(s)
    ensures |r| == HEADER_SIZE + |s.member.payload| + |s.member.payload| % 2
  {
    HeaderBytes(s) + s.member.payload + (if |s.member.payload| % 2 == 1 then [0x0A] else [])
  }

  ghost predicate AllWritable(sources: seq<Source>) {
    forall i :: 0 <= i < |sources| ==> Writable(sources[i])
  }

  ghost function ArchiveBytes(sources: seq<Source>): Bytes
    requires AllWritable(sources)
  {
    if sources == [] then [] else MemberBytes(sources[0]) + ArchiveBytes(sources[1..])
  }

  function MembersIn(sources: seq<Source>): seq<Member> {
    if sources == [] then [] else [sources[0].member] + MembersIn(sources[1..])
  }

  lemma {:induction false} RStripSpaces(s: Bytes, n: nat)
    requires s == [] || !IsSpace(s[|s| - 1])
    ensures RStrip(s + Spaces(n)) == s
  {
    if n == 0 {
      assert s + Spaces(0) == s;
    } else {
      assert (s + Spaces(n))[..|s| + n - 1] == s + Spaces(n - 1);
      RStripSpaces(s, n - 1);
    }
  }

  function Blanks(n: nat): (s: string)
    ensures |s| == n && forall i :: 0 <= i < n ==> s[i] == ' '
  {
    seq(n, _ => ' ')
  }

  lemma {:induction false} DecodeSpaces(n: nat)
    ensures Decode(Spaces(n)) == Blanks(n)
  {
    if n > 0 {
      assert Spaces(n) == Encode(' ') + Spaces(n - 1);
      DecodeFirst(' ', Spaces(n - 1));
      DecodeSpaces(n - 1);
      assert Blanks(n) == [' '] + Blanks(n - 1);
    }
  }

  lemma {:induction false} RStripBlanks(s: string, n: nat)
    requires s == "" || !Text.IsSpace(s[|s| - 1])
    ensures Text.RStrip(s + Blanks(n)) == s
  {
    if n == 0 {
      assert s + Blanks(0) == s;
    } else {
      assert (s + Blanks(n))[..|s| + n - 1] == s + Blanks(n - 1);
      RStripBlanks(s, n - 1);
    }
  }

  /** What the padded name field decodes to. */
  lemma NameDecoded(s: Source)
    requires Writable(s)
    ensures exists n :: Decode(NameField(s)) == s.member.name + (if s.slash then "/" else "") + Blanks(n)
  {
    hide Encode, EncodeAll, Decode, Text.Trimmed;
    var name := s.member.name;
    var tail := if s.slash then [SLASH] else [];
    var n := 16 - |EncodeAll(name) + tail|;
    assert NameField(s) == EncodeAll(name) + (tail + Spaces(n));
    DecodeUndoesEncode(name, tail + Spaces(n));
    DecodeSpaces(n);
    if s.slash {
      SlashDecoded(Spaces(n));
      assert name + ("/" + Blanks(n)) == name + "/" + Blanks(n);
    } else {
      assert tail + Spaces(n) == Spaces(n) && name + "" + Blanks(n) == name + Blanks(n);
    }
  }

  lemma SlashDecoded(rest: Bytes)
    ensures Decode([SLASH] + rest) == "/" + Decode(rest)
  {
    assert Encode('/') == [SLASH];
    DecodeFirst('/', rest);
  }

  lemma NameReadBack(s: Source)
    requires Writable(s)
    ensures NameOf(NameField(s)) == s.member.name
  {
    hide Decode, EncodeAll, NameField;
    NameDecoded(s);
    var name := s.member.name + (if s.slash then "/" else "");
    var n :| Decode(NameField(s)) == name + Blanks(n);
    RStripBlanks(name, n);
    assert Text.LStrip(name) == name;
    if s.slash {
      assert name[..|s.member.name|] == s.member.name;
      assert RStripSlashes(name) == RStripSlashes(s.member.name);
    }
  }

  lemma {:induction false} DigitsReadBack(d: seq<nat>)
    requires d != [] && forall i :: 0 <= i < |d| ==> d[i] < 10
    ensures DigitsOfText(Ascii(d)) == Some(d)
  {
    var front := d[..|d| - 1];
    assert Ascii(d)[..|d| - 1] == Ascii(front);
    assert d == front + [d[|d| - 1]];
    if front != [] {
      DigitsReadBack(front);
      assert IsDigit(Ascii(front)[|front| - 1]);
    }
  }

  lemma PaddedDigitsStrip(d: seq<nat>)
    requires 0 < |d| <= 10 && forall i :: 0 <= i < |d| ==> d[i] < 10
    ensures LStrip(RStrip(Pad(Ascii(d), 10))) == Ascii(d)
  {
    var digits := Ascii(d);
    assert !IsSpace(digits[|d| - 1]) && !IsSpace(digits[0]);
    RStripSpaces(digits, 10 - |digits|);
  }

  lemma ParsePaddedDigits(d: seq<nat>)
    requires 0 < |d| <= 10 && forall i :: 0 <= i < |d| ==> d[i] < 10
    ensures ParseInt(Pad(Ascii(d), 10)) == Some(ValueOf(d))
  {
    hide LStrip, RStrip, ValueOf, DigitsOfText;
    PaddedDigitsStrip(d);
    DigitsReadBack(d);
    assert Ascii(d)[0] != 0x2D && Ascii(d)[0] != 0x2B;
  }

  lemma SizeReadBack(n: nat)
    requires n < Power10(10)
    ensures |DigitsOf(n)| <= 10 && ParseInt(Pad(Ascii(DigitsOf(n)), 10)) == Some(n)
  {
    hide DigitsOf, ParseInt, ValueOf, Power10;
    DigitCount(n, 10);
    ParsePaddedDigits(DigitsOf(n));
    DigitsRoundTrip(n);
  }

  lemma HeaderReadBack(s: Source)
    requires Writable(s)
    ensures NameOf(HeaderBytes(s)[..16]) == s.member.name
    ensures ParseInt(HeaderBytes(s)[48..58]) == Some(|s.member.payload|)
  {
    SizeReadBack(|s.member.payload|);
    assert HeaderBytes(s)[..16] == NameField(s);
    assert HeaderBytes(s)[48..58] == Pad(Ascii(DigitsOf(|s.member.payload|)), 10);
    NameReadBack(s);
  }

  lemma MemberBytesParts(s: Source)
    requires Writable(s)
    ensures var size := |s.member.payload|;
            && MemberBytes(s)[..HEADER_SIZE] == HeaderBytes(s)
            && MemberBytes(s)[HEADER_SIZE..HEADER_SIZE + size] == s.member.payload
  {}

  lemma MemberReadBack(data: Bytes, pos: nat, s: Source)
    requires Writable(s) && pos + |MemberBytes(s)| <= |data|
    requires data[pos..pos + |MemberBytes(s)|] == MemberBytes(s)
    ensures ReadAt(data, pos) == Yield(s.member, pos + |MemberBytes(s)|)
  {
    hide NameOf, ParseInt, HeaderBytes, MemberBytes, Writable;
    var size := |s.member.payload|;
    var bytes := data[pos..pos + |MemberBytes(s)|];
    MemberBytesParts(s);
    assert data[pos..pos + HEADER_SIZE] == bytes[..HEADER_SIZE];
    assert data[pos + HEADER_SIZE..pos + HEADER_SIZE + size] == bytes[HEADER_SIZE..HEADER_SIZE + size];
    HeaderReadBack(s);
  }

  lemma PrefixParts(data: Bytes, pos: nat, first: Bytes, rest: Bytes)
    requires pos <= |data| && first + rest <= data[pos..]
    ensures pos + |first| <= |data| && data[pos..pos + |first|] == first && rest <= data[pos + |first|..]
  {
    var tail := data[pos..];
    assert tail[..|first + rest|] == first + rest;
    assert data[pos..pos + |first|] == tail[..|first|] == first;
    assert data[pos + |first|..] == tail[|first|..];
  }

  lemma ReadingEnds(data: Bytes, pos: nat)
    requires pos <= |data| < pos + HEADER_SIZE
    ensures MembersFrom(data, pos) == Listing([], Finished)
  {}

  lemma ReadingGoesOn(data: Bytes, pos: nat, member: Member, next: nat, rest: seq<Member>)
    requires pos <= |data| && ReadAt(data, pos) == Yield(member, next)
    requires pos < next <= |data| && MembersFrom(data, next) == Listing(rest, Finished)
    ensures MembersFrom(data, pos) == Listing([member] + rest, Finished)
  {}

  lemma {:induction false} ArchiveReadBack(data: Bytes, pos: nat, sources: seq<Source>)
    requires AllWritable(sources) && pos <= |data|
    requires ArchiveBytes(sources) <= data[pos..] && |data[pos..]| - |ArchiveBytes(sources)| < HEADER_SIZE
    ensures MembersFrom(data, pos) == Listing(MembersIn(sources), Finished)
    decreases |sources|
  {
    hide ReadAt, MembersFrom, MemberBytes, Writable;
    if sources == [] {
      ReadingEnds(data, pos);
    } else {
      var first := MemberBytes(sources[0]);
      PrefixParts(data, pos, first, ArchiveBytes(sources[1..]));
      MemberReadBack(data, pos, sources[0]);
      ArchiveReadBack(data, pos + |first|, sources[1..]);
      ReadingGoesOn(data, pos, sources[0].member, pos + |first|, MembersIn(sources[1..]));
    }
  }

  /** Writing members and reading them gives back the same names and payloads, whatever the
      rest of the headers says and whatever shorter than a header follows. */
  lemma ArchiveRoundTrip(sources: seq<Source>, junk: Bytes)
    requires AllWritable(sources) && |junk| < HEADER_SIZE
    ensures MembersOf(AR_MAGIC + ArchiveBytes(sources) + junk) == Listing(MembersIn(sources), Finished)
  {
    hide MembersFrom, ArchiveBytes, Writable;
    var data := AR_MAGIC + ArchiveBytes(sources) + junk;
    assert data[..8] == AR_MAGIC && data[8..] == ArchiveBytes(sources) + junk;
    ArchiveReadBack(data, 8, sources);
  }

  // ---------------------------------------------------------------- which size fields are numbers

  /** Digits with single underscores between them. */
  predicate Grouped(s: Bytes) {
    && s != [] && IsDigit(s[0]) && IsDigit(s[|s| - 1])
    && (forall i :: 0 <= i < |s| ==> IsDigit(s[i]) || s[i] == 0x5F)
    && (forall i :: 0 < i < |s| ==> s[i - 1] != 0x5F || s[i] != 0x5F)
  }

  /** The digits among the bytes. */
  function DigitsIn(s: Bytes): (d: seq<nat>) {
    if s == [] then []
    else DigitsIn(s[..|s| - 1]) + if IsDigit(s[|s| - 1]) then [s[|s| - 1] as nat - 0x30] else []
  }

  lemma DigitsInFront(s: Bytes)
    requires |s| > 1 && IsDigit(s[|s| - 1])
    ensures DigitsIn(s) == DigitsIn(s[..|s| - 1]) + [s[|s| - 1] as nat - 0x30]
    ensures s[|s| - 2] == 0x5F ==> DigitsIn(s[..|s| - 1]) == DigitsIn(s[..|s| - 2])
  {
    var front := s[..|s| - 1];
    assert front[..|front| - 1] == s[..|s| - 2] && front[|front| - 1] == s[|s| - 2];
    assert DigitsIn(s[..|s| - 2]) + [] == DigitsIn(s[..|s| - 2]);
  }

  lemma GroupedWithoutLast(s: Bytes)
    requires |s| > 1 && IsDigit(s[|s| - 1]) && s[|s| - 2] != 0x5F
    ensures Grouped(s) <==> Grouped(s[..|s| - 1])
  {
    var front := s[..|s| - 1];
    assert forall i :: 0 <= i < |front| ==> front[i] == s[i];
    if Grouped(front) {
      forall i | 0 <= i < |s| ensures IsDigit(s[i]) || s[i] == 0x5F {
        if i < |front| { assert front[i] == s[i]; }
      }
      forall i | 0 < i < |s| ensures s[i - 1] != 0x5F || s[i] != 0x5F {
        if i < |front| { assert front[i - 1] != 0x5F || front[i] != 0x5F; }
      }
    }
  }

  lemma GroupedWithoutTwo(s: Bytes)
    requires |s| > 1 && IsDigit(s[|s| - 1]) && s[|s| - 2] == 0x5F
    ensures Grouped(s) <==> Grouped(s[..|s| - 2])
  {
    var front := s[..|s| - 2];
    assert forall i :: 0 <= i < |front| ==> front[i] == s[i];
    if Grouped(front) {
      forall i | 0 <= i < |s| ensures IsDigit(s[i]) || s[i] == 0x5F {
        if i < |front| { assert front[i] == s[i]; }
      }
      forall i | 0 < i < |s| ensures s[i - 1] != 0x5F || s[i] != 0x5F {
        if i < |front| { assert front[i - 1] != 0x5F || front[i] != 0x5F; }
      }
    }
    if Grouped(s) && |s| > 2 {
      var k := |s| - 2;
      assert s[k - 1] != 0x5F;
    }
  }

  lemma {:induction false} DigitsOfTextIff(s: Bytes)
    ensures DigitsOfText(s) == if Grouped(s) then Some(DigitsIn(s)) else None
  {
    hide Grouped, DigitsIn;
    if s == [] || !IsDigit(s[|s| - 1]) {
      NoDigitAtEnd(s);
    } else if |s| == 1 {
      OneDigit(s);
    } else {
      var front := s[..|s| - 1];
      assert front[|front| - 1] == s[|s| - 2] && front[..|front| - 1] == s[..|s| - 2];
      DigitsInFront(s);
      if s[|s| - 2] == 0x5F {
        GroupedWithoutTwo(s);
        DigitsOfTextIff(s[..|s| - 2]);
      } else {
        GroupedWithoutLast(s);
        DigitsOfTextIff(front);
      }
    }
  }

  lemma NoDigitAtEnd(s: Bytes)
    requires s == [] || !IsDigit(s[|s| - 1])
    ensures !Grouped(s)
  {}

  lemma OneDigit(s: Bytes)
    requires |s| == 1 && IsDigit(s[0])
    ensures Grouped(s) && DigitsIn(s) == [s[0] as nat - 0x30]
  {
    assert DigitsIn(s[..0]) == [];
  }

  /** The ASCII characters that `strip` removes: tab to carriage return and 0x1C to the space. */
  predicate Blank(s: Bytes) { forall i :: 0 <= i < |s| ==> 9 <= s[i] <= 13 || 28 <= s[i] <= 32 }

  /** A number of one of the forms that `int` accepts, with white space around it. */
  ghost predicate NumberField(field: Bytes, lead: Bytes, sign: Bytes, digits: Bytes, trail: Bytes) {
    && field == lead + (sign + digits) + trail && Blank(lead) && Blank(trail)
    && (sign == [] || sign == [0x2D] || sign == [0x2B]) && Grouped(digits)
  }

  lemma {:induction false} LStripParts(s: Bytes) returns (lead: Bytes)
    ensures Blank(lead) && s == lead + LStrip(s)
    ensures LStrip(s) == [] || !IsSpace(LStrip(s)[0])
  {
    if s != [] && IsSpace(s[0]) {
      var rest := LStripParts(s[1..]);
      lead := [s[0]] + rest;
    } else {
      lead := [];
    }
  }

  lemma {:induction false} RStripParts(s: Bytes) returns (trail: Bytes)
    ensures Blank(trail) && s == RStrip(s) + trail
  {
    if s != [] && IsSpace(s[|s| - 1]) {
      var front := RStripParts(s[..|s| - 1]);
      trail := front + [s[|s| - 1]];
    } else {
      trail := [];
    }
  }

  lemma {:induction false} LStripBlank(lead: Bytes, rest: Bytes)
    requires Blank(lead) && rest != [] && !IsSpace(rest[0])
    ensures LStrip(lead + rest) == rest
  {
    if lead == [] {
      assert lead + rest == rest;
    } else {
      assert (lead + rest)[1..] == lead[1..] + rest;
      LStripBlank(lead[1..], rest);
    }
  }

  lemma {:induction false} RStripBlank(rest: Bytes, trail: Bytes)
    requires Blank(trail) && rest != [] && !IsSpace(rest[|rest| - 1])
    ensures RStrip(rest + trail) == rest
    decreases |trail|
  {
    if trail == [] {
      assert rest + trail == rest;
    } else {
      assert (rest + trail)[..|rest + trail| - 1] == rest + trail[..|trail| - 1];
      RStripBlank(rest, trail[..|trail| - 1]);
    }
  }

  lemma GroupedIsPlain(digits: Bytes)
    requires Grouped(digits)
    ensures forall i :: 0 <= i < |digits| ==> digits[i] < 128 && !IsSpace(digits[i])
    ensures digits[0] != 0x2D && digits[0] != 0x2B
  {}

  lemma NumberFieldParsed(field: Bytes, lead: Bytes, sign: Bytes, digits: Bytes, trail: Bytes)
    requires NumberField(field, lead, sign, digits, trail)
    ensures ParseInt(field) == Some(if sign == [0x2D] then -(ValueOf(DigitsIn(digits)) as int)
                                    else ValueOf(DigitsIn(digits)) as int)
  {
    var s := sign + digits;
    GroupedIsPlain(digits);
    hide Grouped, DigitsIn, DigitsOfText, ValueOf;
    assert field == (lead + s) + trail && s[|s| - 1] == digits[|digits| - 1];
    assert (lead + s)[|lead + s| - 1] == s[|s| - 1];
    RStripBlank(lead + s, trail);
    LStripBlank(lead, s);
    forall i | 0 <= i < |field| ensures field[i] < 128 {
      if |lead| <= i < |lead + s| { assert field[i] == s[i - |lead|]; }
    }
    assert sign != [] ==> s[1..] == digits;
    assert sign == [] ==> s == digits;
    DigitsOfTextIff(digits);
  }

  lemma ParsedIsNumberField(field: Bytes)
    requires ParseInt(field).Some?
    ensures exists lead, sign, digits, trail :: NumberField(field, lead, sign, digits, trail)
  {
    hide LStrip, RStrip, DigitsOfText, Grouped;
    var trail := RStripParts(field);
    var lead := LStripParts(RStrip(field));
    var s := LStrip(RStrip(field));
    var signed := s != [] && (s[0] == 0x2D || s[0] == 0x2B);
    var sign, digits := if signed then s[..1] else [], if signed then s[1..] else s;
    DigitsOfTextIff(digits);
    assert s == sign + digits;
    assert signed ==> sign == [s[0]];
    assert NumberField(field, lead, sign, digits, trail);
  }

  /** The size of a member is read exactly from the fields that hold an optional sign and digits,
      with single underscores between digits and white space around; it is their decimal value. */
  lemma SizeFieldIff(field: Bytes, value: int)
    ensures ParseInt(field) == Some(value)
            <==> exists lead, sign, digits, trail :: && NumberField(field, lead, sign, digits, trail)
                   && value == if sign == [0x2D] then -(ValueOf(DigitsIn(digits)) as int)
                               else ValueOf(DigitsIn(digits)) as int
  {
    hide ParseInt, NumberField, ValueOf, DigitsIn;
    if ParseInt(field) == Some(value) {
      ParsedIsNumberField(field);
      var lead, sign, digits, trail :| NumberField(field, lead, sign, digits, trail);
      NumberFieldParsed(field, lead, sign, digits, trail);
    }
    if lead, sign, digits, trail :| NumberField(field, lead, sign, digits, trail)
                                    && value == if sign == [0x2D] then -(ValueOf(DigitsIn(digits)) as int)
                                                else ValueOf(DigitsIn(digits)) as int {
      NumberFieldParsed(field, lead, sign, digits, trail);
    }
  }
}
