/**
 The installer check of scripts/verify_installer_payload.py over arbitrary bytes: the PE
 section table, the 7z start header and the list of problems. CRC-32 is a parameter.

 Main result: of an accepted installer exactly the prefixes from a computable length on are
 accepted (`PrefixAcceptedIff`), so every truncation below that length is reported.
 */
module InstallerPayload {

  import opened Wrappers

  newtype byte = x: int | 0 <= x < 256

  type Bytes = seq<byte>

  const MZ: Bytes := [0x4D, 0x5A]
  const PE: Bytes := [0x50, 0x45, 0, 0]
  const SEVEN_ZIP_SIGNATURE: Bytes := [0x37, 0x7A, 0xBC, 0xAF, 0x27, 0x1C]
  const SECTION_HEADER: nat := 40

  function Max(a: nat, b: nat): nat { if a < b then b else a }

  /** A Python slice: positions past the end are cut off, not an error. */
  function Slice(data: Bytes, from: nat, to: nat): (r: Bytes)
    requires from <= to
    ensures to <= |data| ==> |r| == to - from
    ensures |r| <= to - from
  {
    if |data| <= from then [] else if |data| < to then data[from..] else data[from..to]
  }

  function LittleEndian(b: Bytes): nat {
    if b == [] then 0 else b[0] as nat + 256 * LittleEndian(b[1..])
  }

  function Field(data: Bytes, at: nat, width: nat): nat {
    LittleEndian(Slice(data, at, at + width))
  }

  // ---------------------------------------------------------------- the PE section table

  function HeaderAt(data: Bytes): nat { Field(data, 0x3C, 4) }

  function SectionCount(data: Bytes): nat { Field(data, HeaderAt(data) + 6, 2) }

  function SectionTable(data: Bytes): nat { HeaderAt(data) + 24 + Field(data, HeaderAt(data) + 20, 2) }

  /** Where the raw data of the section with this header ends. */
  function SectionEnd(data: Bytes, header: nat): nat {
    Field(data, header + 20, 4) + Field(data, header + 16, 4)
  }

  /** The end of section `i`. */
  function EndOf(data: Bytes, table: nat, i: nat): nat {
    SectionEnd(data, table + i * SECTION_HEADER)
  }

  function LastEnd(data: Bytes, table: nat, n: nat): nat {
    if n == 0 then 0 else Max(LastEnd(data, table, n - 1), EndOf(data, table, n - 1))
  }

  predicate IsPe(data: Bytes) {
    |data| >= 0x40 && data[..2] == MZ && Slice(data, HeaderAt(data), HeaderAt(data) + 4) == PE
  }

  function OverlaySize(data: Bytes): Option<nat> {
    if !IsPe(data) then None
    else if SectionCount(data) > 0 && SectionTable(data) + SectionCount(data) * SECTION_HEADER > |data| then None
    else
      var end := LastEnd(data, SectionTable(data), SectionCount(data));
      if end == 0 || end > |data| then None else Some(|data| - end)
  }

  /** The loop over the section headers; None when one of them is cut off. */
  method FurthestEnd(data: Bytes, table: nat, count: nat) returns (r: Option<nat>)
    ensures r == if count > 0 && table + count * SECTION_HEADER > |data| then None
                 else Some(LastEnd(data, table, count))
  {
    var end := 0;
    for i := 0 to count
      invariant end == LastEnd(data, table, i)
      invariant i > 0 ==> table + i * SECTION_HEADER <= |data|
    {
      var section := table + i * SECTION_HEADER;
      if section + SECTION_HEADER > |data| { return None; }
      end := Max(end, EndOf(data, table, i));
    }
    return Some(end);
  }

  /** `pe_overlay_size`. */
  method PeOverlaySize(data: Bytes) returns (r: Option<nat>)
    ensures r == OverlaySize(data)
  {
    if |data| < 0x40 || data[..2] != MZ { return None; }
    if Slice(data, HeaderAt(data), HeaderAt(data) + 4) != PE { return None; }
    var end := FurthestEnd(data, SectionTable(data), SectionCount(data));
    if end.None? || end.value <= 0 || end.value > |data| { return None; }
    return Some(|data| - end.value);
  }

  /** A reported overlay starts where the furthest section ends: no section reaches into it,
      and some section ends exactly there. */
  lemma OverlayFollowsSections(data: Bytes)
    requires OverlaySize(data).Some?
    ensures var start := |data| - OverlaySize(data).value;
            && (forall i: nat :: i < SectionCount(data) ==> EndOf(data, SectionTable(data), i) <= start)
            && (exists i: nat :: i < SectionCount(data) && EndOf(data, SectionTable(data), i) == start)
  {
    LastEndIsLargest(data, SectionTable(data), SectionCount(data));
  }

  lemma {:induction false} LastEndIsLargest(data: Bytes, table: nat, n: nat)
    ensures forall i: nat :: i < n ==> EndOf(data, table, i) <= LastEnd(data, table, n)
    ensures LastEnd(data, table, n) > 0 ==>
              exists i: nat :: i < n && EndOf(data, table, i) == LastEnd(data, table, n)
  {
    hide EndOf;
    if n > 0 {
      LastEndIsLargest(data, table, n - 1);
      if LastEnd(data, table, n) > EndOf(data, table, n - 1) {
        var i: nat :| i < n - 1 && EndOf(data, table, i) == LastEnd(data, table, n - 1);
        assert EndOf(data, table, i) == LastEnd(data, table, n);
      }
    }
  }

  // ---------------------------------------------------------------- the 7z start header

  type Crc = Bytes -> nat

  datatype Issue = HeaderTruncated | MajorVersion | HeaderCrc | NextHeaderOutOfFile

  /** Where the archive ends according to its start header. */
  function ArchiveEnd(header: Bytes, offset: nat): nat
    requires |header| >= 32
  {
    offset + 32 + Field(header, 12, 8) + Field(header, 20, 8)
  }

  function SevenZipHeaderIssue(header: Bytes, totalSize: nat, offset: nat, crc: Crc): Option<Issue> {
    if |header| < 32 then Some(HeaderTruncated)
    else if header[6] != 0 then Some(MajorVersion)
    else if Field(header, 8, 4) != crc(header[12..32]) % 0x1_0000_0000 then Some(HeaderCrc)
    else if ArchiveEnd(header, offset) > totalSize then Some(NextHeaderOutOfFile)
    else None
  }

  // ---------------------------------------------------------------- the whole check

  predicate SignatureAt(data: Bytes, pos: nat) {
    pos + 6 <= |data| && data[pos..pos + 6] == SEVEN_ZIP_SIGNATURE
  }

  /** The first position of the signature from `from` on. */
  function FindFrom(data: Bytes, from: nat): (r: Option<nat>)
    ensures r.Some? ==> from <= r.value && SignatureAt(data, r.value)
    ensures r.Some? ==> forall p :: from <= p < r.value ==> !SignatureAt(data, p)
    ensures r.None? ==> forall p :: from <= p ==> !SignatureAt(data, p)
    decreases |data| - from
  {
    if |data| < from + 6 then None
    else if SignatureAt(data, from) then Some(from)
    else FindFrom(data, from + 1)
  }

  datatype Problem = Missing | TooSmall | NotPe | NoSignature | PayloadTooSmall | BadHeader(issue: Issue)

  /** Mapping an empty file into memory is an error of its own. */
  datatype Verdict = Raised | Problems(list: seq<Problem>)

  /** `inspect`; there may be no file at the path. */
  method Inspect(file: Option<Bytes>, minTotal: nat, minPayload: nat, crc: Crc) returns (v: Verdict)
    ensures v == if file.None? then Problems([Missing]) else Verify(file.value, minTotal, minPayload, crc)
  {
    hide SevenZipHeaderIssue, FindFrom, OverlaySize, SignatureAt;
    if file.None? { return Problems([Missing]); }
    var data := file.value;
    var problems: seq<Problem> := [];
    if |data| < minTotal { problems := problems + [TooSmall]; }
    if |data| == 0 { return Raised; }
    var overlay := PeOverlaySize(data);
    if overlay.None? { return Problems(problems + [NotPe]); }
    var pos := FindFrom(data, 0);
    if pos.None? { return Problems(problems + [NoSignature]); }
    var payload := |data| - pos.value;
    var issue := SevenZipHeaderIssue(Slice(data, pos.value, pos.value + 32), |data|, pos.value, crc);
    if payload < minPayload { problems := problems + [PayloadTooSmall]; }
    if issue.Some? { problems := problems + [BadHeader(issue.value)]; }
    return Problems(problems);
  }

  function Verify(data: Bytes, minTotal: nat, minPayload: nat, crc: Crc): Verdict {
    var small := if |data| < minTotal then [TooSmall] else [];
    if |data| == 0 then Raised
    else if OverlaySize(data).None? then Problems(small + [NotPe])
    else match FindFrom(data, 0)
         case None => Problems(small + [NoSignature])
         case Some(pos) =>
           var issue := SevenZipHeaderIssue(Slice(data, pos, pos + 32), |data|, pos, crc);
           Problems(small + (if |data| - pos < minPayload then [PayloadTooSmall] else [])
                    + (if issue.Some? then [BadHeader(issue.value)] else []))
  }

  /** The conditions on the archive, once its first signature has been found at `pos`. */
  predicate HasArchive(data: Bytes, pos: nat, minPayload: nat, crc: Crc)
    requires pos <= |data|
  {
    |data| - pos >= minPayload && SevenZipHeaderIssue(Slice(data, pos, pos + 32), |data|, pos, crc) == None
  }

  /** Non-empty and large enough, with a PE overlay and a complete archive at the first signature. */
  predicate Complete(data: Bytes, minTotal: nat, minPayload: nat, crc: Crc) {
    && |data| > 0 && |data| >= minTotal && OverlaySize(data).Some?
    && FindFrom(data, 0).Some? && HasArchive(data, FindFrom(data, 0).value, minPayload, crc)
  }

  /** A file passes exactly when it is complete. */
  lemma VerifyIff(data: Bytes, minTotal: nat, minPayload: nat, crc: Crc)
    ensures Verify(data, minTotal, minPayload, crc) == Problems([]) <==> Complete(data, minTotal, minPayload, crc)
  {}

  /** The least length at which a prefix of an accepted file is itself complete: it must hold
      the section table, all section data, the archive up to its end and the two minimums. */
  function Threshold(data: Bytes, minTotal: nat, minPayload: nat): nat
    requires FindFrom(data, 0).Some? && FindFrom(data, 0).value + 32 <= |data|
  {
    var pos := FindFrom(data, 0).value;
    var peEnd := Max(SectionTable(data) + SectionCount(data) * SECTION_HEADER,
                     LastEnd(data, SectionTable(data), SectionCount(data)));
    Max(Max(minTotal, pos + minPayload), Max(peEnd, ArchiveEnd(Slice(data, pos, pos + 32), pos)))
  }

  lemma FieldOfPrefix(data: Bytes, n: nat, at: nat, width: nat)
    requires n <= |data| && at + width <= n
    ensures Field(data[..n], at, width) == Field(data, at, width)
  {
    assert Slice(data[..n], at, at + width) == Slice(data, at, at + width);
  }

  lemma {:induction false} LastEndOfPrefix(data: Bytes, n: nat, table: nat, count: nat)
    requires n <= |data| && (count > 0 ==> table + count * SECTION_HEADER <= n)
    ensures LastEnd(data[..n], table, count) == LastEnd(data, table, count)
  {
    if count > 0 {
      LastEndOfPrefix(data, n, table, count - 1);
      var header := table + (count - 1) * SECTION_HEADER;
      FieldOfPrefix(data, n, header + 16, 4);
      FieldOfPrefix(data, n, header + 20, 4);
    }
  }

  /** A prefix that holds the file header and the section table has the same section table. */
  lemma PrefixHeader(data: Bytes, n: nat)
    requires n <= |data| && 0x40 <= n && HeaderAt(data) + 24 <= n
    ensures HeaderAt(data[..n]) == HeaderAt(data)
    ensures SectionCount(data[..n]) == SectionCount(data) && SectionTable(data[..n]) == SectionTable(data)
    ensures IsPe(data[..n]) <==> IsPe(data)
  {
    var p := data[..n];
    FieldOfPrefix(data, n, 0x3C, 4);
    FieldOfPrefix(data, n, HeaderAt(data) + 6, 2);
    FieldOfPrefix(data, n, HeaderAt(data) + 20, 2);
    assert Slice(p, HeaderAt(data), HeaderAt(data) + 4) == Slice(data, HeaderAt(data), HeaderAt(data) + 4);
    assert p[..2] == data[..2];
  }

  /** An overlay is only reported when the section table is complete. */
  lemma OverlayNeedsTable(data: Bytes)
    requires OverlaySize(data).Some?
    ensures SectionCount(data) > 0 && SectionTable(data) + SectionCount(data) * SECTION_HEADER <= |data|
    ensures 0x40 <= |data| && HeaderAt(data) + 24 + SECTION_HEADER <= |data|
  {}

  lemma PrefixOverlayIff(data: Bytes, n: nat)
    requires n <= |data| && OverlaySize(data).Some?
    ensures OverlaySize(data[..n]).Some?
            <==> SectionTable(data) + SectionCount(data) * SECTION_HEADER <= n
                 && LastEnd(data, SectionTable(data), SectionCount(data)) <= n
  {
    var p := data[..n];
    OverlayNeedsTable(data);
    if OverlaySize(p).Some? {
      OverlayNeedsTable(p);
      FieldOfPrefix(data, n, 0x3C, 4);
    }
    if SectionTable(data) + SectionCount(data) * SECTION_HEADER <= n || OverlaySize(p).Some? {
      if n >= 0x40 {
        PrefixHeader(data, n);
        LastEndOfPrefix(data, n, SectionTable(data), SectionCount(data));
      }
    }
  }

  lemma PrefixSignature(data: Bytes, n: nat, pos: nat)
    requires n <= |data| && FindFrom(data, 0) == Some(pos)
    ensures FindFrom(data[..n], 0) == if pos + 6 <= n then Some(pos) else None
  {
    var p := data[..n];
    forall q: nat ensures SignatureAt(p, q) <==> q + 6 <= n && SignatureAt(data, q) {
      if q + 6 <= n { assert p[q..q + 6] == data[q..q + 6]; }
    }
  }

  lemma PrefixIssueIff(data: Bytes, n: nat, pos: nat, crc: Crc)
    requires pos + 6 <= n <= |data| && pos + 32 <= |data|
    requires SevenZipHeaderIssue(Slice(data, pos, pos + 32), |data|, pos, crc) == None
    ensures SevenZipHeaderIssue(Slice(data[..n], pos, pos + 32), n, pos, crc) == None
            <==> ArchiveEnd(Slice(data, pos, pos + 32), pos) <= n
  {
    if pos + 32 <= n {
      assert Slice(data[..n], pos, pos + 32) == Slice(data, pos, pos + 32);
    }
  }

  lemma PrefixArchiveIff(data: Bytes, n: nat, pos: nat, minPayload: nat, crc: Crc)
    requires pos + 6 <= n <= |data| && HasArchive(data, pos, minPayload, crc)
    ensures pos + 32 <= |data|
    ensures HasArchive(data[..n], pos, minPayload, crc)
            <==> Max(pos + minPayload, ArchiveEnd(Slice(data, pos, pos + 32), pos)) <= n
  {
    assert |Slice(data, pos, pos + 32)| >= 32;
    PrefixIssueIff(data, n, pos, crc);
  }

  /** An accepted file holds the whole start header of its archive. */
  lemma AcceptedHasHeader(data: Bytes, minTotal: nat, minPayload: nat, crc: Crc)
    requires Verify(data, minTotal, minPayload, crc) == Problems([])
    ensures FindFrom(data, 0).Some? && FindFrom(data, 0).value + 32 <= |data|
  {
    VerifyIff(data, minTotal, minPayload, crc);
    PrefixArchiveIff(data, |data|, FindFrom(data, 0).value, minPayload, crc);
  }

  lemma PrefixCompleteIff(data: Bytes, n: nat, pos: nat, minTotal: nat, minPayload: nat, crc: Crc)
    requires Complete(data, minTotal, minPayload, crc) && n <= |data| && FindFrom(data, 0) == Some(pos)
    requires pos + 32 <= |data|
    ensures Complete(data[..n], minTotal, minPayload, crc) <==> n >= Threshold(data, minTotal, minPayload)
  {
    hide OverlaySize, FindFrom, HasArchive, Field, LastEnd, SectionTable, SectionCount;
    PrefixOverlayIff(data, n);
    PrefixSignature(data, n, pos);
    if pos + 6 <= n { PrefixArchiveIff(data, n, pos, minPayload, crc); }
  }

  /** Of an accepted installer exactly the prefixes from the threshold on are accepted: a build
      cut off anywhere below it is reported, one cut off above is complete. */
  lemma PrefixAcceptedIff(data: Bytes, n: nat, minTotal: nat, minPayload: nat, crc: Crc)
    requires Verify(data, minTotal, minPayload, crc) == Problems([]) && n <= |data|
    ensures FindFrom(data, 0).Some? && FindFrom(data, 0).value + 32 <= |data|
    ensures Verify(data[..n], minTotal, minPayload, crc) == Problems([])
            <==> n >= Threshold(data, minTotal, minPayload)
  {
    AcceptedHasHeader(data, minTotal, minPayload, crc);
    VerifyIff(data, minTotal, minPayload, crc);
    VerifyIff(data[..n], minTotal, minPayload, crc);
    PrefixCompleteIff(data, n, FindFrom(data, 0).value, minTotal, minPayload, crc);
  }

  lemma ExtendedOverlay(data: Bytes, extra: Bytes)
    requires OverlaySize(data).Some?
    ensures OverlaySize(data + extra).Some?
  {
    var all := data + extra;
    assert all[..|data|] == data;
    OverlayNeedsTable(data);
    FieldOfPrefix(all, |data|, 0x3C, 4);
    PrefixHeader(all, |data|);
    LastEndOfPrefix(all, |data|, SectionTable(data), SectionCount(data));
  }

  lemma ExtendedSignature(data: Bytes, extra: Bytes, pos: nat)
    requires FindFrom(data, 0) == Some(pos)
    ensures FindFrom(data + extra, 0) == Some(pos)
  {
    var all := data + extra;
    forall q: nat | q + 6 <= |data| ensures SignatureAt(all, q) <==> SignatureAt(data, q) {
      assert all[q..q + 6] == data[q..q + 6];
    }
    assert SignatureAt(all, pos);
  }

  lemma ExtendedArchive(data: Bytes, extra: Bytes, pos: nat, minPayload: nat, crc: Crc)
    requires pos + 32 <= |data| && HasArchive(data, pos, minPayload, crc)
    ensures HasArchive(data + extra, pos, minPayload, crc)
  {
    assert Slice(data + extra, pos, pos + 32) == Slice(data, pos, pos + 32);
  }

  lemma ExtendedComplete(data: Bytes, extra: Bytes, pos: nat, minTotal: nat, minPayload: nat, crc: Crc)
    requires Complete(data, minTotal, minPayload, crc) && FindFrom(data, 0) == Some(pos) && pos + 32 <= |data|
    ensures Complete(data + extra, minTotal, minPayload, crc)
  {
    ExtendedOverlay(data, extra);
    ExtendedSignature(data, extra, pos);
    ExtendedArchive(data, extra, pos, minPayload, crc);
  }

  /** Bytes appended to an accepted installer go unnoticed: the check has no upper end. */
  lemma AppendedBytesAccepted(data: Bytes, extra: Bytes, minTotal: nat, minPayload: nat, crc: Crc)
    requires Verify(data, minTotal, minPayload, crc) == Problems([])
    ensures Verify(data + extra, minTotal, minPayload, crc) == Problems([])
  {
    AcceptedHasHeader(data, minTotal, minPayload, crc);
    VerifyIff(data, minTotal, minPayload, crc);
    VerifyIff(data + extra, minTotal, minPayload, crc);
    ExtendedComplete(data, extra, FindFrom(data, 0).value, minTotal, minPayload, crc);
  }

  // ---------------------------------------------------------------- acceptance byte by byte

  function Byte(data: Bytes, at: nat): nat
    requires at < |data|
  {
    data[at] as nat
  }

  function Word16(data: Bytes, at: nat): nat
    requires at + 2 <= |data|
  {
    Byte(data, at) + 0x100 * Byte(data, at + 1)
  }

  function Word32(data: Bytes, at: nat): nat
    requires at + 4 <= |data|
  {
    Word16(data, at) + 0x1_0000 * Word16(data, at + 2)
  }

  function Word64(data: Bytes, at: nat): nat
    requires at + 8 <= |data|
  {
    Word32(data, at) + 0x1_0000_0000 * Word32(data, at + 4)
  }

  lemma LittleEndianSplit(a: Bytes, b: Bytes)
    requires |a| == 1
    ensures LittleEndian(a + b) == a[0] as nat + 256 * LittleEndian(b)
  {
    assert (a + b)[1..] == b;
  }

  lemma FieldStep(data: Bytes, at: nat, width: nat)
    requires width > 0 && at + width <= |data|
    ensures Field(data, at, width) == Byte(data, at) + 256 * Field(data, at + 1, width - 1)
  {
    assert Slice(data, at, at + width) == [data[at]] + Slice(data, at + 1, at + width);
    LittleEndianSplit([data[at]], Slice(data, at + 1, at + width));
  }

  lemma FieldIsWord16(data: Bytes, at: nat)
    requires at + 2 <= |data|
    ensures Field(data, at, 2) == Word16(data, at)
  {
    hide Slice;
    FieldStep(data, at, 2);
    FieldStep(data, at + 1, 1);
    FieldNone(data, at + 2);
  }

  lemma FieldNone(data: Bytes, at: nat)
    ensures Field(data, at, 0) == 0
  {}

  lemma FieldIsWord32(data: Bytes, at: nat)
    requires at + 4 <= |data|
    ensures Field(data, at, 4) == Word32(data, at)
  {
    hide Field;
    FieldStep(data, at, 4);
    FieldStep(data, at + 1, 3);
    FieldIsWord16(data, at + 2);
  }

  lemma FieldIsWord64(data: Bytes, at: nat)
    requires at + 8 <= |data|
    ensures Field(data, at, 8) == Word64(data, at)
  {
    hide Field, Word32;
    FieldStep(data, at, 8);
    FieldStep(data, at + 1, 7);
    FieldStep(data, at + 2, 6);
    FieldStep(data, at + 3, 5);
    FieldIsWord32(data, at + 4);
    WordBytes(data, at);
  }

  lemma WordBytes(data: Bytes, at: nat)
    requires at + 4 <= |data|
    ensures Word32(data, at) == Byte(data, at) + 0x100 * Byte(data, at + 1) + 0x1_0000 * Byte(data, at + 2)
                                + 0x100_0000 * Byte(data, at + 3)
  {}

  /** The end of the raw data of section `i`: its start plus its size. */
  function RawEnd(data: Bytes, table: nat, i: nat): nat
    requires table + 40 * i + 40 <= |data|
  {
    Word32(data, table + 40 * i + 20) + Word32(data, table + 40 * i + 16)
  }

  /** A PE image: its magic numbers, a complete section table, and section data that are not all
      empty and lie within the file. */
  ghost predicate Executable(data: Bytes) {
    && |data| >= 64 && Byte(data, 0) == 0x4D && Byte(data, 1) == 0x5A
    && var h := Word32(data, 0x3C);
       && h + 24 <= |data| && data[h..h + 4] == [0x50, 0x45, 0, 0]
       && var table := h + 24 + Word16(data, h + 20);
          && table + 40 * Word16(data, h + 6) <= |data|
          && (forall i: nat :: i < Word16(data, h + 6) ==> RawEnd(data, table, i) <= |data|)
          && exists i: nat :: i < Word16(data, h + 6) && RawEnd(data, table, i) > 0
  }

  predicate Signature(data: Bytes, at: nat) {
    at + 6 <= |data| && data[at..at + 6] == [0x37, 0x7A, 0xBC, 0xAF, 0x27, 0x1C]
  }

  /** The first occurrence of the signature of an archive. */
  ghost predicate FirstSignature(data: Bytes, pos: nat) {
    Signature(data, pos) && forall q: nat :: q < pos ==> !Signature(data, q)
  }

  /** A sound start header at `pos`: major version 0, the stored checksum is that of bytes 12 to 31,
      and the archive it describes ends within the file. */
  ghost predicate SoundHeader(data: Bytes, pos: nat, crc: Crc) {
    && pos + 32 <= |data| && Byte(data, pos + 6) == 0
    && Word32(data, pos + 8) == crc(data[pos + 12..pos + 32]) % 0x1_0000_0000
    && pos + 32 + Word64(data, pos + 12) + Word64(data, pos + 20) <= |data|
  }

  lemma SignatureIff(data: Bytes, pos: nat)
    ensures FindFrom(data, 0) == Some(pos) <==> FirstSignature(data, pos)
  {
    assert SEVEN_ZIP_SIGNATURE == [0x37, 0x7A, 0xBC, 0xAF, 0x27, 0x1C];
    forall q: nat ensures SignatureAt(data, q) <==> Signature(data, q) {}
    if FirstSignature(data, pos) {
      assert SignatureAt(data, pos);
      var found := FindFrom(data, 0);
      assert found.Some? && Signature(data, found.value);
      assert !(found.value < pos) && !(pos < found.value);
    }
  }

  lemma HeaderIff(data: Bytes, pos: nat, crc: Crc)
    requires pos <= |data|
    ensures SevenZipHeaderIssue(Slice(data, pos, pos + 32), |data|, pos, crc) == None <==> SoundHeader(data, pos, crc)
  {
    if pos + 32 <= |data| {
      hide Word32, Word64, Field;
      var header := data[pos..pos + 32];
      assert Slice(data, pos, pos + 32) == header;
      assert header[12..32] == data[pos + 12..pos + 32];
      FieldOfSlice(data, pos, 8, 4);
      FieldOfSlice(data, pos, 12, 8);
      FieldOfSlice(data, pos, 20, 8);
      FieldIsWord32(data, pos + 8);
      FieldIsWord64(data, pos + 12);
      FieldIsWord64(data, pos + 20);
    }
  }

  lemma FieldOfSlice(data: Bytes, pos: nat, at: nat, width: nat)
    requires pos + 32 <= |data| && at + width <= 32
    ensures Field(data[pos..pos + 32], at, width) == Field(data, pos + at, width)
  {
    if width > 0 {
      var header := data[pos..pos + 32];
      var a, b := header[at..at + width], data[pos + at..pos + at + width];
      forall k | 0 <= k < width ensures a[k] == b[k] { assert header[at + k] == data[pos + (at + k)]; }
      assert a == b;
    } else {
      FieldNone(data[pos..pos + 32], at);
      FieldNone(data, pos + at);
    }
  }

  lemma PeIff(data: Bytes)
    ensures IsPe(data) <==> && |data| >= 64 && Byte(data, 0) == 0x4D && Byte(data, 1) == 0x5A
                            && HeaderAt(data) + 4 <= |data|
                            && data[HeaderAt(data)..HeaderAt(data) + 4] == [0x50, 0x45, 0, 0]
  {
    hide Field;
    if |data| >= 64 { assert data[..2] == [data[0], data[1]]; }
    if HeaderAt(data) + 4 <= |data| {
      assert Slice(data, HeaderAt(data), HeaderAt(data) + 4) == data[HeaderAt(data)..HeaderAt(data) + 4];
    } else {
      assert |Slice(data, HeaderAt(data), HeaderAt(data) + 4)| < 4;
    }
  }

  /** The fields of a complete PE header as words. */
  lemma HeaderWords(data: Bytes)
    requires |data| >= 64 && HeaderAt(data) + 24 <= |data|
    ensures HeaderAt(data) == Word32(data, 0x3C)
    ensures SectionCount(data) == Word16(data, HeaderAt(data) + 6)
    ensures SectionTable(data) == HeaderAt(data) + 24 + Word16(data, HeaderAt(data) + 20)
  {
    hide Field, Word32, Word16;
    FieldIsWord32(data, 0x3C);
    FieldIsWord16(data, HeaderAt(data) + 6);
    FieldIsWord16(data, HeaderAt(data) + 20);
  }

  lemma EndIsRawEnd(data: Bytes, table: nat, i: nat)
    requires table + 40 * i + 40 <= |data|
    ensures EndOf(data, table, i) == RawEnd(data, table, i)
  {
    hide Field, Word32;
    FieldIsWord32(data, table + 40 * i + 20);
    FieldIsWord32(data, table + 40 * i + 16);
  }

  /** There is an overlay to speak of exactly when the file is an executable. */
  lemma OverlayIff(data: Bytes)
    ensures OverlaySize(data).Some? <==> Executable(data)
  {
    hide Word16, Word32, EndOf, RawEnd, LastEnd, SectionCount, SectionTable, HeaderAt, Field;
    PeIff(data);
    if |data| >= 64 { FieldIsWord32(data, 0x3C); HeaderIsWord(data); }
    if OverlaySize(data).Some? { OverlayNeedsTable(data); }
    if |data| >= 64 && HeaderAt(data) + 24 <= |data| {
      HeaderWords(data);
      var table, count := SectionTable(data), SectionCount(data);
      if table + 40 * count <= |data| { EndsIff(data, table, count); }
    }
  }

  lemma HeaderIsWord(data: Bytes)
    requires |data| >= 64
    ensures HeaderAt(data) == Word32(data, 0x3C)
  {
    hide Field, Word32;
    FieldIsWord32(data, 0x3C);
  }

  lemma EndsIff(data: Bytes, table: nat, count: nat)
    requires table + 40 * count <= |data|
    ensures 0 < LastEnd(data, table, count) <= |data|
            <==> (&& (forall i: nat :: i < count ==> RawEnd(data, table, i) <= |data|)
                  && exists i: nat :: i < count && RawEnd(data, table, i) > 0)
  {
    hide RawEnd, EndOf, LastEnd;
    LastEndIsLargest(data, table, count);
    forall i: nat | i < count ensures EndOf(data, table, i) == RawEnd(data, table, i) {
      EndIsRawEnd(data, table, i);
    }
    if LastEnd(data, table, count) > 0 {
      var i: nat :| i < count && EndOf(data, table, i) == LastEnd(data, table, count);
      assert RawEnd(data, table, i) == LastEnd(data, table, count);
    }
  }

  /** A file is accepted exactly when it is large enough, an executable, and from its first
      signature on holds enough bytes and a sound header. */
  lemma AcceptedIff(data: Bytes, minTotal: nat, minPayload: nat, crc: Crc)
    ensures Verify(data, minTotal, minPayload, crc) == Problems([])
            <==> && |data| >= minTotal && Executable(data)
                 && exists pos :: FirstSignature(data, pos) && |data| - pos >= minPayload && SoundHeader(data, pos, crc)
  {
    hide Executable, OverlaySize, FindFrom, SevenZipHeaderIssue, FirstSignature, SoundHeader;
    VerifyIff(data, minTotal, minPayload, crc);
    OverlayIff(data);
    ExecutableHasBytes(data);
    if FindFrom(data, 0).Some? {
      var pos := FindFrom(data, 0).value;
      SignatureIff(data, pos);
      HeaderIff(data, pos, crc);
    }
    forall pos: nat ensures FindFrom(data, 0) == Some(pos) <==> FirstSignature(data, pos) { SignatureIff(data, pos); }
  }

  lemma ExecutableHasBytes(data: Bytes)
    ensures Executable(data) ==> |data| > 0
  {}

  /** The check raises on an empty file only, and lists which problems another has: it is too
      small, not an executable, without a signature, or has too small an archive or an unsound
      header. */
  lemma ProblemsIff(data: Bytes, minTotal: nat, minPayload: nat, crc: Crc)
    ensures Verify(data, minTotal, minPayload, crc) == Raised <==> data == []
    ensures data != [] ==>
            var list := Verify(data, minTotal, minPayload, crc).list;
            && Missing !in list
            && (TooSmall in list <==> |data| < minTotal)
            && (NotPe in list <==> !Executable(data))
            && (NoSignature in list <==> Executable(data) && !HasSignature(data))
            && (PayloadTooSmall in list
                <==> Executable(data) && exists pos :: FirstSignature(data, pos) && |data| - pos < minPayload)
            && ((exists issue :: BadHeader(issue) in list)
                <==> Executable(data) && exists pos :: FirstSignature(data, pos) && !SoundHeader(data, pos, crc))
  {
    hide Executable, OverlaySize, FindFrom, SevenZipHeaderIssue, FirstSignature, SoundHeader;
    OverlayIff(data);
    if FindFrom(data, 0).Some? {
      var pos := FindFrom(data, 0).value;
      SignatureIff(data, pos);
      HeaderIff(data, pos, crc);
    }
    forall pos: nat ensures FindFrom(data, 0) == Some(pos) <==> FirstSignature(data, pos) { SignatureIff(data, pos); }
  }

  ghost predicate HasSignature(data: Bytes) { exists pos :: FirstSignature(data, pos) }
}
