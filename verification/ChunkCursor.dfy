/**
 The chunk reader of electron/file-chunk.js and the loop its callers run: read a chunk, go on
 at `nextOffset`, stop at `eof`.
 */
module ChunkCursor {

  newtype byte = x: int | 0 <= x < 256

  const DEFAULT_CHUNK_BYTES: nat := 256 * 1024
  const MAX_CHUNK_BYTES: nat := 4 * 1024 * 1024

  /** The value of `Number(...)`: not a number, an infinity, or a finite number. */
  datatype JsNumber = NaN | Infinite(positive: bool) | Finite(value: real)

  /** A bare number asks for that length from the start: its offset is not a number. */
  datatype Options = Options(offset: JsNumber, length: JsNumber)

  datatype Request = Request(offset: nat, length: nat)

  function Floor(x: real): (n: nat)
    requires x > 0.0
    ensures n as real <= x < n as real + 1.0
  {
    x.Floor
  }

  function NormalizeChunkOptions(o: Options): (r: Request)
    ensures r.offset == 0 || (o.offset.Finite? && r.offset as real <= o.offset.value < r.offset as real + 1.0)
    ensures o.offset.Finite? && o.offset.value >= 1.0 ==> r.offset > 0
    ensures r.length <= 4194304
    ensures o.length.Finite? && o.length.value > 0.0 ==>
              r.length as real <= o.length.value
              && (o.length.value < r.length as real + 1.0 || r.length == 4194304)
    ensures !(o.length.Finite? && o.length.value > 0.0) ==> r.length == 262144
  {
    var offset := if o.offset.Finite? && o.offset.value > 0.0 then Floor(o.offset.value) else 0;
    var requested := if o.length.Finite? && o.length.value > 0.0 then Floor(o.length.value)
                     else DEFAULT_CHUNK_BYTES;
    Request(offset, if requested < MAX_CHUNK_BYTES then requested else MAX_CHUNK_BYTES)
  }

  /** A normalised request is for at least one byte, except when a fraction of one was asked for. */
  lemma EmptyRequestIff(o: Options)
    ensures NormalizeChunkOptions(o).length == 0 <==> o.length.Finite? && 0.0 < o.length.value < 1.0
  {
    if o.length.Finite? && o.length.value > 0.0 {
      var n := Floor(o.length.value);
      assert n == 0 <==> o.length.value < 1.0;
    }
  }

  datatype Chunk = Chunk(data: seq<byte>, offset: nat, size: nat, nextOffset: nat, eof: bool)

  datatype Result = Ok(chunk: Chunk) | OffsetOutOfRange

  /** What one read returns when the operating system delivers `got` bytes of those asked for. */
  function ChunkAt(file: seq<byte>, r: Request, got: nat): Result {
    if r.offset > |file| then OffsetOutOfRange
    else
      var toRead := if r.length < |file| - r.offset then r.length else |file| - r.offset;
      if toRead == 0 then Ok(Chunk([], r.offset, |file|, |file|, true))
      else
        var n := if got < toRead then got else toRead;
        Ok(Chunk(file[r.offset..r.offset + n], r.offset, |file|, r.offset + n, r.offset + n >= |file|))
  }

  /** What a chunk says about the file: an offset behind its end is rejected; otherwise the data
      are the bytes at the offset, as many as were asked for, are there and were delivered, and
      the next offset follows them, or is the end when none were asked for or are left. */
  ghost predicate IsChunk(r: Result, file: seq<byte>, offset: nat, length: nat, got: nat) {
    && (r == OffsetOutOfRange <==> offset > |file|)
    && (r.Ok? ==>
          var c, n := r.chunk, |r.chunk.data|;
          && c.offset == offset && c.size == |file| && offset + n <= |file| && c.data == file[offset..offset + n]
          && n <= length && n <= got && (n == length || n == got || offset + n == |file|)
          && c.nextOffset == (if length == 0 then |file| else offset + n)
          && (c.eof <==> c.nextOffset == |file|))
  }

  lemma ChunkIsChunk(file: seq<byte>, r: Request, got: nat)
    ensures IsChunk(ChunkAt(file, r, got), file, r.offset, r.length, got)
  {}

  /** `readFileChunk` on a regular file: fills a buffer of at most the requested length. */
  method ReadFileChunk(file: seq<byte>, o: Options, got: nat) returns (r: Result)
    ensures r == ChunkAt(file, NormalizeChunkOptions(o), got)
    ensures r.Ok? ==> |r.chunk.data| <= 4194304
    ensures IsChunk(r, file, NormalizeChunkOptions(o).offset, NormalizeChunkOptions(o).length, got)
  {
    hide NormalizeChunkOptions;
    var request := NormalizeChunkOptions(o);
    var offset, length := request.offset, request.length;
    var size := |file|;
    ChunkIsChunk(file, request, got);
    if offset > size { return OffsetOutOfRange; }
    var toRead := if length < size - offset then length else size - offset;
    if toRead <= 0 { return Ok(Chunk([], offset, size, size, true)); }
    var bytesRead := if got < toRead then got else toRead;
    var buffer := new byte[toRead];
    for i := 0 to bytesRead
      invariant forall k :: 0 <= k < i ==> buffer[k] == file[offset + k]
    {
      buffer[i] := file[offset + i];
    }
    assert buffer[..bytesRead] == file[offset..offset + bytesRead];
    var nextOffset := offset + bytesRead;
    return Ok(Chunk(buffer[..bytesRead], offset, size, nextOffset, nextOffset >= size));
  }

  /** How many bytes each read delivers; a read of a non-empty rest delivers at least one. */
  type Delivery = nat -> nat

  ghost predicate Progressing(d: Delivery) { forall i: nat :: d(i) >= 1 }

  /** The data a caller collects by following the cursor from `offset` on. */
  ghost function Follow(file: seq<byte>, offset: nat, length: nat, d: Delivery, i: nat): seq<byte>
    requires offset <= |file| && Progressing(d)
    decreases |file| - offset
  {
    var c := ChunkAt(file, Request(offset, length), d(i)).chunk;
    if c.eof then c.data else c.data + Follow(file, c.nextOffset, length, d, i + 1)
  }

  lemma {:induction false} FollowReadsRest(file: seq<byte>, offset: nat, length: nat, d: Delivery, i: nat)
    requires offset <= |file| && Progressing(d) && length >= 1
    ensures Follow(file, offset, length, d, i) == file[offset..]
    decreases |file| - offset
  {
    var c := ChunkAt(file, Request(offset, length), d(i)).chunk;
    if !c.eof {
      FollowReadsRest(file, c.nextOffset, length, d, i + 1);
      assert file[offset..] == file[offset..c.nextOffset] + file[c.nextOffset..];
    }
  }

  /** For every file, request and pattern of short reads: following the cursor collects the
      whole file exactly when a whole byte was asked for per chunk, or there is nothing to
      read. A request for a fraction of a byte reports the end of the file at once. */
  lemma FollowReadsWholeFileIff(file: seq<byte>, o: Options, d: Delivery)
    requires Progressing(d)
    ensures Follow(file, 0, NormalizeChunkOptions(o).length, d, 0) == file
            <==> file == [] || !(o.length.Finite? && 0.0 < o.length.value < 1.0)
  {
    EmptyRequestIff(o);
    var length := NormalizeChunkOptions(o).length;
    if length >= 1 {
      FollowReadsRest(file, 0, length, d, 0);
      assert file[0..] == file;
    }
  }

  /** The calling loop. Short reads are chosen freely; the distance to the end shrinks. */
  method ReadAll(file: seq<byte>, o: Options) returns (data: seq<byte>)
    requires !(o.length.Finite? && 0.0 < o.length.value < 1.0)
    ensures data == file
  {
    EmptyRequestIff(o);
    data := [];
    var offset := 0;
    var eof := false;
    while !eof
      invariant offset <= |file| && data == file[..offset] && (eof ==> offset == |file|)
      decreases |file| - offset, !eof
    {
      var got: nat :| got >= 1;
      var r := ReadFileChunk(file, o.(offset := Finite(offset as real)), got);
      assert NormalizeChunkOptions(o.(offset := Finite(offset as real))).offset == offset;
      data := data + r.chunk.data;
      offset, eof := r.chunk.nextOffset, r.chunk.eof;
    }
    assert file[..|file|] == file;
  }
}
