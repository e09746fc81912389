/**
 * The animation scanner for WebP files: a walk over the RIFF chunks that follow
 * a VP8X chunk, looking for the first ANMF (animation frame) chunk.
 */
module WebpAnimation {
  import opened Prelude
  import opened ByteOrder
  import opened Slices

  const RIFF_HEADER_SIZE := 12
  const CHUNK_HEADER_SIZE := 8
  const CHUNK_ID_SIZE := 4
  const VP8X_PAYLOAD_SIZE := 10
  const FIRST_CHUNK := RIFF_HEADER_SIZE + CHUNK_HEADER_SIZE + VP8X_PAYLOAD_SIZE
  const ANMF_ID: Bytes := [0x41, 0x4e, 0x4d, 0x46]
  const VP8X_ID: Bytes := [0x56, 0x50, 0x38, 0x58]

  datatype WebpAnimInfo = WebpAnimInfo(firstFrameLength: nat)

  // ------------------------------------------------------------ size fields

  /** The size field four bytes into the chunk at `offset`. */
  function SizeField(data: Bytes, offset: nat): (size: nat)
    requires offset + CHUNK_HEADER_SIZE <= |data|
  {
    LittleEndian(data[offset + 4..offset + 8])
  }

  function Padded(size: nat): (p: nat) {
    size + size % 2
  }

  /** Where the chunk at `offset` ends, with its padding byte. */
  function ChunkEnd(data: Bytes, offset: nat): (end: nat)
    requires offset + CHUNK_HEADER_SIZE <= |data|
  {
    offset + CHUNK_HEADER_SIZE + Padded(SizeField(data, offset))
  }

  /**
   * Every chunk moves the walk on by at least its header, by an even number of
   * bytes, and by no more than the largest padded size: sums stay exact.
   */
  lemma ChunkEndBounds(data: Bytes, offset: nat)
    requires offset + CHUNK_HEADER_SIZE <= |data|
    ensures CHUNK_HEADER_SIZE <= ChunkEnd(data, offset) - offset <= CHUNK_HEADER_SIZE + 0x1_0000_0000
    ensures (ChunkEnd(data, offset) - offset) % 2 == 0
  {
    hide LittleEndian, ReadUint32LE;
    var size := ReadUint32LE(data[offset + 4..offset + 8]);
    assert size == SizeField(data, offset) < 0x1_0000_0000;
    EvenUp(size);
  }

  lemma EvenUp(size: nat)
    requires size < 0x1_0000_0000
    ensures Padded(size) <= 0x1_0000_0000 && Padded(size) % 2 == 0
  {
  }

  lemma HasFourBytes(data: Bytes, offset: nat, id: Bytes)
    requires |id| == 4 && offset + 4 <= |data|
    ensures Has(data, offset, id)
       <==> data[offset] == id[0] && data[offset + 1] == id[1] && data[offset + 2] == id[2] && data[offset + 3] == id[3]
  {
    var s := data[offset..offset + 4];
    assert s == id <==> s[0] == id[0] && s[1] == id[1] && s[2] == id[2] && s[3] == id[3];
  }

  // ------------------------------------------------------- the recursive walk

  /** End of the first ANMF chunk at or after `offset`, reading whole chunks only. */
  function Walk(data: Bytes, offset: nat): (r: Option<nat>)
    decreases |data| - offset
  {
    if |data| < offset + CHUNK_HEADER_SIZE then None
    else if |data| < ChunkEnd(data, offset) then None
    else if Has(data, offset, ANMF_ID) then Some(ChunkEnd(data, offset))
    else Walk(data, ChunkEnd(data, offset))
  }

  function FirstFrameEnd(data: Bytes): (r: Option<nat>) {
    if |data| < RIFF_HEADER_SIZE + CHUNK_HEADER_SIZE then None
    else if !Has(data, RIFF_HEADER_SIZE, VP8X_ID) then None
    else Walk(data, FIRST_CHUNK)
  }

  function Info(end: Option<nat>): Option<WebpAnimInfo> {
    if end.Some? then Some(WebpAnimInfo(end.value)) else None
  }

  /**
   * The scanner itself. Its two defensive guards can never fire: the loop
   * condition already leaves room for the size field, and a chunk end lies at
   * least eight bytes past the chunk's start.
   */
  method ParseWebpAnimation(data: Bytes) returns (r: Option<WebpAnimInfo>)
    ensures r == Info(FirstFrameEnd(data))
  {
    hide Has;
    if |data| < RIFF_HEADER_SIZE + CHUNK_HEADER_SIZE {
      return None;
    }
    var offset := RIFF_HEADER_SIZE;
    HasFourBytes(data, offset, VP8X_ID);
    if data[offset] != 0x56 || data[offset + 1] != 0x50 || data[offset + 2] != 0x38 || data[offset + 3] != 0x58 {
      return None;
    }
    offset := offset + CHUNK_HEADER_SIZE + 10;
    while offset + CHUNK_HEADER_SIZE <= |data|
      invariant offset >= FIRST_CHUNK
      invariant FirstFrameEnd(data) == Walk(data, offset)
      decreases |data| - offset
    {
      HasFourBytes(data, offset, ANMF_ID);
      var isAnmf := data[offset] == ANMF_ID[0] && data[offset + 1] == ANMF_ID[1]
                    && data[offset + 2] == ANMF_ID[2] && data[offset + 3] == ANMF_ID[3];
      var sizeOffset := offset + CHUNK_ID_SIZE;
      if sizeOffset + 4 > |data| {
        assert false;
      }
      var chunkSize := ReadUint32LE(data[sizeOffset..sizeOffset + 4]);
      if chunkSize % 2 != 0 {
        chunkSize := chunkSize + 1;
      }
      var nextOffset := offset + CHUNK_HEADER_SIZE + chunkSize;
      if nextOffset <= offset {
        assert false;
      }
      if nextOffset > |data| {
        return None;
      }
      if isAnmf {
        return Some(WebpAnimInfo(nextOffset));
      }
      offset := nextOffset;
    }
    return None;
  }

  // ------------------------------------------------ cutting and appending bytes

  /** Cutting a file after byte `k` keeps the walk's answer when the answer fits, and loses it otherwise. */
  lemma {:induction false} WalkOnPrefix(data: Bytes, offset: nat, k: nat)
    requires k <= |data|
    ensures Walk(data[..k], offset)
         == if Walk(data, offset).Some? && Walk(data, offset).value <= k then Walk(data, offset) else None
    ensures Walk(data, offset).Some? ==> offset + CHUNK_HEADER_SIZE <= Walk(data, offset).value <= |data|
    decreases |data| - offset
  {
    if offset + CHUNK_HEADER_SIZE <= |data| && ChunkEnd(data, offset) <= |data| {
      var end := ChunkEnd(data, offset);
      if !Has(data, offset, ANMF_ID) {
        WalkOnPrefix(data, end, k);
      }
      if offset + CHUNK_HEADER_SIZE <= k {
        assert data[..k][offset + 4..offset + 8] == data[offset + 4..offset + 8];
        assert data[..k][offset..offset + 4] == data[offset..offset + 4];
      }
    } else if offset + CHUNK_HEADER_SIZE <= k {
      assert data[..k][offset + 4..offset + 8] == data[offset + 4..offset + 8];
    }
  }

  /**
   * What the scanner says of the first `k` bytes of a file, for every file and
   * every `k`: the whole-file answer when the first frame ends by byte `k`,
   * and nothing otherwise. A head never yields a frame the file does not have.
   */
  lemma HeadExact(data: Bytes, k: nat)
    requires k <= |data|
    ensures FirstFrameEnd(data[..k])
         == if FirstFrameEnd(data).Some? && FirstFrameEnd(data).value <= k then FirstFrameEnd(data) else None
    ensures FirstFrameEnd(data).Some? ==> FIRST_CHUNK + CHUNK_HEADER_SIZE <= FirstFrameEnd(data).value <= |data|
  {
    WalkOnPrefix(data, FIRST_CHUNK, k);
    if RIFF_HEADER_SIZE + CHUNK_HEADER_SIZE <= k {
      assert data[..k][RIFF_HEADER_SIZE..RIFF_HEADER_SIZE + 4] == data[RIFF_HEADER_SIZE..RIFF_HEADER_SIZE + 4];
    }
  }

  /** A found frame survives any bytes appended to the file and any cut at or after the frame's end. */
  lemma FoundFrameIsStable(data: Bytes, more: Bytes, k: nat)
    requires FirstFrameEnd(data).Some?
    ensures FirstFrameEnd(data + more) == FirstFrameEnd(data)
    ensures FirstFrameEnd(data).value <= k <= |data| ==> FirstFrameEnd(data[..k]) == FirstFrameEnd(data)
    ensures k < FirstFrameEnd(data).value && k <= |data| ==> FirstFrameEnd(data[..k]) == None
  {
    assert (data + more)[..|data|] == data;
    HeadExact(data + more, |data|);
    if k <= |data| {
      HeadExact(data, k);
    }
  }

  // ----------------------------------------- the sticker step of the processor

  const PATH_HEAD_BYTES := 100

  /** A processor input: bytes in memory, or the contents of the file at a path. */
  datatype MediaInput = InMemory(bytes: Bytes) | AtPath(file: Bytes)

  /** `readFileHead`: a read that asks for `bytes` and is given `got` of them. */
  function ReadFileHead(file: Bytes, bytes: nat, got: nat): (head: Bytes)
    requires got <= bytes && got <= |file|
  {
    file[..got]
  }

  /** What a complete read of the head yields. */
  function HeadLength(file: Bytes): (got: nat)
    ensures got <= PATH_HEAD_BYTES && got <= |file|
  {
    if |file| < PATH_HEAD_BYTES then |file| else PATH_HEAD_BYTES
  }

  /** `isAnimated` and `firstFrameLength` of a processed sticker. */
  function AnimationFields(input: MediaInput, got: nat): (fields: (bool, Option<nat>))
    requires input.AtPath? ==> got <= PATH_HEAD_BYTES && got <= |input.file|
  {
    var header := match input case InMemory(b) => b case AtPath(f) => ReadFileHead(f, PATH_HEAD_BYTES, got);
    (FirstFrameEnd(header).Some?, FirstFrameEnd(header))
  }

  /**
   * A path and a buffer with the same content get the same fields exactly when
   * there is no first frame or it ends within the bytes that were read; when
   * they differ, it is always the path that misses a frame the file has.
   */
  lemma PathVersusBuffer(file: Bytes, got: nat)
    requires got <= PATH_HEAD_BYTES && got <= |file|
    ensures AnimationFields(AtPath(file), got) == AnimationFields(InMemory(file), got)
       <==> (FirstFrameEnd(file).Some? ==> FirstFrameEnd(file).value <= got)
    ensures AnimationFields(AtPath(file), got).0
        ==> AnimationFields(AtPath(file), got) == AnimationFields(InMemory(file), got)
    ensures AnimationFields(AtPath(file), got) != AnimationFields(InMemory(file), got)
        ==> AnimationFields(AtPath(file), got) == (false, None) && AnimationFields(InMemory(file), got).0
  {
    HeadExact(file, got);
  }

  // ---------------------------------------------------- chunk lists and bytes

  /** A RIFF chunk; `pad` is the single padding byte of an odd payload. */
  datatype Chunk = Chunk(id: Bytes, payload: Bytes, pad: byte)

  /** Chunks the 32-bit size field can describe. */
  predicate WellFormed(c: Chunk) {
    |c.id| == CHUNK_ID_SIZE && |c.payload| < 0x1_0000_0000
  }

  predicate AllWellFormed(cs: seq<Chunk>) {
    forall i | 0 <= i < |cs| :: WellFormed(cs[i])
  }

  predicate IsFrame(c: Chunk) {
    c.id == ANMF_ID
  }

  predicate NoFrame(cs: seq<Chunk>) {
    forall i | 0 <= i < |cs| :: !IsFrame(cs[i])
  }

  function SerializeChunk(c: Chunk): (s: Bytes) {
    c.id + ToLittleEndian(|c.payload|, 4) + c.payload + (if |c.payload| % 2 == 1 then [c.pad] else [])
  }

  function Serialize(cs: seq<Chunk>): (s: Bytes) {
    if cs == [] then [] else SerializeChunk(cs[0]) + Serialize(cs[1..])
  }

  /** Any twelve RIFF bytes, the VP8X identifier, and the fourteen bytes the scanner skips. */
  predicate IsHead(head: Bytes) {
    |head| == FIRST_CHUNK && Has(head, RIFF_HEADER_SIZE, VP8X_ID)
  }

  /** The scanner reads back the chunk that was written at `offset`, whatever surrounds it. */
  lemma ReadsBackChunk(data: Bytes, offset: nat, c: Chunk)
    requires WellFormed(c) && Has(data, offset, SerializeChunk(c))
    ensures offset + CHUNK_HEADER_SIZE <= |data| && ChunkEnd(data, offset) == offset + |SerializeChunk(c)| <= |data|
    ensures Has(data, offset, ANMF_ID) <==> IsFrame(c)
  {
    var size, pad := ToLittleEndian(|c.payload|, 4), if |c.payload| % 2 == 1 then [c.pad] else [];
    HasBoth(data, offset, c.id + size + c.payload, pad);
    HasBoth(data, offset, c.id + size, c.payload);
    HasBoth(data, offset, c.id, size);
    LittleEndianInverse(|c.payload|, 4);
  }

  /** One step of the walk over a serialized chunk. */
  lemma WalkOverChunk(data: Bytes, offset: nat, c: Chunk)
    requires WellFormed(c) && Has(data, offset, SerializeChunk(c))
    ensures var end := offset + |SerializeChunk(c)|;
      Walk(data, offset) == if IsFrame(c) then Some(end) else Walk(data, end)
  {
    hide SerializeChunk, ChunkEnd, Has, WellFormed, IsFrame;
    ReadsBackChunk(data, offset, c);
  }

  lemma HasFirst(data: Bytes, offset: nat, cs: seq<Chunk>)
    requires cs != [] && Has(data, offset, Serialize(cs))
    ensures |Serialize(cs)| == |SerializeChunk(cs[0])| + |Serialize(cs[1..])|
    ensures Has(data, offset, SerializeChunk(cs[0]))
    ensures Has(data, offset + |SerializeChunk(cs[0])|, Serialize(cs[1..]))
  {
    hide SerializeChunk;
    HasBoth(data, offset, SerializeChunk(cs[0]), Serialize(cs[1..]));
  }

  lemma StillTail(cs: seq<Chunk>)
    requires cs != [] && AllWellFormed(cs) && NoFrame(cs)
    ensures AllWellFormed(cs[1..]) && NoFrame(cs[1..]) && WellFormed(cs[0]) && !IsFrame(cs[0])
  {
    hide WellFormed, IsFrame;
  }

  /** Walking over serialized chunks without a frame ends up at whatever follows them. */
  lemma {:induction false} WalkSkips(data: Bytes, offset: nat, cs: seq<Chunk>)
    requires AllWellFormed(cs) && NoFrame(cs) && Has(data, offset, Serialize(cs))
    ensures Walk(data, offset) == Walk(data, offset + |Serialize(cs)|)
    decreases |cs|
  {
    hide Walk, Has, SerializeChunk, WellFormed, IsFrame;
    if cs != [] {
      hide *;
      var first, later := cs[0], cs[1..];
      StillTail(cs);
      var mid := offset + |SerializeChunk(first)|;
      HasFirst(data, offset, cs);
      WalkOverChunk(data, offset, first);
      WalkSkips(data, mid, later);
    }
  }

  lemma {:induction false} SerializeAppend(cs: seq<Chunk>, ds: seq<Chunk>)
    ensures Serialize(cs + ds) == Serialize(cs) + Serialize(ds)
  {
    if cs == [] {
      assert cs + ds == ds;
    } else {
      assert (cs + ds)[1..] == cs[1..] + ds;
      SerializeAppend(cs[1..], ds);
    }
  }

  /**
   * Printing then scanning: a file made of a head, chunks that are not frames,
   * a frame, and any further bytes is reported to end its first frame exactly
   * where the serialized frame ends.
   */
  lemma RoundTripFrame(head: Bytes, cs: seq<Chunk>, frame: Chunk, rest: Bytes)
    requires IsHead(head) && AllWellFormed(cs) && NoFrame(cs) && WellFormed(frame) && IsFrame(frame)
    ensures FirstFrameEnd(head + Serialize(cs + [frame]) + rest) == Some(|head| + |Serialize(cs + [frame])|)
  {
    hide Walk, SerializeChunk, Serialize, IsFrame, WellFormed;
    var ser, data := SerializeChunk(frame), head + Serialize(cs + [frame]) + rest;
    SerializeLast(cs, frame);
    assert Has(data, 0, head + Serialize(cs + [frame]));
    HasBoth(data, 0, head, Serialize(cs + [frame]));
    HasBoth(data, |head|, Serialize(cs), ser);
    WalkSkips(data, |head|, cs);
    WalkOverChunk(data, |head| + |Serialize(cs)|, frame);
    HeadIsRecognized(data, head);
  }

  lemma SerializeLast(cs: seq<Chunk>, c: Chunk)
    ensures Serialize(cs + [c]) == Serialize(cs) + SerializeChunk(c)
  {
    SerializeAppend(cs, [c]);
    assert Serialize([c]) == SerializeChunk(c) + [];
  }

  lemma HeadIsRecognized(data: Bytes, head: Bytes)
    requires IsHead(head) && Has(data, 0, head)
    ensures FirstFrameEnd(data) == Walk(data, FIRST_CHUNK)
  {
    hide Walk;
    assert data[..FIRST_CHUNK][RIFF_HEADER_SIZE..RIFF_HEADER_SIZE + 4] == data[RIFF_HEADER_SIZE..RIFF_HEADER_SIZE + 4];
  }

  /** A file of well-formed chunks none of which is a frame is reported as not animated. */
  lemma RoundTripStill(head: Bytes, cs: seq<Chunk>)
    requires IsHead(head) && AllWellFormed(cs) && NoFrame(cs)
    ensures FirstFrameEnd(head + Serialize(cs)) == None
  {
    hide SerializeChunk, Serialize, IsFrame, WellFormed;
    var data := head + Serialize(cs);
    assert Has(data, 0, data);
    HasBoth(data, 0, head, Serialize(cs));
    WalkSkips(data, |head|, cs);
    HeadIsRecognized(data, head);
  }

  /** A first chunk as section 2.7 of RFC 9649 prescribes it. */
  predicate IsVp8x(c: Chunk) {
    c.id == VP8X_ID && |c.payload| == VP8X_PAYLOAD_SIZE
  }

  lemma Vp8xMakesHead(riff: Bytes, vp8x: Chunk)
    requires |riff| == RIFF_HEADER_SIZE && IsVp8x(vp8x)
    ensures IsHead(riff + SerializeChunk(vp8x))
  {
    var head := riff + SerializeChunk(vp8x);
    assert head[RIFF_HEADER_SIZE..RIFF_HEADER_SIZE + 4] == vp8x.id;
  }

  lemma SerializeFirst(c: Chunk, cs: seq<Chunk>)
    ensures Serialize([c] + cs) == SerializeChunk(c) + Serialize(cs)
  {
    hide SerializeChunk;
    assert ([c] + cs)[1..] == cs;
  }

  /**
   * The same for a whole file given as a list of chunks that opens with a
   * ten-byte VP8X: with a frame in it the file is reported to end its first
   * frame where the serialization up to that frame ends, and without one the
   * file is reported as not animated.
   */
  lemma RoundTripFile(riff: Bytes, vp8x: Chunk, cs: seq<Chunk>, frame: Chunk, rest: Bytes)
    requires |riff| == RIFF_HEADER_SIZE && IsVp8x(vp8x) && AllWellFormed(cs) && NoFrame(cs)
    requires WellFormed(frame) && IsFrame(frame)
    ensures FirstFrameEnd(riff + Serialize([vp8x] + (cs + [frame])) + rest)
        == Some(|riff| + |Serialize([vp8x] + (cs + [frame]))|)
    ensures FirstFrameEnd(riff + Serialize([vp8x] + cs)) == None
  {
    hide FirstFrameEnd, SerializeChunk, Serialize, IsFrame, WellFormed, IsHead, IsVp8x, AllWellFormed, NoFrame;
    var head := riff + SerializeChunk(vp8x);
    Vp8xMakesHead(riff, vp8x);
    RoundTripFrame(head, cs, frame, rest);
    RoundTripStill(head, cs);
    SerializeFirst(vp8x, cs + [frame]);
    SerializeFirst(vp8x, cs);
    assert riff + Serialize([vp8x] + (cs + [frame])) + rest == head + Serialize(cs + [frame]) + rest;
    assert riff + Serialize([vp8x] + cs) == head + Serialize(cs);
  }

  /** A size field as its four bytes spell it. */
  function SizeOf(b0: byte, b1: byte, b2: byte, b3: byte): (n: nat) {
    b0 as nat + 256 * (b1 as nat) + 65536 * (b2 as nat) + 16777216 * (b3 as nat)
  }

  lemma FrameAt(data: Bytes, b0: byte, b1: byte, b2: byte, b3: byte)
    requires |data| >= 38 && data[12..16] == [0x56, 0x50, 0x38, 0x58]
    requires data[30..34] == [0x41, 0x4E, 0x4D, 0x46] && data[34..38] == [b0, b1, b2, b3]
    ensures var size := SizeOf(b0, b1, b2, b3);
      FirstFrameEnd(data) == if 38 + size + size % 2 <= |data| then Some(38 + size + size % 2) else None
  {
    hide Walk, LittleEndian, SizeOf;
    SizeOfFour(b0, b1, b2, b3);
    assert SizeField(data, 30) == SizeOf(b0, b1, b2, b3);
    WalkAtFrame(data, 30);
  }

  lemma WalkAtFrame(data: Bytes, offset: nat)
    requires offset + CHUNK_HEADER_SIZE <= |data| && Has(data, offset, ANMF_ID)
    ensures Walk(data, offset) == if ChunkEnd(data, offset) <= |data| then Some(ChunkEnd(data, offset)) else None
  {
    hide ChunkEnd, Has;
  }

  lemma SizeOfFour(b0: byte, b1: byte, b2: byte, b3: byte)
    ensures LittleEndian([b0, b1, b2, b3]) == SizeOf(b0, b1, b2, b3)
  {
    LittleEndianFour([b0, b1, b2, b3]);
  }

  lemma Piece(before: Bytes, s: Bytes, after: Bytes)
    ensures (before + s + after)[|before|..|before| + |s|] == s
  {
  }

  /**
   * The bytes themselves, for every file that opens with any twelve bytes,
   * "VP8X" and any fourteen more: if "ANMF" and a size follow, the first frame
   * ends behind that many bytes, one more when the size is odd, provided the
   * file holds them; nothing is found in it otherwise.
   */
  lemma FrameBytes(riff: Bytes, skipped: Bytes, b0: byte, b1: byte, b2: byte, b3: byte, later: Bytes)
    requires |riff| == 12 && |skipped| == 14
    ensures var data := riff + [0x56, 0x50, 0x38, 0x58] + skipped + [0x41, 0x4E, 0x4D, 0x46] + [b0, b1, b2, b3] + later;
      var size := SizeOf(b0, b1, b2, b3);
      FirstFrameEnd(data) == if 38 + size + size % 2 <= |data| then Some(38 + size + size % 2) else None
  {
    hide FirstFrameEnd, SizeOf;
    var vp8x: Bytes, anmf: Bytes, size: Bytes := [0x56, 0x50, 0x38, 0x58], [0x41, 0x4E, 0x4D, 0x46], [b0, b1, b2, b3];
    var data := riff + vp8x + skipped + anmf + size + later;
    assert data == riff + vp8x + (skipped + anmf + size + later);
    Piece(riff, vp8x, skipped + anmf + size + later);
    assert data == (riff + vp8x + skipped) + anmf + (size + later);
    Piece(riff + vp8x + skipped, anmf, size + later);
    Piece(riff + vp8x + skipped + anmf, size, later);
    FrameAt(data, b0, b1, b2, b3);
  }

  /** Without "VP8X" in its place, and in a file of fewer than twenty bytes, nothing is found. */
  lemma NoVp8xNoFrame(data: Bytes)
    requires |data| < 20 || data[12..16] != [0x56, 0x50, 0x38, 0x58]
    ensures FirstFrameEnd(data) == None
  {
  }

  /** A complete read of the head sees the first hundred bytes of a file, or all of a shorter one. */
  lemma CompleteHeadRead(file: Bytes)
    ensures var r := AnimationFields(AtPath(file), HeadLength(file));
      r == (FirstFrameEnd(if |file| <= 100 then file else file[..100]).Some?,
            FirstFrameEnd(if |file| <= 100 then file else file[..100]))
  {
    assert file[..|file|] == file;
  }

  /** The chunk the scanner sees at `offset`. */
  function ChunkAt(data: Bytes, offset: nat): (c: Chunk)
    requires offset + CHUNK_HEADER_SIZE <= |data| && ChunkEnd(data, offset) <= |data|
  {
    var size := SizeField(data, offset);
    var body := offset + CHUNK_HEADER_SIZE;
    Chunk(data[offset..offset + 4], data[body..body + size], if size % 2 == 1 then data[body + size] else 0)
  }

  lemma ChunkAtSerializes(data: Bytes, offset: nat)
    requires offset + CHUNK_HEADER_SIZE <= |data| && ChunkEnd(data, offset) <= |data|
    ensures WellFormed(ChunkAt(data, offset))
    ensures SerializeChunk(ChunkAt(data, offset)) == data[offset..ChunkEnd(data, offset)]
  {
    var size := SizeField(data, offset);
    var body := offset + CHUNK_HEADER_SIZE;
    LittleEndianInverseBytes(data[offset + 4..offset + 8]);
    assert data[offset..offset + 4] + data[offset + 4..body] == data[offset..body];
    assert data[offset..body] + data[body..body + size] == data[offset..body + size];
    if size % 2 == 1 {
      assert data[offset..body + size] + [data[body + size]] == data[offset..body + size + 1];
    }
  }

  /** The chunks before the first frame and the frame itself, as the walk met them. */
  lemma {:induction false} WalkDecomposes(data: Bytes, offset: nat) returns (cs: seq<Chunk>, frame: Chunk)
    requires offset <= |data| && Walk(data, offset).Some?
    ensures AllWellFormed(cs) && NoFrame(cs) && WellFormed(frame) && IsFrame(frame)
    ensures Walk(data, offset).value <= |data| && offset <= Walk(data, offset).value
    ensures data[offset..Walk(data, offset).value] == Serialize(cs + [frame])
    decreases |data| - offset
  {
    var end := ChunkEnd(data, offset);
    ChunkAtSerializes(data, offset);
    var here := ChunkAt(data, offset);
    if Has(data, offset, ANMF_ID) {
      cs, frame := [], here;
      assert cs + [frame] == [here];
      assert Serialize([here]) == SerializeChunk(here) + [];
    } else {
      var later;
      later, frame := WalkDecomposes(data, end);
      cs := [here] + later;
      assert (cs + [frame])[1..] == later + [frame];
      var stop := Walk(data, end).value;
      assert data[offset..end] + data[end..stop] == data[offset..stop];
    }
  }

  /** The first `end` bytes are a head and a list of chunks whose only frame is the last. */
  predicate IsFramedPrefix(data: Bytes, end: nat, head: Bytes, cs: seq<Chunk>, frame: Chunk) {
    && IsHead(head) && AllWellFormed(cs) && NoFrame(cs) && WellFormed(frame) && IsFrame(frame)
    && end <= |data| && data[..end] == head + Serialize(cs + [frame])
  }

  ghost predicate EndsFirstFrame(data: Bytes, end: nat) {
    exists head, cs, frame :: IsFramedPrefix(data, end, head, cs, frame)
  }

  /**
   * The scanner on arbitrary bytes: it reports `end` if and only if the file
   * up to `end` is a head followed by chunks of which the last, and no other,
   * is a frame.
   */
  lemma ScannerExact(data: Bytes, end: nat)
    ensures FirstFrameEnd(data) == Some(end) <==> EndsFirstFrame(data, end)
  {
    hide FirstFrameEnd, Serialize, WellFormed, IsFrame, IsHead, AllWellFormed, NoFrame;
    if FirstFrameEnd(data) == Some(end) {
      FoundFrameDecomposes(data, end);
    }
    if EndsFirstFrame(data, end) {
      var head, cs, frame :| IsFramedPrefix(data, end, head, cs, frame);
      RoundTripFrame(head, cs, frame, data[end..]);
      assert data == head + Serialize(cs + [frame]) + data[end..];
    }
  }

  lemma FoundFrameDecomposes(data: Bytes, end: nat)
    requires FirstFrameEnd(data) == Some(end)
    ensures EndsFirstFrame(data, end)
  {
    HeadExact(data, |data|);
    var cs, frame := WalkDecomposes(data, FIRST_CHUNK);
    hide Walk, Serialize, SerializeChunk, WellFormed, IsFrame, AllWellFormed, NoFrame;
    var head := data[..FIRST_CHUNK];
    assert Has(head, RIFF_HEADER_SIZE, VP8X_ID) by {
      assert head[RIFF_HEADER_SIZE..RIFF_HEADER_SIZE + 4] == data[RIFF_HEADER_SIZE..RIFF_HEADER_SIZE + 4];
    }
    assert data[..end] == head + data[FIRST_CHUNK..end];
    assert IsFramedPrefix(data, end, head, cs, frame);
  }
}
