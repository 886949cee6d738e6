/** Where encoded chunks sit in a byte sequence: chunks laid out one after
    another from a position, the same layout read as the encoding of the whole
    chunk sequence, and the frame the reader finds at each of them. */
module ChunkLayout {
  import opened Bytes
  import opened Chunks
  import opened ChunkParser

  /** A window of `w`, found at `i` in `s`, is a window of `s`. */
  lemma SliceOfSlice(s: seq<byte>, i: nat, w: seq<byte>, a: nat, b: nat)
    requires i + |w| <= |s| && s[i..i + |w|] == w && a <= b <= |w|
    ensures s[i + a..i + b] == w[a..b]
  {
    var l := s[i + a..i + b];
    forall k | 0 <= k < |l|
      ensures l[k] == w[a..b][k]
    {
      assert l[k] == s[i + a + k] == s[i..i + |w|][a + k];
    }
  }

  lemma SliceSplit(s: seq<byte>, a: nat, b: nat, c: nat)
    requires a <= b <= c <= |s|
    ensures s[a..c] == s[a..b] + s[b..c]
  {
  }

  /** The two halves of a concatenation found at `pos`. */
  lemma ConcatAt(data: seq<byte>, pos: nat, a: seq<byte>, b: seq<byte>)
    requires pos + |a + b| <= |data| && data[pos..pos + |a + b|] == a + b
    ensures data[pos..pos + |a|] == a
    ensures data[pos + |a|..pos + |a| + |b|] == b
  {
    SliceOfSlice(data, pos, a + b, 0, |a|);
    SliceOfSlice(data, pos, a + b, |a|, |a + b|);
    assert (a + b)[0..|a|] == a;
    assert (a + b)[|a|..|a + b|] == b;
  }

  /** The first two parts of a three-part concatenation. */
  lemma ConcatParts(a: seq<byte>, b: seq<byte>, c: seq<byte>)
    ensures (a + b + c)[..|a|] == a
    ensures (a + b + c)[|a|..|a| + |b|] == b
  {
  }

  lemma EncodeChunksCons(chunks: seq<Chunk>)
    requires AllWellFramed(chunks) && |chunks| > 0
    ensures EncodeChunks(chunks) == EncodeChunk(chunks[0]) + EncodeChunks(chunks[1..])
    ensures |EncodeChunks(chunks)| == |EncodeChunk(chunks[0])| + |EncodeChunks(chunks[1..])|
  {
  }

  /** `chunks` are encoded one after another from `pos` on. */
  predicate EncodedAt(data: seq<byte>, pos: nat, chunks: seq<Chunk>)
    decreases |chunks|
  {
    if |chunks| == 0 then pos <= |data|
    else
      && WellFramed(chunks[0])
      && pos + |EncodeChunk(chunks[0])| <= |data|
      && data[pos..pos + |EncodeChunk(chunks[0])|] == EncodeChunk(chunks[0])
      && EncodedAt(data, pos + |EncodeChunk(chunks[0])|, chunks[1..])
  }

  /** Where the chunks encoded from `pos` on end. */
  function EncodedEnd(data: seq<byte>, pos: nat, chunks: seq<Chunk>): (e: nat)
    requires EncodedAt(data, pos, chunks)
    ensures pos <= e <= |data|
    decreases |chunks|
  {
    if |chunks| == 0 then pos
    else EncodedEnd(data, pos + |EncodeChunk(chunks[0])|, chunks[1..])
  }

  /** The layout facts one step of the induction over encoded chunks needs. */
  lemma EncodedAtCons(data: seq<byte>, pos: nat, chunks: seq<Chunk>)
    requires EncodedAt(data, pos, chunks) && |chunks| > 0
    ensures WellFramed(chunks[0])
    ensures pos + |EncodeChunk(chunks[0])| <= |data|
    ensures data[pos..pos + |EncodeChunk(chunks[0])|] == EncodeChunk(chunks[0])
    ensures EncodedAt(data, pos + |EncodeChunk(chunks[0])|, chunks[1..])
    ensures EncodedEnd(data, pos + |EncodeChunk(chunks[0])|, chunks[1..]) == EncodedEnd(data, pos, chunks)
  {
  }

  /** The first encoded chunk and the encoding of the rest, found in turn. */
  lemma EncodedConsLayout(data: seq<byte>, pos: nat, chunks: seq<Chunk>)
    requires AllWellFramed(chunks) && |chunks| > 0
    requires pos + |EncodeChunks(chunks)| <= |data|
    requires data[pos..pos + |EncodeChunks(chunks)|] == EncodeChunks(chunks)
    ensures AllWellFramed(chunks[1..])
    ensures WellFramed(chunks[0])
    ensures pos + |EncodeChunk(chunks[0])| + |EncodeChunks(chunks[1..])| == pos + |EncodeChunks(chunks)|
    ensures data[pos..pos + |EncodeChunk(chunks[0])|] == EncodeChunk(chunks[0])
    ensures var next := pos + |EncodeChunk(chunks[0])|;
      data[next..next + |EncodeChunks(chunks[1..])|] == EncodeChunks(chunks[1..])
  {
    EncodeChunksCons(chunks);
    ConcatAt(data, pos, EncodeChunk(chunks[0]), EncodeChunks(chunks[1..]));
  }

  /** Prepending an encoded chunk to chunks encoded right after it. */
  lemma EncodedAtPrepend(data: seq<byte>, pos: nat, c: Chunk, more: seq<Chunk>)
    requires WellFramed(c)
    requires pos + |EncodeChunk(c)| <= |data| && data[pos..pos + |EncodeChunk(c)|] == EncodeChunk(c)
    requires EncodedAt(data, pos + |EncodeChunk(c)|, more)
    ensures EncodedAt(data, pos, [c] + more)
    ensures EncodedEnd(data, pos, [c] + more) == EncodedEnd(data, pos + |EncodeChunk(c)|, more)
  {
    assert ([c] + more)[0] == c && ([c] + more)[1..] == more;
  }

  /** The encoding of a chunk sequence, found in the data at `pos`, is the
      chunks encoded one after another. */
  lemma {:induction false} LayoutIsEncodedAt(data: seq<byte>, pos: nat, chunks: seq<Chunk>)
    requires AllWellFramed(chunks)
    requires pos + |EncodeChunks(chunks)| <= |data|
    requires data[pos..pos + |EncodeChunks(chunks)|] == EncodeChunks(chunks)
    ensures EncodedAt(data, pos, chunks)
    ensures EncodedEnd(data, pos, chunks) == pos + |EncodeChunks(chunks)|
    decreases |chunks|
  {
    if |chunks| > 0 {
      EncodedConsLayout(data, pos, chunks);
      LayoutIsEncodedAt(data, pos + |EncodeChunk(chunks[0])|, chunks[1..]);
    }
  }

  /** Conversely, chunks encoded one after another are the encoding of the
      sequence. */
  lemma {:induction false} EncodedAtIsLayout(data: seq<byte>, pos: nat, chunks: seq<Chunk>)
    requires EncodedAt(data, pos, chunks)
    ensures AllWellFramed(chunks)
    ensures EncodedEnd(data, pos, chunks) == pos + |EncodeChunks(chunks)|
    ensures data[pos..EncodedEnd(data, pos, chunks)] == EncodeChunks(chunks)
    decreases |chunks|
  {
    if |chunks| > 0 {
      var rest := chunks[1..];
      var next := pos + |EncodeChunk(chunks[0])|;
      var end := EncodedEnd(data, pos, chunks);
      EncodedAtCons(data, pos, chunks);
      EncodedAtIsLayout(data, next, rest);
      forall i | 0 < i < |chunks|
        ensures WellFramed(chunks[i])
      {
        assert chunks[i] == rest[i - 1];
      }
      EncodeChunksCons(chunks);
      SliceSplit(data, pos, next, end);
    }
  }

  /** The four parts of a four-part concatenation. */
  lemma FourParts(a: seq<byte>, b: seq<byte>, c: seq<byte>, d: seq<byte>)
    ensures var s := a + b + c + d;
      && var i, j, k := |a|, |a| + |b|, |a| + |b| + |c|;
      && s[0..i] == a && s[i..j] == b && s[j..k] == c && s[k..k + |d|] == d
  {
    var s := a + b + c + d;
    var i, j, k := |a|, |a| + |b|, |a| + |b| + |c|;
    assert s[0..i] == a by { assert forall x :: 0 <= x < i ==> s[0..i][x] == a[x]; }
    assert s[i..j] == b by { assert forall x :: 0 <= x < |b| ==> s[i..j][x] == b[x]; }
    assert s[j..k] == c by { assert forall x :: 0 <= x < |c| ==> s[j..k][x] == c[x]; }
    assert s[k..k + |d|] == d by { assert forall x :: 0 <= x < |d| ==> s[k..k + |d|][x] == d[x]; }
  }

  /** The four fields of an encoded chunk. */
  lemma EncodeChunkParts(c: Chunk)
    requires WellFramed(c)
    ensures var e, n := EncodeChunk(c), |c.payload|;
      && e[0..4] == Uint32Bytes(n) && e[4..8] == c.chunkType
      && e[8..8 + n] == c.payload && e[8 + n..12 + n] == c.crc
  {
    FourParts(Uint32Bytes(|c.payload|), c.chunkType, c.payload, c.crc);
  }

  /** The pieces of one encoded chunk found at `pos`. */
  lemma ChunkFields(data: seq<byte>, pos: nat, c: Chunk)
    requires WellFramed(c)
    requires pos + |EncodeChunk(c)| <= |data| && data[pos..pos + |EncodeChunk(c)|] == EncodeChunk(c)
    ensures Uint32(data[pos..pos + 4]) == |c.payload|
    ensures data[pos + 4..pos + 8] == c.chunkType
    ensures data[pos + 8..pos + 8 + |c.payload|] == c.payload
    ensures data[pos + 8 + |c.payload|..pos + 12 + |c.payload|] == c.crc
  {
    var e := EncodeChunk(c);
    var n := |c.payload|;
    EncodeChunkParts(c);
    SliceOfSlice(data, pos, e, 0, 4);
    SliceOfSlice(data, pos, e, 4, 8);
    SliceOfSlice(data, pos, e, 8, 8 + n);
    SliceOfSlice(data, pos, e, 8 + n, 12 + n);
    Uint32BytesRoundTrip(n);
  }

  /** The frame the reader finds at an encoded chunk. */
  lemma FrameAt(data: seq<byte>, pos: nat, c: Chunk)
    requires WellFramed(c)
    requires pos + |EncodeChunk(c)| <= |data| && data[pos..pos + |EncodeChunk(c)|] == EncodeChunk(c)
    ensures pos + LengthSize + TypeSize <= |data|
    ensures ReadFrame(data, pos) == Frame(c.chunkType, c.payload, pos + 8 + |c.payload|)
    ensures data[pos + 8 + |c.payload|..pos + 12 + |c.payload|] == c.crc
  {
    ChunkFields(data, pos, c);
  }

  /** The frame the reader finds at the first of the chunks encoded from `pos`. */
  lemma FrameAtEncoded(data: seq<byte>, pos: nat, chunks: seq<Chunk>)
    requires EncodedAt(data, pos, chunks) && |chunks| > 0
    ensures WellFramed(chunks[0]) && |EncodeChunk(chunks[0])| == 12 + |chunks[0].payload|
    ensures pos + 12 + |chunks[0].payload| <= |data|
    ensures ReadFrame(data, pos) == Frame(chunks[0].chunkType, chunks[0].payload, pos + 8 + |chunks[0].payload|)
    ensures data[pos + 8 + |chunks[0].payload|..pos + 12 + |chunks[0].payload|] == chunks[0].crc
  {
    EncodedAtCons(data, pos, chunks);
    FrameAt(data, pos, chunks[0]);
  }

  /** The chunk a complete frame and the CRC after it describe. */
  function FrameChunk(data: seq<byte>, pos: nat): Chunk
    requires pos + LengthSize + TypeSize <= |data|
    requires ReadFrame(data, pos).payloadEnd + CrcSize <= |data|
  {
    var frame := ReadFrame(data, pos);
    Chunk(frame.chunkType, frame.payload, data[frame.payloadEnd..frame.payloadEnd + CrcSize])
  }

  /** The bytes from `pos` to the end of a complete frame and its CRC are the
      encoding of the chunk they describe. */
  lemma FrameIsChunk(data: seq<byte>, pos: nat)
    requires pos + LengthSize + TypeSize <= |data|
    requires ReadFrame(data, pos).payloadEnd + CrcSize <= |data|
    ensures var c := FrameChunk(data, pos);
      && WellFramed(c)
      && ReadFrame(data, pos).payloadEnd + CrcSize == pos + |EncodeChunk(c)|
      && data[pos..pos + |EncodeChunk(c)|] == EncodeChunk(c)
  {
    var frame := ReadFrame(data, pos);
    var lengthField := data[pos..pos + LengthSize];
    var length := Uint32(lengthField);
    assert frame.payloadEnd == pos + 8 + length;
    var c := FrameChunk(data, pos);
    Uint32RoundTrip(lengthField);
    assert |c.payload| == length;
    var e := EncodeChunk(c);
    var crcEnd := frame.payloadEnd + CrcSize;
    assert e == lengthField + c.chunkType + c.payload + c.crc;
    SliceSplit(data, pos, pos + LengthSize, pos + LengthSize + TypeSize);
    SliceSplit(data, pos, pos + LengthSize + TypeSize, frame.payloadEnd);
    SliceSplit(data, pos, frame.payloadEnd, crcEnd);
  }

  /** Putting the chunk a complete frame describes in front of the chunks
      encoded after its CRC. */
  lemma FrameChunkPrepend(data: seq<byte>, pos: nat, more: seq<Chunk>)
    requires pos + LengthSize + TypeSize <= |data| && ReadFrame(data, pos).payloadEnd + CrcSize <= |data|
    requires EncodedAt(data, ReadFrame(data, pos).payloadEnd + CrcSize, more)
    ensures FrameChunk(data, pos).chunkType == ReadFrame(data, pos).chunkType
    ensures EncodedAt(data, pos, [FrameChunk(data, pos)] + more)
    ensures EncodedEnd(data, pos, [FrameChunk(data, pos)] + more)
         == EncodedEnd(data, ReadFrame(data, pos).payloadEnd + CrcSize, more)
  {
    FrameIsChunk(data, pos);
    EncodedAtPrepend(data, pos, FrameChunk(data, pos), more);
  }
}
