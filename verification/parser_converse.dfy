/** The converse: whatever a successful run of the chunk loop reads is a
    sequence of encoded chunks that ends at its only IEND chunk, and the
    chunk-level view accepts them with the same records. */
module ParserConverse {
  import opened Wrappers
  import opened Bytes
  import opened PngText
  import opened Chunks
  import opened ChunkProperties
  import opened ChunkParser
  import opened ChunkLayout
  import opened ParserProperties

  /** The frames from `pos` are all present, up to one of type IEND that
      ends at `end`. */
  ghost predicate Reaches(data: seq<byte>, pos: nat, end: nat)
    decreases |data| - pos
  {
    && pos + LengthSize + TypeSize <= |data|
    && ReadFrame(data, pos).payloadEnd + CrcSize <= |data|
    && var crcEnd := ReadFrame(data, pos).payloadEnd + CrcSize;
       if ReadFrame(data, pos).chunkType == EndType then end == crcEnd
       else Reaches(data, crcEnd, end)
  }

  /** The frame at `pos` is present and its CRC ends at `next`; `isEnd`
      tells whether it is of type IEND. */
  ghost predicate Links(data: seq<byte>, pos: nat, next: nat, isEnd: bool) {
    && pos + LengthSize + TypeSize <= |data|
    && ReadFrame(data, pos).payloadEnd + CrcSize == next <= |data|
    && isEnd == (ReadFrame(data, pos).chunkType == EndType)
  }

  /** One step of a successful chunk loop: it either read an IEND chunk
      that ends where the loop ended, or it goes on at `next` and ends at
      the same place. */
  lemma ParsedStep(data: seq<byte>, pos: nat, codec: Codec) returns (next: nat, isEnd: bool)
    requires pos <= |data| && ParseChunks(data, pos, codec).Success?
    ensures Links(data, pos, next, isEnd)
    ensures isEnd ==> ParseChunks(data, pos, codec).value.end == next
    ensures !isEnd ==>
      && ParseChunks(data, next, codec).Success?
      && ParseChunks(data, next, codec).value.end == ParseChunks(data, pos, codec).value.end
  {
    next := ReadFrame(data, pos).payloadEnd + CrcSize;
    isEnd := ReadFrame(data, pos).chunkType == EndType;
  }

  /** One frame more in front of frames that reach `end`. */
  lemma ReachesStep(data: seq<byte>, pos: nat, next: nat, isEnd: bool, end: nat)
    requires Links(data, pos, next, isEnd)
    requires isEnd ==> end == next
    requires !isEnd ==> Reaches(data, next, end)
    ensures Reaches(data, pos, end)
  {
  }

  /** A successful chunk loop has walked whole frames up to an IEND chunk
      ending where the loop ended. */
  lemma {:induction false} ParsedReaches(data: seq<byte>, pos: nat, codec: Codec)
    requires pos <= |data| && ParseChunks(data, pos, codec).Success?
    ensures Reaches(data, pos, ParseChunks(data, pos, codec).value.end)
    decreases |data| - pos
  {
    var end := ParseChunks(data, pos, codec).value.end;
    var next, isEnd := ParsedStep(data, pos, codec);
    if !isEnd {
      ParsedReaches(data, next, codec);
    }
    ReachesStep(data, pos, next, isEnd, end);
  }

  /** Frames walked up to an IEND chunk are chunks encoded one after
      another, the last of them their only IEND chunk. */
  lemma {:induction false} ReachedLayout(data: seq<byte>, pos: nat, end: nat) returns (chunks: seq<Chunk>)
    requires Reaches(data, pos, end)
    ensures |chunks| > 0 && EncodedAt(data, pos, chunks)
    ensures EncodedEnd(data, pos, chunks) == end
    ensures FirstEnd(chunks) == |chunks| - 1
    decreases |data| - pos
  {
    var crcEnd := ReadFrame(data, pos).payloadEnd + CrcSize;
    var more: seq<Chunk> := [];
    if ReadFrame(data, pos).chunkType != EndType {
      more := ReachedLayout(data, crcEnd, end);
    }
    FrameChunkPrepend(data, pos, more);
    chunks := [FrameChunk(data, pos)] + more;
    assert chunks[1..] == more;
  }

  /** Conversely, a successful run of the chunk loop from `pos` has read
      chunks encoded one after another up to where it ended, that end at their
      only IEND chunk, and that the chunk-level view accepts with the same
      records. */
  lemma ParsedIsEncoded(data: seq<byte>, pos: nat, codec: Codec) returns (chunks: seq<Chunk>)
    requires pos <= |data| && ParseChunks(data, pos, codec).Success?
    ensures |chunks| > 0 && EncodedAt(data, pos, chunks)
    ensures EncodedEnd(data, pos, chunks) == ParseChunks(data, pos, codec).value.end
    ensures FirstEnd(chunks) == |chunks| - 1
    ensures Interpret(chunks, codec) == Stopped(Success(ParseChunks(data, pos, codec).value.records))
  {
    ParsedReaches(data, pos, codec);
    chunks := ReachedLayout(data, pos, ParseChunks(data, pos, codec).value.end);
    var end := EncodedEnd(data, pos, chunks);
    ParseEncoded(data, pos, chunks, end, codec);
    InterpretOpen(chunks, codec);
  }

  /** A PNG stream that parses successfully starts with the signature and
      the encoding of chunks whose last is their only IEND chunk, and the
      chunk-level view accepts those chunks with the parser's result;
      whatever follows them is never read. */
  lemma ParsedStream(data: seq<byte>, codec: Codec) returns (chunks: seq<Chunk>)
    requires ParseStream(data, codec).Success?
    ensures |chunks| > 0 && AllWellFramed(chunks)
    ensures FirstEnd(chunks) == |chunks| - 1
    ensures Signature + EncodeChunks(chunks) <= data
    ensures Interpret(chunks, codec) == Stopped(ParseStream(data, codec))
  {
    var start := |Signature|;
    chunks := ParsedIsEncoded(data, start, codec);
    var end := EncodedEnd(data, start, chunks);
    EncodedAtIsLayout(data, start, chunks);
    assert data[..end] == data[..start] + data[start..end];
  }
}
