/** Cut-off input: the chunk loop reads every byte up to where it stops, so
    a stream cut anywhere before that point fails. */
module ParserTruncation {
  import opened Wrappers
  import opened Bytes
  import opened PngText
  import opened Chunks
  import opened ChunkParser
  import opened ChunkLayout
  import opened ParserProperties
  import opened ParserConverse

  /** A frame cut short: too few bytes for the length and type is a read
      error; a payload or CRC that the input ends inside is the decoder's
      error if the cut payload does not decode, and a read error if it
      does, since the CRC is read only after decoding. */
  lemma ShortFrame(data: seq<byte>, pos: nat, codec: Codec)
    requires pos <= |data|
    ensures |data| < pos + LengthSize + TypeSize ==> ParseChunks(data, pos, codec) == Failure(ReadError)
    ensures pos + LengthSize + TypeSize <= |data| && |data| < ReadFrame(data, pos).payloadEnd + CrcSize ==>
      var frame := ReadFrame(data, pos);
      var decoded := DecodeChunk(frame.chunkType, frame.payload, codec);
      ParseChunks(data, pos, codec) == if decoded.Success? then Failure(ReadError) else Failure(decoded.error)
  {
  }

  /** The frame at `pos` read from the input cut at `k`, once its length
      and type are in: the same frame when its payload ends by `k`, and
      otherwise one whose payload stops at `k`. */
  lemma PrefixFrame(data: seq<byte>, pos: nat, k: nat)
    requires pos + LengthSize + TypeSize <= k <= |data|
    ensures var f, g := ReadFrame(data, pos), ReadFrame(data[..k], pos);
      && (f.payloadEnd <= k ==> g == f)
      && (k < f.payloadEnd ==> g.payloadEnd == k)
  {
    var cut := data[..k];
    assert cut[pos..pos + LengthSize] == data[pos..pos + LengthSize];
    assert cut[pos + LengthSize..pos + LengthSize + TypeSize] == data[pos + LengthSize..pos + LengthSize + TypeSize];
    var f := ReadFrame(data, pos);
    if f.payloadEnd <= k {
      assert cut[pos + LengthSize + TypeSize..f.payloadEnd] == data[pos + LengthSize + TypeSize..f.payloadEnd];
    }
  }

  /** A successful chunk loop from `pos` that ends at `end` fails on the
      input cut at any `k` from `pos` up to, not including, `end`. */
  lemma {:induction false} TruncatedLoop(data: seq<byte>, pos: nat, k: nat, codec: Codec)
    requires pos <= k <= |data| && ParseChunks(data, pos, codec).Success?
    requires k < ParseChunks(data, pos, codec).value.end
    ensures ParseChunks(data[..k], pos, codec).Failure?
    decreases |data| - pos
  {
    var cut := data[..k];
    var next, isEnd := ParsedStep(data, pos, codec);
    ShortFrame(cut, pos, codec);
    if pos + LengthSize + TypeSize <= k {
      var frame := ReadFrame(data, pos);
      PrefixFrame(data, pos, k);
      LoopStepOfRead(data, pos, frame, next, codec);
      if next <= k {
        assert cut[frame.payloadEnd..next] == data[frame.payloadEnd..next];
        LoopStepOfRead(cut, pos, frame, next, codec);
        TruncatedLoop(data, next, k, codec);
      }
    }
  }

  /** A stream that parses has a shortest prefix that parses the same: the
      signature and the chunks up to IEND. Every shorter prefix fails, so the
      parser needs every byte up to the end of the IEND chunk. */
  lemma TruncatedStream(data: seq<byte>, codec: Codec) returns (end: nat)
    requires ParseStream(data, codec).Success?
    ensures |Signature| < end <= |data|
    ensures ParseStream(data[..end], codec) == ParseStream(data, codec)
    ensures forall k :: 0 <= k < end ==> ParseStream(data[..k], codec).Failure?
  {
    var start := |Signature|;
    end := ParseChunks(data, start, codec).value.end;
    var chunks := ParsedIsEncoded(data, start, codec);
    EncodedAtIsLayout(data, start, chunks);
    assert data[..end] == Signature + EncodeChunks(chunks) + [] by {
      assert data[..end] == data[..start] + data[start..end];
    }
    EncodedStream(chunks, [], codec);
    forall k | 0 <= k < end
      ensures ParseStream(data[..k], codec).Failure?
    {
      if start <= k {
        assert data[..k][..start] == Signature;
        TruncatedLoop(data, start, k, codec);
      }
    }
  }
}
