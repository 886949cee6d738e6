/** The byte-level parser against the chunk-level view: chunks laid out after
    the signature parse to what those chunks amount to, whatever bytes follow
    the IEND chunk. */
module ParserProperties {
  import opened Wrappers
  import opened Bytes
  import opened PngText
  import opened Chunks
  import opened ChunkParser
  import opened ChunkProperties
  import opened ChunkLayout

  /** The chunk loop's step on values: what it yields for one chunk, given
      the decoding, whether the CRC matches, whether the type is IEND, where
      the chunk ends, and what the loop yields from there. */
  function LoopStep(decoded: Result<seq<TextualData>, Error>, ok: bool, isEnd: bool, next: nat,
                    more: Result<Parsed, Error>): Result<Parsed, Error> {
    match decoded
    case Failure(e) => Failure(e)
    case Success(records) =>
      if !ok then Failure(CrcMismatch)
      else if isEnd then Success(Parsed(records, next))
      else Prepend(records, more)
  }

  /** The chunk-level step on values. */
  function OutcomeStep(decoded: Result<seq<TextualData>, Error>, ok: bool, isEnd: bool, more: Outcome): Outcome {
    match decoded
    case Failure(e) => Stopped(Failure(e))
    case Success(records) =>
      if !ok then Stopped(Failure(CrcMismatch))
      else if isEnd then Stopped(Success(records))
      else Continue(records, more)
  }

  /** One turn of the chunk loop, on the frame it reads. */
  lemma LoopStepOfRead(data: seq<byte>, pos: nat, frame: Frame, next: nat, codec: Codec)
    requires pos + LengthSize + TypeSize <= |data| && frame == ReadFrame(data, pos)
    requires next == frame.payloadEnd + CrcSize <= |data|
    ensures ParseChunks(data, pos, codec) ==
      LoopStep(DecodeChunk(frame.chunkType, frame.payload, codec),
               data[frame.payloadEnd..next] == codec.checksum(frame.chunkType + frame.payload),
               frame.chunkType == EndType, next, ParseChunks(data, next, codec))
  {
    var decoded := DecodeChunk(frame.chunkType, frame.payload, codec);
    if decoded.Success? && data[frame.payloadEnd..next] == codec.checksum(frame.chunkType + frame.payload) {
      assert ParseChunks(data, pos, codec) ==
        if frame.chunkType == EndType then Success(Parsed(decoded.value, next))
        else Prepend(decoded.value, ParseChunks(data, next, codec));
    }
  }

  /** The chunk loop on a frame read in full, on values. */
  lemma LoopStepOfFrame(data: seq<byte>, pos: nat, c: Chunk, next: nat, codec: Codec)
    requires next == pos + 12 + |c.payload| <= |data|
    requires ReadFrame(data, pos) == Frame(c.chunkType, c.payload, pos + 8 + |c.payload|)
    requires data[pos + 8 + |c.payload|..next] == c.crc
    ensures ParseChunks(data, pos, codec) ==
      LoopStep(DecodeChunk(c.chunkType, c.payload, codec), CrcOk(c, codec), c.chunkType == EndType,
               next, ParseChunks(data, next, codec))
  {
    var frame := ReadFrame(data, pos);
    LoopStepOfRead(data, pos, frame, next, codec);
  }

  /** The chunk loop on the first of the chunks encoded at `pos`. */
  lemma LoopStepAt(data: seq<byte>, pos: nat, chunks: seq<Chunk>, next: nat, codec: Codec)
    requires EncodedAt(data, pos, chunks) && |chunks| > 0
    requires next == pos + |EncodeChunk(chunks[0])|
    ensures ParseChunks(data, pos, codec) ==
      LoopStep(DecodeChunk(chunks[0].chunkType, chunks[0].payload, codec), CrcOk(chunks[0], codec),
               chunks[0].chunkType == EndType, next, ParseChunks(data, next, codec))
  {
    FrameAtEncoded(data, pos, chunks);
    LoopStepOfFrame(data, pos, chunks[0], next, codec);
  }

  /** The chunk-level view on its first chunk, on values. */
  lemma OutcomeStepAt(chunks: seq<Chunk>, codec: Codec)
    requires |chunks| > 0
    ensures Interpret(chunks, codec) ==
      OutcomeStep(DecodeChunk(chunks[0].chunkType, chunks[0].payload, codec), CrcOk(chunks[0], codec),
                  chunks[0].chunkType == EndType, Interpret(chunks[1..], codec))
  {
  }

  lemma PrependTwice(a: seq<TextualData>, b: seq<TextualData>, r: Result<Parsed, Error>)
    ensures Prepend(a, Prepend(b, r)) == Prepend(a + b, r)
  {
    if r.Success? {
      assert a + (b + r.value.records) == (a + b) + r.value.records;
    }
  }

  /** What the chunk loop yields at a position, `parsed`, agrees with what
      the chunks from there amount to: the same rejection, the same records
      when they stop at IEND, and, when they run out before IEND, their
      records in front of `after`, the parse of the bytes following them. */
  predicate Agrees(o: Outcome, parsed: Result<Parsed, Error>, after: Result<Parsed, Error>) {
    && (o.Stopped? && o.result.Failure? ==> parsed == Failure(o.result.error))
    && (o.Stopped? && o.result.Success? ==> parsed.Success? && parsed.value.records == o.result.value)
    && (o.Open? ==> parsed == Prepend(o.records, after))
  }

  /** The case analysis of one chunk, on values only. */
  lemma AgreesStep(
    decoded: Result<seq<TextualData>, Error>, ok: bool, isEnd: bool, next: nat,
    oRest: Outcome, parsedRest: Result<Parsed, Error>, after: Result<Parsed, Error>)
    requires decoded.Success? && ok && !isEnd ==> Agrees(oRest, parsedRest, after)
    ensures Agrees(OutcomeStep(decoded, ok, isEnd, oRest), LoopStep(decoded, ok, isEnd, next, parsedRest), after)
  {
    if decoded.Success? && ok && !isEnd && oRest.Open? {
      PrependTwice(decoded.value, oRest.records, after);
    }
  }

  /** A stream laid out from `chunks` at `pos` parses to what the chunks
      amount to; when they run out before IEND, the parse goes on with the
      bytes after them. */
  lemma {:induction false} ParseEncoded(data: seq<byte>, pos: nat, chunks: seq<Chunk>, end: nat, codec: Codec)
    requires EncodedAt(data, pos, chunks) && end == EncodedEnd(data, pos, chunks)
    ensures Agrees(Interpret(chunks, codec), ParseChunks(data, pos, codec), ParseChunks(data, end, codec))
    decreases |chunks|
  {
    if |chunks| == 0 {
      var r := ParseChunks(data, pos, codec);
      if r.Success? {
        assert [] + r.value.records == r.value.records;
      }
    } else {
      var c := chunks[0];
      var rest := chunks[1..];
      var next := pos + |EncodeChunk(c)|;
      var decoded := DecodeChunk(c.chunkType, c.payload, codec);
      EncodedAtCons(data, pos, chunks);
      if decoded.Success? && CrcOk(c, codec) && c.chunkType != EndType {
        ParseEncoded(data, next, rest, end, codec);
      }
      LoopStepAt(data, pos, chunks, next, codec);
      OutcomeStepAt(chunks, codec);
      AgreesStep(decoded, CrcOk(c, codec), c.chunkType == EndType, next,
        Interpret(rest, codec), ParseChunks(data, next, codec), ParseChunks(data, end, codec));
    }
  }

  /** The chunk loop at the very end of the input fails to read a length. */
  lemma ParseAtEnd(data: seq<byte>, codec: Codec)
    ensures ParseChunks(data, |data|, codec) == Failure(ReadError)
  {
  }

  /** The chunks of a stream built from the signature and encoded chunks
      are encoded one after another from the end of the signature. */
  lemma StreamLayout(e: seq<byte>, chunks: seq<Chunk>, trailing: seq<byte>)
    requires AllWellFramed(chunks) && e == EncodeChunks(chunks)
    ensures EncodedAt(Signature + e + trailing, |Signature|, chunks)
    ensures EncodedEnd(Signature + e + trailing, |Signature|, chunks) == |Signature| + |e|
  {
    ConcatParts(Signature, e, trailing);
    LayoutIsEncodedAt(Signature + e + trailing, |Signature|, chunks);
  }

  /** The chunk loop after the signature of such a stream agrees with the
      chunk-level view. */
  lemma StreamAgrees(e: seq<byte>, chunks: seq<Chunk>, trailing: seq<byte>, codec: Codec)
    requires AllWellFramed(chunks) && e == EncodeChunks(chunks)
    ensures var data := Signature + e + trailing;
      && |Signature| + |e| <= |data|
      && Agrees(Interpret(chunks, codec), ParseChunks(data, |Signature|, codec),
                ParseChunks(data, |Signature| + |e|, codec))
  {
    StreamLayout(e, chunks, trailing);
    ParseEncoded(Signature + e + trailing, |Signature|, chunks, |Signature| + |e|, codec);
  }

  /** A PNG stream built from the signature and encoded chunks: when the
      chunks reach an IEND chunk or a rejection, the parser returns exactly
      what the chunk-level view returns, whatever bytes follow; when they run
      out before IEND and nothing follows, the parser reports a read error. */
  lemma EncodedStream(chunks: seq<Chunk>, trailing: seq<byte>, codec: Codec)
    requires AllWellFramed(chunks)
    ensures var o := Interpret(chunks, codec);
      && (o.Stopped? ==> ParseStream(Signature + EncodeChunks(chunks) + trailing, codec) == o.result)
      && (o.Open? ==> ParseStream(Signature + EncodeChunks(chunks), codec) == Failure(ReadError))
  {
    var o := Interpret(chunks, codec);
    var e := EncodeChunks(chunks);
    if o.Stopped? {
      ConcatParts(Signature, e, trailing);
      StreamAgrees(e, chunks, trailing, codec);
    } else {
      ConcatParts(Signature, e, []);
      StreamAgrees(e, chunks, [], codec);
      assert Signature + e + [] == Signature + e;
      ParseAtEnd(Signature + e, codec);
    }
  }

  /** A PNG stream built from chunks, the first of which that does not pass
      is chunk `k` and no earlier one is IEND, fails with that chunk's
      rejection: its decoder's error, or a CRC mismatch. */
  lemma RejectedStream(chunks: seq<Chunk>, trailing: seq<byte>, k: nat, codec: Codec)
    requires AllWellFramed(chunks) && k < |chunks| && !Passes(chunks[k], codec)
    requires forall i :: 0 <= i < k ==> Passes(chunks[i], codec) && chunks[i].chunkType != EndType
    ensures ParseStream(Signature + EncodeChunks(chunks) + trailing, codec)
         == Failure(RejectionOf(chunks[k], codec))
  {
    assert FirstRejected(chunks, k, codec);
    InterpretRejects(chunks, k, codec);
    EncodedStream(chunks, trailing, codec);
  }
}
