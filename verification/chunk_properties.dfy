/** What a chunk sequence amounts to, stated without the chunk-by-chunk
    recursion: the parse succeeds exactly when an IEND chunk is reached and it
    and every chunk before it pass, its records are those of the textual chunks
    in stream order, and otherwise the first chunk that does not pass decides
    the error. */
module ChunkProperties {
  import opened Wrappers
  import opened Bytes
  import opened PngText
  import opened Chunks
  import TextDecoders
  import Crc32

  predicate Succeeds(o: Outcome) {
    o.Stopped? && o.result.Success?
  }

  /** The error a chunk that does not pass stops the parse with. */
  function RejectionOf(c: Chunk, codec: Codec): Error
    requires !Passes(c, codec)
  {
    match DecodeChunk(c.chunkType, c.payload, codec)
    case Failure(e) => e
    case Success(_) => CrcMismatch
  }

  lemma TextChunksCons(c: Chunk, rest: seq<Chunk>)
    ensures TextChunks([c] + rest) == (if IsTextual(c.chunkType) then [c] else []) + TextChunks(rest)
  {
    assert ([c] + rest)[1..] == rest;
  }

  lemma {:induction false} DecodesToPrepend(
    c: Chunk, rest: seq<Chunk>, records: seq<TextualData>, more: seq<TextualData>, codec: Codec)
    requires DecodeChunk(c.chunkType, c.payload, codec) == Success(records)
    requires DecodesTo(rest, more, codec)
    ensures DecodesTo([c] + rest, records + more, codec)
  {
    TextChunksCons(c, rest);
    if IsTextual(c.chunkType) {
      DecodesToPrependText(c, rest, records[0], more, codec);
      assert records == [records[0]];
    } else {
      assert records + more == more;
    }
  }

  lemma {:induction false} DecodesToPrependText(
    c: Chunk, rest: seq<Chunk>, d: TextualData, more: seq<TextualData>, codec: Codec)
    requires TextChunks([c] + rest) == [c] + TextChunks(rest)
    requires DecodeChunk(c.chunkType, c.payload, codec) == Success([d])
    requires DecodesTo(rest, more, codec)
    ensures DecodesTo([c] + rest, [d] + more, codec)
  {
    var texts := TextChunks([c] + rest);
    var tail := TextChunks(rest);
    forall j | 0 <= j < |texts|
      ensures DecodeChunk(texts[j].chunkType, texts[j].payload, codec) == Success([([d] + more)[j]])
    {
      if j > 0 {
        assert texts[j] == tail[j - 1];
        assert ([d] + more)[j] == more[j - 1];
      }
    }
  }

  lemma PrefixCons<T>(s: seq<T>, n: nat)
    requires 0 < |s| && n < |s|
    ensures s[..n + 1] == [s[0]] + s[1..][..n]
  {
  }

  /** Interpreting a non-empty sequence whose first chunk passes and is not
      IEND continues with the rest. */
  lemma InterpretStep(chunks: seq<Chunk>, codec: Codec)
    requires |chunks| > 0 && Passes(chunks[0], codec) && chunks[0].chunkType != EndType
    ensures FirstEnd(chunks) == FirstEnd(chunks[1..]) + 1
    ensures forall i :: 1 <= i < |chunks| ==> chunks[i] == chunks[1..][i - 1]
  {
  }

  /** The parse succeeds exactly when the chunks up to and including the
      first IEND all pass. */
  lemma {:induction false} InterpretSucceeds(chunks: seq<Chunk>, codec: Codec)
    ensures Succeeds(Interpret(chunks, codec)) <==>
      && FirstEnd(chunks) < |chunks|
      && forall i :: 0 <= i <= FirstEnd(chunks) ==> Passes(chunks[i], codec)
    decreases |chunks|
  {
    if |chunks| > 0 && Passes(chunks[0], codec) && chunks[0].chunkType != EndType {
      InterpretSucceeds(chunks[1..], codec);
      InterpretStep(chunks, codec);
    }
  }

  lemma DecodesToSingle(chunks: seq<Chunk>, records: seq<TextualData>, codec: Codec)
    requires |chunks| > 0
    requires DecodeChunk(chunks[0].chunkType, chunks[0].payload, codec) == Success(records)
    ensures DecodesTo(chunks[..1], records, codec)
  {
    assert chunks[..1] == [chunks[0]] + [];
    assert DecodesTo([], [], codec);
    DecodesToPrepend(chunks[0], [], records, [], codec);
    assert records + [] == records;
  }

  /** The records of a successful parse decode the textual chunks up to the
      first IEND, one each, in stream order. */
  lemma {:induction false} InterpretRecords(chunks: seq<Chunk>, codec: Codec)
    requires Succeeds(Interpret(chunks, codec))
    ensures FirstEnd(chunks) < |chunks|
    ensures DecodesTo(chunks[..FirstEnd(chunks) + 1], Interpret(chunks, codec).result.value, codec)
    decreases |chunks|
  {
    InterpretSucceeds(chunks, codec);
    var c := chunks[0];
    var rest := chunks[1..];
    var records := DecodeChunk(c.chunkType, c.payload, codec).value;
    if c.chunkType == EndType {
      DecodesToSingle(chunks, records, codec);
    } else {
      InterpretStep(chunks, codec);
      var o := Interpret(rest, codec);
      InterpretRecords(rest, codec);
      PrefixCons(chunks, FirstEnd(rest) + 1);
      DecodesToPrepend(c, rest[..FirstEnd(rest) + 1], records, o.result.value, codec);
    }
  }

  /** The parse runs out of chunks without stopping exactly when none is IEND
      and all pass; the records so far decode the textual ones. */
  lemma {:induction false} InterpretOpen(chunks: seq<Chunk>, codec: Codec)
    ensures Interpret(chunks, codec).Open? <==>
      && FirstEnd(chunks) == |chunks|
      && forall i :: 0 <= i < |chunks| ==> Passes(chunks[i], codec)
    ensures Interpret(chunks, codec).Open? ==>
      DecodesTo(chunks, Interpret(chunks, codec).records, codec)
    decreases |chunks|
  {
    if |chunks| == 0 {
      assert DecodesTo(chunks, [], codec);
    } else {
      var c := chunks[0];
      var rest := chunks[1..];
      if Passes(c, codec) && c.chunkType != EndType {
        var records := DecodeChunk(c.chunkType, c.payload, codec).value;
        InterpretOpen(rest, codec);
        InterpretStep(chunks, codec);
        var o := Interpret(rest, codec);
        if o.Open? {
          assert chunks == [c] + rest;
          DecodesToPrepend(c, rest, records, o.records, codec);
        }
      }
    }
  }

  /** Chunk `k` is the first that does not pass, and it comes at or before
      the first IEND. */
  predicate FirstRejected(chunks: seq<Chunk>, k: int, codec: Codec) {
    && 0 <= k <= FirstEnd(chunks) && k < |chunks|
    && (forall i :: 0 <= i < k ==> Passes(chunks[i], codec))
    && !Passes(chunks[k], codec)
  }

  /** A first rejected chunk after a passing chunk that is not IEND. */
  lemma FirstRejectedCons(chunks: seq<Chunk>, k: int, codec: Codec)
    requires |chunks| > 0 && Passes(chunks[0], codec) && chunks[0].chunkType != EndType
    requires FirstRejected(chunks[1..], k, codec)
    ensures FirstRejected(chunks, k + 1, codec) && chunks[k + 1] == chunks[1..][k]
  {
    InterpretStep(chunks, codec);
  }

  /** A failed parse fails with the rejection of the first chunk, at or
      before the first IEND, that does not pass. */
  lemma {:induction false} InterpretFails(chunks: seq<Chunk>, codec: Codec)
    ensures Interpret(chunks, codec).Stopped? && Interpret(chunks, codec).result.Failure? ==>
      exists k :: FirstRejected(chunks, k, codec)
        && Interpret(chunks, codec).result.error == RejectionOf(chunks[k], codec)
    decreases |chunks|
  {
    if |chunks| > 0 {
      var c := chunks[0];
      var rest := chunks[1..];
      if Passes(c, codec) && c.chunkType != EndType {
        InterpretFails(rest, codec);
        var o := Interpret(rest, codec);
        if o.Stopped? && o.result.Failure? {
          var k :| FirstRejected(rest, k, codec) && o.result.error == RejectionOf(rest[k], codec);
          FirstRejectedCons(chunks, k, codec);
        }
      } else if !Passes(c, codec) {
        assert FirstRejected(chunks, 0, codec);
      }
    }
  }

  /** A sequence whose first rejected chunk is `k` fails with that chunk's
      rejection. */
  lemma InterpretRejects(chunks: seq<Chunk>, k: int, codec: Codec)
    requires FirstRejected(chunks, k, codec)
    ensures Interpret(chunks, codec) == Stopped(Failure(RejectionOf(chunks[k], codec)))
  {
    InterpretSucceeds(chunks, codec);
    InterpretOpen(chunks, codec);
    InterpretFails(chunks, codec);
    var j :| FirstRejected(chunks, j, codec)
      && Interpret(chunks, codec).result.error == RejectionOf(chunks[j], codec);
    assert !(j < k) && !(k < j);
  }

  /** With CRC-32, a chunk whose stored CRC matches no longer matches once
      any one byte of its payload is changed, so it no longer passes. */
  lemma ChangedByteFails(c: Chunk, i: nat, y: byte, inflate: TextDecoders.Inflate)
    requires i < |c.payload| && c.payload[i] != y && CrcOk(c, PngCodec(inflate))
    ensures !CrcOk(Chunk(c.chunkType, c.payload[i := y], c.crc), PngCodec(inflate))
    ensures !Passes(Chunk(c.chunkType, c.payload[i := y], c.crc), PngCodec(inflate))
  {
    var a, t := c.chunkType + c.payload[..i], c.payload[i + 1..];
    assert c.chunkType + c.payload == a + [c.payload[i]] + t;
    assert c.chunkType + c.payload[i := y] == a + [y] + t;
    Crc32.SumDetectsChange(a, c.payload[i], y, t);
  }
}
