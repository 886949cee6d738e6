/** The chunk-level view of a PNG stream (sections 5.2 and 5.3 of the W3C PNG
    Specification, Second Edition): the signature, chunks of type, payload and
    stored CRC, how each chunk is laid out in bytes, and what the extractor
    makes of a sequence of chunks. */
module Chunks {
  import opened Wrappers
  import opened Bytes
  import opened PngText
  import opened TextDecoders
  import Crc32

  /** "\x89PNG\r\n\x1a\n" */
  const Signature: seq<byte> := [0x89, 0x50, 0x4E, 0x47, 0x0D, 0x0A, 0x1A, 0x0A]

  /** "tEXt" */
  const TextType: seq<byte> := [0x74, 0x45, 0x58, 0x74]
  /** "zTXt" */
  const CompressedTextType: seq<byte> := [0x7A, 0x54, 0x58, 0x74]
  /** "iTXt" */
  const InternationalTextType: seq<byte> := [0x69, 0x54, 0x58, 0x74]
  /** "IEND" */
  const EndType: seq<byte> := [0x49, 0x45, 0x4E, 0x44]

  predicate IsTextual(chunkType: seq<byte>) {
    chunkType == TextType || chunkType == CompressedTextType || chunkType == InternationalTextType
  }

  /** Decodes the payload of a chunk of one of the three textual types. */
  type TextDecoder = (seq<byte>, seq<byte>) -> Result<TextualData, Error>

  /** What the chunk loop delegates: decoding a textual payload, and the
      checksum a chunk must store for its type and payload. The loop and its
      properties are stated for any codec; ParseTextualData fixes it to
      PngCodec. */
  datatype Codec = Codec(decode: TextDecoder, checksum: seq<byte> -> seq<byte>)

  /** The decoders of png.go behind the type switch; only ever applied to a
      textual type, so the last branch is iTXt. */
  function PngTextDecoder(inflate: Inflate): (d: TextDecoder)
    ensures forall payload :: d(TextType, payload) == DecodeText(payload)
    ensures forall payload :: d(CompressedTextType, payload) == DecodeCompressedText(payload, inflate)
    ensures forall payload :: d(InternationalTextType, payload) == DecodeInternationalText(payload, inflate)
  {
    (chunkType: seq<byte>, payload: seq<byte>) =>
      if chunkType == TextType then DecodeText(payload)
      else if chunkType == CompressedTextType then DecodeCompressedText(payload, inflate)
      else DecodeInternationalText(payload, inflate)
  }

  /** The png.go decoders, and the big-endian CRC-32 of type and payload; the
      length field is not covered. */
  function PngCodec(inflate: Inflate): Codec {
    Codec(PngTextDecoder(inflate), Crc32.Sum)
  }

  /** The dispatch on the type tag: a textual chunk decodes to one record,
      every other chunk is read and discarded and contributes none. */
  function DecodeChunk(chunkType: seq<byte>, payload: seq<byte>, codec: Codec)
    : (r: Result<seq<TextualData>, Error>)
    ensures !IsTextual(chunkType) ==> r == Success([])
    ensures IsTextual(chunkType) ==> r.Success? == codec.decode(chunkType, payload).Success?
    ensures r.Success? && IsTextual(chunkType) ==> r.value == [codec.decode(chunkType, payload).value]
    ensures r.Failure? ==> IsTextual(chunkType) && r.error == codec.decode(chunkType, payload).error
  {
    if !IsTextual(chunkType) then Success([])
    else match codec.decode(chunkType, payload)
      case Failure(e) => Failure(e)
      case Success(d) => Success([d])
  }

  /** One chunk as it appears in the stream. */
  datatype Chunk = Chunk(chunkType: seq<byte>, payload: seq<byte>, crc: seq<byte>)

  /** A chunk that has a byte layout: a four-byte type, a payload whose length
      fits the 32-bit length field, and a four-byte CRC. */
  predicate WellFramed(c: Chunk) {
    |c.chunkType| == 4 && |c.payload| < Uint32Limit && |c.crc| == 4
  }

  predicate AllWellFramed(chunks: seq<Chunk>) {
    forall i :: 0 <= i < |chunks| ==> WellFramed(chunks[i])
  }

  /** The stored CRC is the checksum of the type and the payload. */
  predicate CrcOk(c: Chunk, codec: Codec) {
    c.crc == codec.checksum(c.chunkType + c.payload)
  }

  /** A chunk with the CRC an encoder would store. */
  function MakeChunk(chunkType: seq<byte>, payload: seq<byte>, codec: Codec): Chunk {
    Chunk(chunkType, payload, codec.checksum(chunkType + payload))
  }

  /** Length (big-endian), type, payload, CRC. */
  function EncodeChunk(c: Chunk): (r: seq<byte>)
    requires WellFramed(c)
    ensures |r| == |c.payload| + 12
  {
    Uint32Bytes(|c.payload|) + c.chunkType + c.payload + c.crc
  }

  function EncodeChunks(chunks: seq<Chunk>): seq<byte>
    requires AllWellFramed(chunks)
  {
    if |chunks| == 0 then [] else EncodeChunk(chunks[0]) + EncodeChunks(chunks[1..])
  }

  /** What a chunk sequence amounts to: the parse has either stopped, with a
      result, or it has read every chunk without reaching IEND and would go
      on reading, holding the records decoded so far. */
  datatype Outcome =
    | Stopped(result: Result<seq<TextualData>, Error>)
    | Open(records: seq<TextualData>)

  /** Chunk by chunk: decode the payload (a decoder failure ends the parse),
      then check the CRC, then stop at IEND. */
  function Interpret(chunks: seq<Chunk>, codec: Codec): Outcome
  {
    if |chunks| == 0 then Open([])
    else
      var c := chunks[0];
      match DecodeChunk(c.chunkType, c.payload, codec)
      case Failure(e) => Stopped(Failure(e))
      case Success(records) =>
        if !CrcOk(c, codec) then Stopped(Failure(CrcMismatch))
        else if c.chunkType == EndType then Stopped(Success(records))
        else Continue(records, Interpret(chunks[1..], codec))
  }

  /** The records of a chunk in front of what the chunks after it amount to. */
  function Continue(records: seq<TextualData>, o: Outcome): Outcome {
    match o
    case Stopped(Failure(e)) => Stopped(Failure(e))
    case Stopped(Success(more)) => Stopped(Success(records + more))
    case Open(more) => Open(records + more)
  }

  /** Index of the first IEND chunk, or |chunks| when there is none. */
  function FirstEnd(chunks: seq<Chunk>): (k: nat)
    ensures k <= |chunks|
    ensures k < |chunks| ==> chunks[k].chunkType == EndType
    ensures forall i :: 0 <= i < k ==> chunks[i].chunkType != EndType
  {
    if |chunks| == 0 then 0
    else if chunks[0].chunkType == EndType then 0
    else 1 + FirstEnd(chunks[1..])
  }

  /** The tEXt, zTXt and iTXt chunks, in stream order. */
  function TextChunks(chunks: seq<Chunk>): seq<Chunk> {
    if |chunks| == 0 then []
    else (if IsTextual(chunks[0].chunkType) then [chunks[0]] else []) + TextChunks(chunks[1..])
  }

  /** A chunk is accepted when its payload decodes and its CRC matches. */
  predicate Passes(c: Chunk, codec: Codec) {
    DecodeChunk(c.chunkType, c.payload, codec).Success? && CrcOk(c, codec)
  }

  /** `records` are the decodings of the textual chunks of `chunks`, one each,
      in order. */
  predicate DecodesTo(chunks: seq<Chunk>, records: seq<TextualData>, codec: Codec) {
    var texts := TextChunks(chunks);
    && |records| == |texts|
    && forall j :: 0 <= j < |texts| ==>
         DecodeChunk(texts[j].chunkType, texts[j].payload, codec) == Success([records[j]])
  }
}
