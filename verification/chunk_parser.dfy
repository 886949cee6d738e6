/** The streaming parser over the bytes of a PNG stream: the signature check
    and the chunk loop of png.go, with the reader replaced by the byte sequence
    and a cursor. */
module ChunkParser {
  import opened Wrappers
  import opened Bytes
  import opened PngText
  import opened TextDecoders
  import opened Chunks
  import Crc32

  const LengthSize: nat := 4
  const TypeSize: nat := 4
  const CrcSize: nat := 4

  /** The records read from the chunks starting at some position, and the
      position just after the IEND chunk's CRC. */
  datatype Parsed = Parsed(records: seq<TextualData>, end: nat)

  function Min(a: nat, b: nat): nat {
    if a <= b then a else b
  }

  /** The records of a chunk in front of the parse of the chunks after it. */
  function Prepend(records: seq<TextualData>, r: Result<Parsed, Error>): Result<Parsed, Error> {
    match r
    case Failure(e) => Failure(e)
    case Success(rest) => Success(Parsed(records + rest.records, rest.end))
  }

  /** A chunk's type and payload as the reader yields them, and where its
      stored CRC would start. */
  datatype Frame = Frame(chunkType: seq<byte>, payload: seq<byte>, payloadEnd: nat)

  /** Reads the length and the type at `pos`, then the payload through a
      reader limited to the declared length: the declared number of bytes, or
      fewer if the stream ends first. */
  function ReadFrame(data: seq<byte>, pos: nat): (f: Frame)
    requires pos + LengthSize + TypeSize <= |data|
    ensures pos + LengthSize + TypeSize <= f.payloadEnd <= |data|
    ensures |f.chunkType| == TypeSize
    ensures f.chunkType == data[pos + LengthSize..pos + LengthSize + TypeSize]
    ensures f.payloadEnd == Min(pos + LengthSize + TypeSize + Uint32(data[pos..pos + LengthSize]), |data|)
    ensures f.payload == data[pos + LengthSize + TypeSize..f.payloadEnd]
  {
    var length := Uint32(data[pos..pos + LengthSize]);
    var payloadStart := pos + LengthSize + TypeSize;
    var payloadEnd := Min(payloadStart + length, |data|);
    Frame(data[pos + LengthSize..payloadStart], data[payloadStart..payloadEnd], payloadEnd)
  }

  /** The chunk loop from `pos`. The length and type must be present. The
      payload is decoded before the CRC is read, and a decoder failure ends
      the parse. Then the stored CRC must be present and equal the CRC-32 of
      type and payload, and the loop stops after IEND. */
  function ParseChunks(data: seq<byte>, pos: nat, codec: Codec): (r: Result<Parsed, Error>)
    requires pos <= |data|
    ensures r.Success? ==> pos + LengthSize + TypeSize + CrcSize <= r.value.end <= |data|
    decreases |data| - pos
  {
    if |data| < pos + LengthSize + TypeSize then Failure(ReadError)
    else
      var frame := ReadFrame(data, pos);
      var crcEnd := frame.payloadEnd + CrcSize;
      match DecodeChunk(frame.chunkType, frame.payload, codec)
      case Failure(e) => Failure(e)
      case Success(records) =>
        if |data| < crcEnd then Failure(ReadError)
        else if data[frame.payloadEnd..crcEnd] != codec.checksum(frame.chunkType + frame.payload) then Failure(CrcMismatch)
        else if frame.chunkType == EndType then Success(Parsed(records, crcEnd))
        else Prepend(records, ParseChunks(data, crcEnd, codec))
  }

  /** Reads the eight signature bytes (too few is a read error), compares
      them with the PNG signature, then runs the chunk loop. Any failure
      discards the records read so far. */
  function ParseStream(data: seq<byte>, codec: Codec): (r: Result<seq<TextualData>, Error>)
    ensures |data| < |Signature| ==> r == Failure(ReadError)
    ensures |data| >= |Signature| && data[..|Signature|] != Signature ==> r == Failure(NotPngData)
    ensures r.Success? ==> Signature <= data
  {
    if |data| < |Signature| then Failure(ReadError)
    else if data[..|Signature|] != Signature then Failure(NotPngData)
    else
      match ParseChunks(data, |Signature|, codec)
      case Failure(e) => Failure(e)
      case Success(parsed) => Success(parsed.records)
  }

  /** ParseTextualData: the stream parser with the png.go decoders and
      CRC-32. */
  function ParseTextualData(data: seq<byte>, inflate: Inflate): (r: Result<seq<TextualData>, Error>)
    ensures |data| < |Signature| ==> r == Failure(ReadError)
    ensures |data| >= |Signature| && data[..|Signature|] != Signature ==> r == Failure(NotPngData)
    ensures r.Success? ==> Signature <= data
  {
    ParseStream(data, PngCodec(inflate))
  }
}
