/** Concrete streams: the smallest PNG stream the parser accepts, with any
    bytes after it, and a stream that fails on its zTXt compression method. */
module StreamExamples {
  import opened Wrappers
  import opened Bytes
  import opened PngText
  import opened TextDecoders
  import opened Chunks
  import opened ChunkParser
  import opened ChunkProperties
  import opened ParserProperties
  import opened TextDecoderProperties
  import Crc32

  /** The IEND chunk every PNG stream ends with: empty payload, stored CRC
      0xAE426082. */
  const EndChunk: Chunk := Chunk(EndType, [], [0xAE, 0x42, 0x60, 0x82])

  /** The stored CRC of the IEND chunk is the CRC-32 of its type. */
  lemma EndChunkCrc()
    ensures Crc32.Sum(EndType) == EndChunk.crc
  {
    Crc32.EndChunkChecksum();
    assert Crc32.Checksum(EndType) as int == 0xAE42_6082;
    DigitsOfUint32(0xAE, 0x42, 0x60, 0x82);
    assert Uint32Bytes(0xAE42_6082) == EndChunk.crc;
  }

  /** The IEND chunk passes with the png.go decoders and CRC-32, and is the
      only chunk read. */
  lemma EndChunkAccepted(inflate: Inflate)
    ensures Interpret([EndChunk], PngCodec(inflate)) == Stopped(Success([]))
  {
    var codec := PngCodec(inflate);
    assert !IsTextual(EndType);
    assert DecodeChunk(EndType, [], codec) == Success([]);
    assert CrcOk(EndChunk, codec) by {
      assert EndChunk.chunkType + EndChunk.payload == EndType;
      EndChunkCrc();
    }
  }

  /** The twelve bytes of the IEND chunk. */
  lemma EndChunkEncoding()
    ensures AllWellFramed([EndChunk])
    ensures EncodeChunks([EndChunk]) == [0, 0, 0, 0, 0x49, 0x45, 0x4E, 0x44, 0xAE, 0x42, 0x60, 0x82]
  {
    var e := EncodeChunk(EndChunk);
    assert Uint32Bytes(0) == [0, 0, 0, 0];
    assert e == [0, 0, 0, 0, 0x49, 0x45, 0x4E, 0x44, 0xAE, 0x42, 0x60, 0x82];
    assert EncodeChunks([EndChunk]) == e + EncodeChunks([]);
  }

  /** The signature followed by a lone IEND chunk parses to no records,
      whatever bytes follow it. */
  lemma EmptyStream(trailing: seq<byte>, inflate: Inflate)
    ensures ParseTextualData(Signature + [0, 0, 0, 0, 0x49, 0x45, 0x4E, 0x44, 0xAE, 0x42, 0x60, 0x82] + trailing, inflate)
      == Success([])
  {
    EndChunkAccepted(inflate);
    EndChunkEncoding();
    EncodedStream([EndChunk], trailing, PngCodec(inflate));
  }

  /** A stream whose first chunk that does not pass is a zTXt chunk with a
      compression method other than 0 fails with UnsupportedCompressionType:
      the decoder's error reaches the caller unchanged, and no records are
      returned. */
  lemma UnsupportedCompressionStream(
    chunks: seq<Chunk>, trailing: seq<byte>, k: nat, inflate: Inflate,
    keyword: seq<byte>, compressionMethod: byte, compressed: seq<byte>)
    requires AllWellFramed(chunks) && k < |chunks|
    requires forall i :: 0 <= i < k ==> Passes(chunks[i], PngCodec(inflate)) && chunks[i].chunkType != EndType
    requires chunks[k].chunkType == CompressedTextType && 0 !in keyword && compressionMethod != 0
    requires chunks[k].payload == EncodeCompressedText(keyword, compressionMethod, compressed)
    ensures ParseTextualData(Signature + EncodeChunks(chunks) + trailing, inflate) == Failure(UnsupportedCompressionType)
  {
    var codec := PngCodec(inflate);
    CompressedTextRoundTrip(keyword, compressionMethod, compressed, inflate);
    assert IsTextual(CompressedTextType);
    assert DecodeChunk(chunks[k].chunkType, chunks[k].payload, codec) == Failure(UnsupportedCompressionType);
    RejectedStream(chunks, trailing, k, codec);
  }
}
