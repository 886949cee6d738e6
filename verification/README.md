# go-pngtext in Dafny

A model of the core of `go-pngtext`, a Go package that reads the textual
metadata of a PNG stream. The package checks the eight-byte PNG signature,
walks the chunks (length, type, payload, CRC), and checks each chunk's CRC-32
over its type and payload. It decodes the three textual chunk kinds, `tEXt`,
`zTXt` and `iTXt`, into `TextualData` records, and stops after the `IEND`
chunk. It returns the records in stream order, or a single error and no
records. The result list can be searched by keyword and sorted by keyword.

The model works on a byte sequence and a cursor instead of a reader:

- `wrappers.dfy`: `Option` and `Result`.
- `textual_data.dfy` (`PngText`): the record and the error kinds.
- `bytes.dfy` (`Bytes`): bytes, big-endian 32-bit integers, and the two
  readers the decoders use. `ReadString` is bufio's `ReadString(0)`;
  `ReadField` is `ReadString(0)` followed by `trimTailingNull`.
- `crc32.dfy` (`Crc32`): CRC-32 as section 5.5 of the W3C PNG Specification
  (Second Edition) defines it, computed bit by bit.
- `text_decoders.dfy` (`TextDecoders`): the three payload decoders and the
  payload layouts they read.
- `text_decoder_properties.dfy` (`TextDecoderProperties`): round trips and
  error cases of the decoders.
- `textual_data_list.dfy` (`TextualDataList`): `Find`, `Less` and `Swap`.
- `chunks.dfy` (`Chunks`): chunks as values, their encoding, and
  `Interpret`. `Interpret` is a chunk-level reference definition of what a
  chunk sequence amounts to.
- `chunk_properties.dfy` (`ChunkProperties`): what `Interpret` accepts and
  rejects, and that CRC-32 rejects a chunk with one payload byte changed.
- `chunk_parser.dfy` (`ChunkParser`): the byte-level parser, `ParseStream`
  and `ParseTextualData`.
- `chunk_layout.dfy` (`ChunkLayout`): where encoded chunks sit in a byte
  sequence.
- `parser_properties.dfy` (`ParserProperties`): bytes laid out from chunks
  parse to what `Interpret` says.
- `parser_converse.dfy` (`ParserConverse`): every successful parse read such
  a layout.
- `parser_truncation.dfy` (`ParserTruncation`): input cut short; a
  successful parse needs every byte up to the end of its IEND chunk.
- `stream_examples.dfy` (`StreamExamples`): the smallest accepted stream,
  and a stream rejected for its zTXt compression method.

Two things are parameters rather than definitions:

- The parser is generic over a `Codec`, which pairs the chunk decoder with
  the checksum. `ParseTextualData` fixes the codec of `png.go`: the three
  decoders and `Crc32.Sum`.
- zlib decompression is the parameter `inflate: seq<byte> -> Option<seq<byte>>`.
  It yields `None` for a stream that does not decompress.

In three places the code differs from what a reader of the PNG specification
might expect; the model follows the code:

- **`tEXt` text.** The text is read with `ReadString(0)`. It therefore ends at
  the first null after the keyword, keeps that null, and drops the bytes after
  it. It is not the rest of the payload taken verbatim.
- **Missing `tEXt` keyword null.** `parseTextData` returns the bare `io.EOF`
  of `ReadString`, not a wrapped decode error. Both are modelled as
  `DecodeFailure(Keyword)`.
- **`iTXt` compression flag.** Every flag other than 1, including 2 to 255,
  means uncompressed. The method byte is then read but not checked.

## Model

| member | source | states |
|---|---|---|
| ChunkParser.ParseStream | png.go:97-104 | Fewer than eight bytes is a read error, not `NotPngData`; eight bytes other than the PNG signature are `NotPngData`; any success starts with the signature |
| ChunkParser.ParseTextualData | png.go:97-104 | The parser with the png.go decoders and CRC-32: fewer than eight bytes is a read error, eight bytes other than the signature are `NotPngData`, and a success starts with the signature |
| ChunkParser.ReadFrame | png.go:108-119 | A frame is read from the big-endian length and the four type bytes; its payload is the declared number of bytes after them, cut short by the end of the input as a limited reader would |
| ChunkParser.ParseChunks | png.go:106-160 | A successful chunk loop ends after at least one length, type and CRC, and inside the input |
| Chunks.DecodeChunk | png.go:120-147 | A chunk that is not tEXt, zTXt or iTXt contributes no record and cannot fail; a textual chunk fails exactly when its decoder fails, with that decoder's error, and otherwise contributes its one record |
| ChunkProperties.InterpretSucceeds | png.go:106-160 | The chunk-level view succeeds exactly when there is an IEND chunk and every chunk up to and including the first IEND decodes and passes its CRC |
| ChunkProperties.InterpretRecords | png.go:106-147 | On success, the records are the decodings of the textual chunks up to the first IEND, one each, in stream order; other chunks contribute nothing |
| ChunkProperties.InterpretOpen | png.go:107-160 | The view runs out of chunks without a verdict exactly when no chunk is IEND and every chunk passes; the records so far decode the textual chunks |
| Chunks.PngTextDecoder | png.go:120-140 | The type switch: tEXt goes to the tEXt decoder, zTXt to the zTXt decoder and iTXt to the iTXt decoder |
| ChunkProperties.InterpretRejects | png.go:120-154 | Chunks whose first non-passing chunk is at or before the first IEND stop with that chunk's rejection |
| ChunkProperties.ChangedByteFails | png.go:149-154 | With CRC-32, a chunk whose stored CRC matches stops matching, and so stops passing, when any one payload byte changes |
| ChunkProperties.InterpretFails | png.go:120-154 | A failure is the rejection of the first chunk, at or before the first IEND, that does not pass: its decoder error, or a CRC mismatch |
| ParserProperties.ParseEncoded | png.go:106-160 | Chunks encoded one after another parse to what the chunk-level view says: the same error, the same records at IEND, or their records before the parse of the bytes that follow |
| ParserProperties.ParseAtEnd | png.go:108-110 | The loop at the end of the input fails with a read error |
| ParserProperties.RejectedStream | png.go:97-160 | A stream of encoded chunks whose first non-passing chunk comes before any IEND fails with that chunk's decoder error or a CRC mismatch, whatever follows |
| ParserProperties.EncodedStream | png.go:97-160 | For the signature followed by encoded chunks, the parser returns exactly the chunk-level verdict, whatever bytes follow the IEND chunk; chunks that run out before IEND are a read error |
| ParserConverse.ParsedStep | png.go:107-160 | One step of a successful loop reads a whole frame and either stops at IEND where the loop ends, or goes on to a successful loop that ends at the same place |
| ParserConverse.ParsedReaches | png.go:107-160 | A successful loop has read whole frames up to an IEND frame, and its CRC ends where the loop ended |
| ParserConverse.ReachedLayout | png.go:108-159 | Whole frames read up to IEND are the encodings of chunks whose last chunk is their only IEND |
| ParserConverse.ParsedIsEncoded | png.go:106-160 | A successful loop read encoded chunks ending at their only IEND, and the chunk-level view accepts them with the same records |
| ParserConverse.ParsedStream | png.go:97-160 | A successful parse means the input starts with the signature and the encoding of chunks that end at their only IEND. All of those chunks pass, with the IEND CRC included, and they yield the parser's records. Nothing after them is read |
| ParserTruncation.ShortFrame | png.go:108-152 | Input ending inside the length or type is a read error; input ending inside the payload or CRC fails with the decoder's error on the cut payload, or with a read error when that payload decodes |
| ParserTruncation.PrefixFrame | png.go:108-119 | Cutting the input after a frame's type leaves the frame unchanged when its payload ends by the cut, and otherwise ends the payload at the cut |
| ParserTruncation.TruncatedLoop | png.go:106-160 | A successful chunk loop fails on the input cut anywhere between its start and its end |
| ParserTruncation.TruncatedStream | png.go:97-160 | A stream that parses has a prefix, ending after the IEND chunk, that parses the same; every shorter prefix fails |
| StreamExamples.UnsupportedCompressionStream | png.go:128-133 | A stream whose first non-passing chunk is a zTXt chunk with a compression method other than 0 fails with `UnsupportedCompressionType` |
| StreamExamples.EmptyStream | png.go:97-160 | The signature followed by a lone IEND chunk yields no records, whatever bytes follow it |
| StreamExamples.EndChunkAccepted | png.go:149-159 | The IEND chunk with an empty payload passes with the png.go decoders and CRC-32, and ends the parse with no records |
| StreamExamples.EndChunkCrc | png.go:149-154 | The stored CRC of an empty IEND chunk, AE 42 60 82, is the big-endian CRC-32 of its type |
| StreamExamples.EndChunkEncoding | png.go:108-119 | The empty IEND chunk is twelve bytes: a zero length, its type and its CRC |
| ChunkLayout.ChunkFields | png.go:108-119 | In an encoded chunk, the big-endian length field holds the payload length, followed by the type, the payload and the CRC |
| ChunkLayout.FrameAt | png.go:108-119 | Reading a frame at an encoded chunk yields that chunk's type and payload, and the stored CRC lies right after the payload |
| ChunkLayout.FrameIsChunk | png.go:108-154 | A complete frame is the encoding of the chunk it yields, with the bytes after the payload as its stored CRC |
| ChunkLayout.LayoutIsEncodedAt | png.go:107-119 | The encoding of a chunk sequence, found at a position, is those chunks laid out one after another from there |
| ChunkLayout.EncodedAtIsLayout | png.go:107-119 | Chunks laid out one after another are the encoding of the chunk sequence |
| Crc32.Sum | png.go:149-154 | The stored CRC is four bytes whose big-endian value is the CRC-32 of the bytes hashed |
| Crc32.UpdateConcat | png.go:113-119 | Hashing the type and then the payload into one running CRC is the CRC of their concatenation |
| Crc32.Checksum | png.go:113 | The CRC-32 of no bytes is 0 |
| Crc32.ShiftBitInjective | png.go:113 | One shift of the CRC register loses no information |
| Crc32.ByteBitsInjective | png.go:113-119 | Different bytes enter the register as different values |
| Crc32.UpdateByteInjective | png.go:113-119 | Folding in a byte gives the same register exactly when register xor byte is the same |
| Crc32.UpdateInjective | png.go:113-119 | Two different registers stay different whatever bytes are hashed next |
| Crc32.ChecksumDetectsChange | png.go:113-119 | Changing any single byte changes the CRC-32 |
| Crc32.SumDetectsChange | png.go:149-154 | Changing any single byte changes the four stored CRC bytes |
| Crc32.CheckValue | png.go:113 | The IEEE CRC-32 of ASCII "123456789" is CBF43926, the standard check value of this polynomial |
| Crc32.EndChunkChecksum | png.go:149-154 | The CRC-32 of the type IEND is AE426082 |
| Bytes.Uint32BytesRoundTrip | png.go:111 | Decoding the four big-endian bytes of a 32-bit length gives the length back |
| Bytes.Uint32RoundTrip | png.go:111 | Any four bytes are the big-endian encoding of the integer they decode to |
| Bytes.ReadString | png.go:177-180 | `ReadString(0)` splits the input into a line and the rest. The line ends with the first null when there is one and is then called delimited; otherwise it is the whole input |
| Bytes.ReadField | png.go:163-171 | A null-terminated field exists exactly when the input holds a null. It is the bytes before the first null, which contain no null, and the input is field, null, rest |
| Bytes.ReadFieldIsTrimmedLine | png.go:163-171 | `ReadField` is `ReadString(0)` with exactly one trailing null trimmed, and fails where `ReadString` finds no delimiter |
| Bytes.ReadFieldOfTerminated | png.go:163-165 | A null-free field followed by a null reads back as that field and the rest |
| TextDecoders.DecodeText | png.go:167-186 | tEXt fails exactly when the payload has no null. The keyword is the bytes before the first null. The text follows it up to and including the next null, or to the end of the payload |
| TextDecoders.DecodeCompressedText | png.go:188-215 | zTXt without a keyword null fails on the keyword. A payload that ends at that null fails on the method. A method byte other than 0 is `UnsupportedCompressionType`. With method 0, a body that does not inflate is a value failure, and one that does gives the record: the keyword and the inflated text |
| TextDecoders.DecodeInternationalText | png.go:217-264 | iTXt without a keyword null fails on the keyword; a decoded keyword, language tag and translated keyword hold no null |
| TextDecoders.ReadLabels | png.go:236-244 | The language tag and the translated keyword are read as two null-terminated fields. Reading succeeds exactly when both nulls are present; without the first it fails on the language tag, and without the second on the translated keyword |
| TextDecoderProperties.TextRoundTrip | png.go:167-186 | A null-free keyword and text laid out as tEXt decode back to themselves |
| TextDecoderProperties.TextStopsAtNull | png.go:177-185 | tEXt text keeps the first null after the keyword and drops what follows it |
| TextDecoderProperties.CompressedTextRoundTrip | png.go:188-215 | A zTXt layout decodes to its keyword and the inflation of its body. A method other than 0 is `UnsupportedCompressionType`, and a body that does not inflate is a value failure |
| TextDecoderProperties.CompressedTextWithoutMethod | png.go:194-196 | A zTXt payload that ends after its keyword fails on the compression method |
| TextDecoderProperties.InternationalTextLayout | png.go:217-264 | A decoded iTXt payload is the layout of its fields; with flag 1 the method is 0 and the text is the inflation of the body; with any other flag the text is the body |
| TextDecoderProperties.InternationalStepsFail | png.go:223-256 | After the keyword and both header bytes: flag 1 with method other than 0, missing labels, or a body that does not inflate each yield their error |
| TextDecoderProperties.InternationalStepsSucceed | png.go:246-263 | Once the labels are read, an uncompressed text is the body and a compressed one is its inflation |
| TextDecoderProperties.LabelsRoundTrip | png.go:236-244 | Null-free labels laid out with their nulls read back with the body |
| TextDecoderProperties.InternationalHeader | png.go:218-234 | The keyword of an iTXt layout reads back, followed by the flag, the method and the labels |
| TextDecoderProperties.InternationalTextRoundTrip | png.go:217-264 | An iTXt layout decodes to its fields. With flag 1 the text is the inflation of the body, or the decode fails on the method or the inflation. With any other flag the text is the body verbatim, and the method is not checked |
| TextDecoderProperties.InternationalTextErrors | png.go:218-239 | A payload that ends after the keyword fails on the flag, and one that ends after the flag fails on the method. Flag 1 with a nonzero method fails as unsupported before the labels are read. Without a language-tag null it fails on the language tag |
| TextDecoderProperties.InternationalTextWithoutTranslatedKeyword | png.go:241-244 | A language tag without a following translated-keyword null fails on the translated keyword |
| TextualDataList.Find | png.go:70-78 | None exactly when no record has the keyword; otherwise the first record with that keyword |
| TextualDataList.Compare | png.go:87-89 | Go's `strings.Compare`: 0 exactly for equal keywords, negative exactly when the first sorts byte-wise before the second |
| TextualDataList.Less | png.go:85-89 | `Less(i, j)` holds exactly when keyword i is byte-wise lexicographically smaller than keyword j |
| TextualDataList.LexLessTail | png.go:87-89 | Two keywords with the same first byte compare like their tails |
| TextualDataList.LexLessIrreflexive | png.go:87-89 | No keyword sorts before itself |
| TextualDataList.LexLessAsymmetric | png.go:87-89 | Two keywords never sort before each other |
| TextualDataList.LexLessTransitive | png.go:87-89 | The keyword order is transitive |
| TextualDataList.LexLessTotal | png.go:87-89 | Two different keywords always sort one way or the other |
| TextualDataList.Swap | png.go:91-94 | Positions i and j are exchanged, nothing else changes, and the records are a permutation of the input |
| TextualDataList.SwapTwice | png.go:91-94 | Swapping the same two positions twice restores the list |

## Left out

- ChunkParser.ParseChunks: its own contract states only where a successful loop ends. What the loop returns on input made of whole encoded chunks is stated against the chunk-level view by ParserProperties.ParseEncoded, and a successful loop is described by ParserConverse.ParsedIsEncoded. Input that ends inside a frame is covered by ParserTruncation.ShortFrame and ParserTruncation.TruncatedLoop.
- Crc32.Checksum: its own contract states only the empty input. The checksum is fixed by Crc32.CheckValue and Crc32.EndChunkChecksum, and Crc32.ChecksumDetectsChange states that it detects every single-byte change.
- TextDecoders.DecodeInternationalText: its own contract states only the keyword failure and that the decoded labels hold no null. The full behaviour is stated by TextDecoderProperties.InternationalTextLayout, InternationalTextRoundTrip, InternationalTextErrors and InternationalTextWithoutTranslatedKeyword.
- zlib decompression (png.go:201-209, png.go:248-253) is the parameter `inflate`. Inflation is not modelled, so a round trip through a compressor is not stated.
- The table-driven `hash/crc32` implementation and Go's `hash.Hash` interface are left out. The CRC is defined bit by bit and fixed by its check value.
- Reader plumbing (`io.ReadFull`, `TeeReader`, `LimitReader`, `bufio.Reader`, `io.Copy`) is replaced by a byte sequence and a cursor. A chunk's whole payload, cut short only by the end of the stream, goes to the decoder and into the CRC.
- The effects of bufio's 4096-byte buffer are not modelled. In Go, a decoder that stops early, such as tEXt at its second null, can leave payload bytes unread. For a payload larger than the buffer, those bytes would then be read as the CRC.
- I/O errors other than running out of input are left out: the input is a byte sequence.
- Error message text and `fmt.Errorf` wrapping are left out. Errors are a datatype of kinds. `io.EOF` and `io.ErrUnexpectedEOF` are both `ReadError`, or a `DecodeFailure` naming the field when they arise inside a payload.
- The second error check at png.go:173-175 can never fire, so it has no counterpart.
- `Len` (png.go:80-83) is the sequence length `|list|`.
- Go strings are byte sequences; no UTF-8 validation happens, so none is modelled.
- The list holds `*TextualData` pointers. `Find` returns the record itself, and `Swap` returns a new sequence instead of exchanging in place.
- Go panics on out-of-range indices. `Less` and `Swap` therefore require their indices to be in range.
- Opening files (`test.png`, `LICENSE`) in png_test.go is I/O and is left out.
