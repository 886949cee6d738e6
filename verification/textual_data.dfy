/** The record one textual chunk decodes to, and the kinds of failure a parse
    can end with. Keywords and text are raw bytes: the decoders do no UTF-8
    validation. */
module PngText {
  import opened Bytes

  /** One decoded tEXt, zTXt or iTXt chunk. Only iTXt fills the language tag
      and the translated keyword. */
  datatype TextualData = TextualData(
    keyword: seq<byte>,
    text: seq<byte>,
    languageTag: seq<byte>,
    translatedKeyword: seq<byte>)

  /** The field of a textual payload whose read failed. */
  datatype PayloadField =
    | Keyword
    | CompressionFlag
    | CompressionMethod
    | LanguageTag
    | TranslatedKeyword
    | Value

  datatype Error =
    /** The stream ended inside the signature or a chunk's length, type or CRC. */
    | ReadError
    /** The first eight bytes are not the PNG signature. */
    | NotPngData
    /** A chunk's stored CRC differs from the CRC-32 of its type and payload. */
    | CrcMismatch
    /** A compressed text declares a compression method other than 0. */
    | UnsupportedCompressionType
    /** A field of a textual payload is missing or, for Value, does not inflate. */
    | DecodeFailure(field: PayloadField)
}
