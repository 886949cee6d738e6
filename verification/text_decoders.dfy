/** The three payload decoders. Each is a pure function of one chunk's payload
    bytes; zlib decompression is the parameter `inflate`, which yields None for
    a stream that does not decompress. */
module TextDecoders {
  import opened Wrappers
  import opened Bytes
  import opened PngText

  type Inflate = seq<byte> -> Option<seq<byte>>

  /** tEXt: a null-terminated keyword, then the text. The text is read with
      ReadString(0), so it ends at the next null (which it keeps) or at the end
      of the payload. */
  function DecodeText(payload: seq<byte>): (r: Result<TextualData, Error>)
    ensures r.Failure? <==> 0 !in payload
    ensures r.Failure? ==> r.error == DecodeFailure(Keyword)
    ensures r.Success? ==>
      var d := r.value;
      && 0 !in d.keyword && d.keyword + [0] <= payload
      && d.languageTag == [] && d.translatedKeyword == []
      && var rest := payload[|d.keyword| + 1..];
      && d.text <= rest
      && (0 !in rest ==> d.text == rest)
      && (0 in rest ==> |d.text| > 0 && d.text[|d.text| - 1] == 0 && 0 !in d.text[..|d.text| - 1])
  {
    match ReadField(payload)
    case None => Failure(DecodeFailure(Keyword))
    case Some(keyword) =>
      assert payload[..|keyword.value| + 1] == keyword.value + [0];
      assert payload[|keyword.value| + 1..] == keyword.rest;
      Success(TextualData(keyword.value, ReadString(keyword.rest).line, [], []))
  }

  /** zTXt: a null-terminated keyword, a compression-method byte that must be
      0, then the zlib stream of the text. */
  function DecodeCompressedText(payload: seq<byte>, inflate: Inflate): (r: Result<TextualData, Error>)
    ensures 0 !in payload ==> r == Failure(DecodeFailure(Keyword))
    ensures r == Failure(UnsupportedCompressionType) <==>
      var i := IndexOfNull(payload);
      i + 1 < |payload| && payload[i + 1] != 0
    ensures r == Failure(DecodeFailure(CompressionMethod)) <==> IndexOfNull(payload) + 1 == |payload|
    ensures r == Failure(DecodeFailure(Value)) <==>
      var i := IndexOfNull(payload);
      i + 1 < |payload| && payload[i + 1] == 0 && inflate(payload[i + 2..]).None?
    ensures r.Success? <==>
      var i := IndexOfNull(payload);
      i + 1 < |payload| && payload[i + 1] == 0 && inflate(payload[i + 2..]).Some?
    ensures r.Success? ==>
      var d := r.value;
      && 0 !in d.keyword && d.keyword + [0, 0] <= payload
      && inflate(payload[|d.keyword| + 2..]) == Some(d.text)
      && d.languageTag == [] && d.translatedKeyword == []
  {
    match ReadField(payload)
    case None => Failure(DecodeFailure(Keyword))
    case Some(keyword) =>
      var rest := keyword.rest;
      assert |keyword.value| == IndexOfNull(payload) by {
        assert payload[|keyword.value|] == 0;
      }
      if |rest| == 0 then Failure(DecodeFailure(CompressionMethod))
      else if rest[0] != 0 then Failure(UnsupportedCompressionType)
      else
        assert payload[..|keyword.value| + 2] == keyword.value + [0, 0];
        assert payload[|keyword.value| + 2..] == rest[1..];
        match inflate(rest[1..])
        case None => Failure(DecodeFailure(Value))
        case Some(text) => Success(TextualData(keyword.value, text, [], []))
  }

  /** The bytes in front of an iTXt text: keyword, null, flag, method,
      language tag, null, translated keyword, null. */
  function HeaderLength(d: TextualData): nat {
    |d.keyword| + |d.languageTag| + |d.translatedKeyword| + 5
  }

  /** iTXt: a null-terminated keyword, a compression flag, a compression
      method, a null-terminated language tag and a null-terminated translated
      keyword, then the text. Only a flag equal to 1 means compressed; the
      method byte is always consumed but only checked when compressed. */
  function DecodeInternationalText(payload: seq<byte>, inflate: Inflate): (r: Result<TextualData, Error>)
    ensures 0 !in payload ==> r == Failure(DecodeFailure(Keyword))
    ensures r.Success? ==> 0 !in r.value.keyword && 0 !in r.value.languageTag && 0 !in r.value.translatedKeyword
  {
    match ReadField(payload)
    case None => Failure(DecodeFailure(Keyword))
    case Some(keyword) =>
      var rest := keyword.rest;
      if |rest| == 0 then Failure(DecodeFailure(CompressionFlag))
      else if |rest| == 1 then Failure(DecodeFailure(CompressionMethod))
      else
        var compressed := rest[0] == 1;
        if compressed && rest[1] != 0 then Failure(UnsupportedCompressionType)
        else match ReadLabels(rest[2..])
          case Failure(e) => Failure(e)
          case Success(labels) =>
            if compressed then
              match inflate(labels.body)
              case None => Failure(DecodeFailure(Value))
              case Some(text) =>
                Success(TextualData(keyword.value, text, labels.languageTag, labels.translatedKeyword))
            else
              Success(TextualData(keyword.value, labels.body, labels.languageTag, labels.translatedKeyword))
  }

  /** The two null-terminated labels of an iTXt payload and the bytes after them. */
  datatype Labels = Labels(languageTag: seq<byte>, translatedKeyword: seq<byte>, body: seq<byte>)

  function ReadLabels(s: seq<byte>): (r: Result<Labels, Error>)
    ensures r.Success? ==>
      && 0 !in r.value.languageTag && 0 !in r.value.translatedKeyword
      && s == r.value.languageTag + [0] + (r.value.translatedKeyword + [0] + r.value.body)
    ensures r.Failure? ==> r.error in {DecodeFailure(LanguageTag), DecodeFailure(TranslatedKeyword)}
    ensures r.Success? <==> ReadField(s).Some? && 0 in ReadField(s).value.rest
    ensures 0 !in s ==> r == Failure(DecodeFailure(LanguageTag))
    ensures ReadField(s).Some? && 0 !in ReadField(s).value.rest ==> r == Failure(DecodeFailure(TranslatedKeyword))
  {
    match ReadField(s)
    case None => Failure(DecodeFailure(LanguageTag))
    case Some(lang) =>
      match ReadField(lang.rest)
      case None => Failure(DecodeFailure(TranslatedKeyword))
      case Some(translated) => Success(Labels(lang.value, translated.value, translated.rest))
  }

  /** The tEXt layout: keyword, null, text. */
  function EncodeText(keyword: seq<byte>, text: seq<byte>): seq<byte> {
    keyword + [0] + text
  }

  /** The zTXt layout: keyword, null, method, compressed text. */
  function EncodeCompressedText(keyword: seq<byte>, compressionMethod: byte, compressed: seq<byte>): seq<byte> {
    keyword + [0, compressionMethod] + compressed
  }

  /** The iTXt layout. */
  function EncodeInternationalText(
    keyword: seq<byte>, flag: byte, compressionMethod: byte,
    languageTag: seq<byte>, translatedKeyword: seq<byte>, body: seq<byte>): seq<byte>
  {
    keyword + [0] + ([flag, compressionMethod] + (languageTag + [0] + (translatedKeyword + [0] + body)))
  }
}
