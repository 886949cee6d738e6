/** Each payload decoder against its wire layout: a well-formed payload decodes
    to the fields it was laid out from, and each malformed one fails with the
    error of the first field the decoder cannot read. */
module TextDecoderProperties {
  import opened Wrappers
  import opened Bytes
  import opened PngText
  import opened TextDecoders

  lemma {:induction false} TextRoundTrip(keyword: seq<byte>, text: seq<byte>)
    requires 0 !in keyword && 0 !in text
    ensures DecodeText(EncodeText(keyword, text)) == Success(TextualData(keyword, text, [], []))
  {
    ReadFieldOfTerminated(keyword, text);
  }

  /** As written, the tEXt text is read with ReadString(0): it keeps the first
      null after the keyword and drops whatever follows it. */
  lemma {:induction false} TextStopsAtNull(keyword: seq<byte>, text: seq<byte>, trailing: seq<byte>)
    requires 0 !in keyword && 0 !in text
    ensures DecodeText(keyword + [0] + (text + [0] + trailing))
         == Success(TextualData(keyword, text + [0], [], []))
  {
    ReadFieldOfTerminated(keyword, text + [0] + trailing);
    var scan := ReadString(text + [0] + trailing);
    assert (text + [0] + trailing)[|text|] == 0;
    assert scan.line == text + [0] by {
      var line := scan.line;
      assert line[|line| - 1] == 0;
      assert line == (text + [0] + trailing)[..|line|];
    }
  }

  lemma {:induction false} CompressedTextRoundTrip(
    keyword: seq<byte>, compressionMethod: byte, compressed: seq<byte>, inflate: Inflate)
    requires 0 !in keyword
    ensures DecodeCompressedText(EncodeCompressedText(keyword, compressionMethod, compressed), inflate)
         == if compressionMethod != 0 then Failure(UnsupportedCompressionType)
            else if inflate(compressed).None? then Failure(DecodeFailure(Value))
            else Success(TextualData(keyword, inflate(compressed).value, [], []))
  {
    assert EncodeCompressedText(keyword, compressionMethod, compressed)
        == keyword + [0] + ([compressionMethod] + compressed);
    ReadFieldOfTerminated(keyword, [compressionMethod] + compressed);
    assert ([compressionMethod] + compressed)[1..] == compressed;
  }

  lemma {:induction false} CompressedTextWithoutMethod(keyword: seq<byte>, inflate: Inflate)
    requires 0 !in keyword
    ensures DecodeCompressedText(keyword + [0], inflate) == Failure(DecodeFailure(CompressionMethod))
  {
    ReadFieldOfTerminated(keyword, []);
    assert keyword + [0] + [] == keyword + [0];
  }

  /** Reassembles an iTXt payload from the fields read off it. */
  lemma InternationalLayout(payload: seq<byte>, keyword: Field, labels: Labels, d: TextualData)
    requires payload == keyword.value + [0] + keyword.rest && |keyword.rest| >= 2
    requires keyword.rest[2..] == labels.languageTag + [0] + (labels.translatedKeyword + [0] + labels.body)
    requires d.keyword == keyword.value && d.languageTag == labels.languageTag
    requires d.translatedKeyword == labels.translatedKeyword
    ensures var n := |d.keyword|;
      && HeaderLength(d) <= |payload|
      && payload[n + 1] == keyword.rest[0] && payload[n + 2] == keyword.rest[1]
      && payload[HeaderLength(d)..] == labels.body
      && payload == EncodeInternationalText(d.keyword, payload[n + 1], payload[n + 2],
                                           d.languageTag, d.translatedKeyword, payload[HeaderLength(d)..])
  {
    var rest := keyword.rest;
    assert rest == [rest[0], rest[1]] + rest[2..];
    assert payload[HeaderLength(d)..] == labels.body by {
      assert payload[|keyword.value| + 3..] == rest[2..];
      assert rest[2..][|labels.languageTag| + 1..] == labels.translatedKeyword + [0] + labels.body;
    }
  }

  /** A payload the iTXt decoder accepts is the layout of the record it
      yields, with the two header bytes and the body as they were found: the
      body is the text itself when the flag is not 1, and inflates to it
      (with method 0) when the flag is 1. */
  lemma InternationalTextLayout(payload: seq<byte>, inflate: Inflate)
    requires DecodeInternationalText(payload, inflate).Success?
    ensures var d := DecodeInternationalText(payload, inflate).value;
      var n := |d.keyword|;
      && HeaderLength(d) <= |payload|
      && var body := payload[HeaderLength(d)..];
      && payload == EncodeInternationalText(d.keyword, payload[n + 1], payload[n + 2], d.languageTag, d.translatedKeyword, body)
      && (payload[n + 1] == 1 ==> payload[n + 2] == 0 && inflate(body) == Some(d.text))
      && (payload[n + 1] != 1 ==> d.text == body)
  {
    var keyword := ReadField(payload).value;
    InternationalStepsFail(payload, inflate);
    InternationalStepsSucceed(payload, inflate);
    var labels := ReadLabels(keyword.rest[2..]).value;
    InternationalLayout(payload, keyword, labels, DecodeInternationalText(payload, inflate).value);
  }

  /** How the iTXt decoder fails after the keyword and the two header
      bytes, on any payload. */
  lemma InternationalStepsFail(payload: seq<byte>, inflate: Inflate)
    requires ReadField(payload).Some? && |ReadField(payload).value.rest| >= 2
    ensures var keyword := ReadField(payload).value;
      var flag := keyword.rest[0];
      var unsupported := flag == 1 && keyword.rest[1] != 0;
      var labels := ReadLabels(keyword.rest[2..]);
      var r := DecodeInternationalText(payload, inflate);
      && (unsupported ==> r == Failure(UnsupportedCompressionType))
      && (!unsupported && labels.Failure? ==> r == Failure(labels.error))
      && (!unsupported && labels.Success? && flag == 1 && inflate(labels.value.body).None? ==>
            r == Failure(DecodeFailure(Value)))
  {
    var keyword := ReadField(payload).value;
    var labels := ReadLabels(keyword.rest[2..]);
    if !(keyword.rest[0] == 1 && keyword.rest[1] != 0) {
      if labels.Failure? {
        assert DecodeInternationalText(payload, inflate) == Failure(labels.error);
      }
    }
  }

  /** What the iTXt decoder yields once the keyword, the two header bytes
      and the labels are read, on any payload. */
  lemma InternationalStepsSucceed(payload: seq<byte>, inflate: Inflate)
    requires ReadField(payload).Some? && |ReadField(payload).value.rest| >= 2
    requires !(ReadField(payload).value.rest[0] == 1 && ReadField(payload).value.rest[1] != 0)
    requires ReadLabels(ReadField(payload).value.rest[2..]).Success?
    ensures var keyword := ReadField(payload).value;
      var flag := keyword.rest[0];
      var labels := ReadLabels(keyword.rest[2..]).value;
      var r := DecodeInternationalText(payload, inflate);
      && (flag == 1 && inflate(labels.body).Some? ==>
            r == Success(TextualData(keyword.value, inflate(labels.body).value, labels.languageTag, labels.translatedKeyword)))
      && (flag != 1 ==> r == Success(TextualData(keyword.value, labels.body, labels.languageTag, labels.translatedKeyword)))
  {
    var keyword := ReadField(payload).value;
    var labels := ReadLabels(keyword.rest[2..]).value;
    assert ReadLabels(keyword.rest[2..]) == Success(labels);
    var r := DecodeInternationalText(payload, inflate);
    if keyword.rest[0] != 1 {
      assert r == Success(TextualData(keyword.value, labels.body, labels.languageTag, labels.translatedKeyword));
    } else if inflate(labels.body).Some? {
      assert r == Success(TextualData(keyword.value, inflate(labels.body).value, labels.languageTag, labels.translatedKeyword));
    }
  }

  /** The labels of an iTXt payload read back. */
  lemma LabelsRoundTrip(languageTag: seq<byte>, translatedKeyword: seq<byte>, body: seq<byte>)
    requires 0 !in languageTag && 0 !in translatedKeyword
    ensures ReadLabels(languageTag + [0] + (translatedKeyword + [0] + body))
         == Success(Labels(languageTag, translatedKeyword, body))
  {
    ReadFieldOfTerminated(languageTag, translatedKeyword + [0] + body);
    ReadFieldOfTerminated(translatedKeyword, body);
  }

  /** The keyword of an iTXt payload read back, with the two header bytes
      and the labels after it. */
  lemma InternationalHeader(keyword: seq<byte>, flag: byte, compressionMethod: byte, labels: seq<byte>)
    requires 0 !in keyword
    ensures var rest := [flag, compressionMethod] + labels;
      && ReadField(keyword + [0] + rest) == Some(Field(keyword, rest))
      && rest[0] == flag && rest[1] == compressionMethod && rest[2..] == labels
  {
    var rest := [flag, compressionMethod] + labels;
    ReadFieldOfTerminated(keyword, rest);
    assert rest[2..] == labels;
  }

  lemma {:induction false} InternationalTextRoundTrip(
    keyword: seq<byte>, flag: byte, compressionMethod: byte,
    languageTag: seq<byte>, translatedKeyword: seq<byte>, body: seq<byte>, inflate: Inflate)
    requires 0 !in keyword && 0 !in languageTag && 0 !in translatedKeyword
    ensures DecodeInternationalText(
              EncodeInternationalText(keyword, flag, compressionMethod, languageTag, translatedKeyword, body), inflate)
         == if flag == 1 && compressionMethod != 0 then Failure(UnsupportedCompressionType)
            else if flag == 1 && inflate(body).None? then Failure(DecodeFailure(Value))
            else if flag == 1 then Success(TextualData(keyword, inflate(body).value, languageTag, translatedKeyword))
            else Success(TextualData(keyword, body, languageTag, translatedKeyword))
  {
    var labels := languageTag + [0] + (translatedKeyword + [0] + body);
    InternationalHeader(keyword, flag, compressionMethod, labels);
    LabelsRoundTrip(languageTag, translatedKeyword, body);
    var payload := keyword + [0] + ([flag, compressionMethod] + labels);
    InternationalStepsFail(payload, inflate);
    if !(flag == 1 && compressionMethod != 0) {
      InternationalStepsSucceed(payload, inflate);
    }
  }

  /** A payload that ends early fails at the first field it lacks; a
      compressed text with a method other than 0 fails before its labels are
      read. */
  lemma {:induction false} InternationalTextErrors(keyword: seq<byte>, s: seq<byte>, inflate: Inflate)
    requires 0 !in keyword
    ensures |s| == 0 ==>
      DecodeInternationalText(keyword + [0] + s, inflate) == Failure(DecodeFailure(CompressionFlag))
    ensures |s| == 1 ==>
      DecodeInternationalText(keyword + [0] + s, inflate) == Failure(DecodeFailure(CompressionMethod))
    ensures |s| >= 2 && s[0] == 1 && s[1] != 0 ==>
      DecodeInternationalText(keyword + [0] + s, inflate) == Failure(UnsupportedCompressionType)
    ensures |s| >= 2 && (s[0] != 1 || s[1] == 0) && 0 !in s[2..] ==>
      DecodeInternationalText(keyword + [0] + s, inflate) == Failure(DecodeFailure(LanguageTag))
  {
    ReadFieldOfTerminated(keyword, s);
  }

  lemma {:induction false} InternationalTextWithoutTranslatedKeyword(
    keyword: seq<byte>, flag: byte, compressionMethod: byte,
    languageTag: seq<byte>, tail: seq<byte>, inflate: Inflate)
    requires 0 !in keyword && 0 !in languageTag && 0 !in tail
    requires flag != 1 || compressionMethod == 0
    ensures DecodeInternationalText(keyword + [0] + ([flag, compressionMethod] + (languageTag + [0] + tail)), inflate)
         == Failure(DecodeFailure(TranslatedKeyword))
  {
    var labels := languageTag + [0] + tail;
    InternationalHeader(keyword, flag, compressionMethod, labels);
    ReadFieldOfTerminated(languageTag, tail);
    InternationalStepsFail(keyword + [0] + ([flag, compressionMethod] + labels), inflate);
  }
}
