/** Language and audio together: when a form arrives exactly as it was sent. */
module MultipartText {
  import opened Bytes
  import opened Multipart
  import opened MultipartRoundTrip
  import opened Search
  import opened Whitespace
  import opened Wrappers
  import Utf8Text

  /** The bytes of a text. */
  function Encoded(s: string): string {
    Written(Utf8Text.Encode(s))
  }

  lemma WrittenIsRead(bs: bytes)
    ensures Octets(Written(bs)) == bs
  {
  }

  lemma EncodedSnoc(s: string, c: char)
    ensures Encoded(s + [c]) == Encoded(s) + Written(Utf8Text.EncodedChar(c))
  {
    Utf8Text.EncodeConcat(s, [c]);
    assert [c][1..] == "" && Utf8Text.Encode([c]) == Utf8Text.EncodedChar(c) + [] == Utf8Text.EncodedChar(c);
  }

  /** Only the three characters themselves are written with their bytes. */
  lemma TailOfChar(c: char)
    ensures var w := Written(Utf8Text.EncodedChar(c));
            && w != "" && (IsTail(w[|w| - 1]) <==> IsTail(c))
            && (IsTail(c) ==> w == [c])
  {
  }

  /** Stripping the bytes of a text is stripping the text. */
  lemma {:induction false} StrippedBytes(s: string)
    ensures Stripped(Encoded(s)) == Encoded(Stripped(s))
  {
    if s != "" {
      var front, c := s[..|s| - 1], s[|s| - 1];
      assert s == front + [c];
      EncodedSnoc(front, c);
      TailOfChar(c);
      var w := Written(Utf8Text.EncodedChar(c));
      if IsTail(c) {
        TrimRightDropsTail(Encoded(front), w, IsTail);
        StrippedBytes(front);
      } else {
        TrimRightKeepsEnd(Encoded(front) + w, IsTail);
      }
    }
  }

  lemma TextOfEncoded(s: string)
    ensures Text(Stripped(Encoded(s))) == Strip(Stripped(s))
  {
    StrippedBytes(s);
    WrittenIsRead(Utf8Text.Encode(Stripped(s)));
    Utf8Text.DecodeEncode(Stripped(s));
  }

  /** White space at neither end, and no dash at the end. */
  predicate IsTrim(s: string) {
    s == "" || (!IsPythonSpace(s[0]) && !IsPythonSpace(s[|s| - 1]) && s[|s| - 1] != '-')
  }

  lemma StripIff(s: string)
    ensures Strip(Stripped(s)) == s <==> IsTrim(s)
  {
    var t := Stripped(s);
    var u := TrimRight(t, IsPythonSpace);
    assert IsTrim(s) ==> t == s && u == s;
    assert Strip(t) == s ==> |t| == |s| && |u| == |s| && t == s[..|s|] == s && u == s;
  }

  /** The language arrives unchanged exactly if it has white space at neither end and no dash
      at its end, whatever the audio is. */
  lemma LanguageSurvivesIff(boundary: string, fileName: string, data: string, language: string)
    requires IsPlain(boundary, fileName, Encoded(language))
    ensures Received(boundary, fileName, data, Encoded(language), Text).language == Some(language) <==> IsTrim(language)
  {
    var d := "--" + boundary;
    PlainDelimiter(boundary);
    FileHeadIsHead(d, fileName);
    LanguageHeadIsHead(d);
    ParsedBody(d, FileHead(fileName), data, LanguageHead(), Encoded(language), Text);
    TextOfEncoded(language);
    StripIff(language);
  }

  /** What is received is exactly what was sent, if and only if the audio does not contain the
      delimiter, the audio does not end in CR, LF or a dash, and the language is trim. */
  lemma ArrivesIff(boundary: string, fileName: string, data: string, language: string)
    requires IsPlain(boundary, fileName, Encoded(language))
    ensures Received(boundary, fileName, data, Encoded(language), Text) == Form(Some(data), Some(language), None) <==>
            && Find("--" + boundary, data) == None
            && (data == "" || (data[|data| - 1] != '\r' && data[|data| - 1] != '\n' && data[|data| - 1] != '-'))
            && IsTrim(language)
  {
    AudioSurvivesIff(boundary, fileName, data, Encoded(language), Text);
    LanguageSurvivesIff(boundary, fileName, data, language);
    if Find("--" + boundary, data) == None {
      RoundTrip(boundary, fileName, data, Encoded(language), Text);
    }
  }
}
