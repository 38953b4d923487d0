/** What the multipart parser makes of the multipart printer's body. */
module MultipartRoundTrip {
  import opened Search
  import opened Whitespace
  import opened Wrappers
  import opened Multipart

  // ----- Where a delimiter can be -----

  /** A delimiter without line ends does not straddle one. */
  lemma NoStraddle(d: string, a: string, b: string, i: int)
    requires '\r' !in d && '\n' !in d && d != ""
    ensures At(d, a + CRLF + b, i) ==> i + |d| <= |a| || i >= |a| + 2
  {
    var s := a + CRLF + b;
    assert s[|a|] == '\r' && s[|a| + 1] == '\n';
    assert 0 <= |a| - i < |d| ==> d[|a| - i] in d;
    assert 0 <= |a| + 1 - i < |d| ==> d[|a| + 1 - i] in d;
    AtElements(d, s, i);
  }

  lemma OccursAcross(d: string, a: string, b: string)
    requires '\r' !in d && '\n' !in d && d != ""
    ensures Occurs(d, a + CRLF + b) <==> Occurs(d, a) || Occurs(d, b)
  {
    var s := a + CRLF + b;
    assert s == a + (CRLF + b);
    if Occurs(d, s) {
      var i :| At(d, s, i);
      NoStraddle(d, a, b, i);
      if i + |d| <= |a| {
        AtPrefix(d, a, CRLF + b, i);
      } else {
        AtSuffix(d, a + CRLF, b, i - |a| - 2);
      }
    }
    if Occurs(d, a) {
      var i :| At(d, a, i);
      AtPrefix(d, a, CRLF + b, i);
    }
    if Occurs(d, b) {
      var i :| At(d, b, i);
      AtSuffix(d, a + CRLF, b, i);
      assert At(d, s, |a + CRLF| + i);
    }
  }

  /** A delimiter that starts with two dashes does not start in `a`, which has no two in a row. */
  lemma StartsBehind(d: string, a: string, b: string)
    requires |d| >= 2 && d[0] == '-' && d[1] == '-'
    requires a != "" && a[|a| - 1] != '-'
    requires forall i :: 0 <= i < |a| - 1 ==> a[i] != '-' || a[i + 1] != '-'
    ensures Occurs(d, a + b) ==> Occurs(d, b)
  {
    if Occurs(d, a + b) {
      var i :| At(d, a + b, i);
      var w := (a + b)[i..i + |d|];
      assert w[0] == (a + b)[i] && w[1] == (a + b)[i + 1];
      assert i >= |a|;
      assert w == b[i - |a|..i - |a| + |d|];
      assert At(d, b, i - |a|);
    }
  }

  /** A delimiter without quotes does not reach into a closing quote. */
  lemma EndsBefore(d: string, a: string)
    requires '"' !in d && d != ""
    ensures Occurs(d, a + "\"") ==> Occurs(d, a)
  {
    var s := a + "\"";
    forall i | At(d, s, i)
      ensures At(d, a, i)
    {
      assert d[|d| - 1] in d;
      AtElements(d, s, i);
      assert i + |d| <= |a|;
      assert s[i..i + |d|] == a[i..i + |d|];
    }
  }

  /** A part that ends with a line end leaves no delimiter half open. */
  lemma LineEndCloses(d: string, q: string)
    requires '\r' !in d && '\n' !in d && d != ""
    requires !Occurs(d, q)
    ensures EndsAt(q + CRLF, d)
  {
    var p := q + CRLF;
    forall i | 0 <= i < |p|
      ensures !At(d, p + d, i)
    {
      NoStraddle(d, q, d, i);
      assert i + |d| <= |q| ==> (p + d)[i..i + |d|] == q[i..i + |d|];
      assert !At(d, q, i);
    }
  }

  /** A delimiter as it separates parts: two dashes and a boundary. */
  predicate IsDelimiter(d: string) {
    |d| > 2 && d[0] == '-' && d[1] == '-' && IsBoundary(d[2..])
  }

  lemma DelimiterChars(d: string)
    requires IsDelimiter(d)
    ensures '\r' !in d && '\n' !in d && '"' !in d && d != ""
  {
    assert d == "--" + d[2..];
  }

  // ----- The fixed texts -----

  /** No two dashes in a row, and none at the end. */
  predicate NoDashes(s: string) {
    s != "" && s[|s| - 1] != '-' && forall i :: 0 <= i < |s| - 1 ==> s[i] != '-' || s[i + 1] != '-'
  }

  lemma FixedTexts()
    ensures NoDashes(DISPOSITION) && '=' !in DISPOSITION && '\r' !in DISPOSITION
    ensures NoDashes(FILE_NAME) && NoDashes(LANGUAGE_NAME) && NoDashes(CONTENT_TYPE)
    ensures '\r' !in FILE_NAME && '\r' !in LANGUAGE_NAME && '\r' !in CONTENT_TYPE
  {
    DispositionText();
    NameTexts();
  }

  lemma DispositionText()
    ensures NoDashes(DISPOSITION) && '=' !in DISPOSITION && '\r' !in DISPOSITION
  {
  }

  lemma NameTexts()
    ensures NoDashes(FILE_NAME) && NoDashes(LANGUAGE_NAME) && NoDashes(CONTENT_TYPE)
    ensures '\r' !in FILE_NAME && '\r' !in LANGUAGE_NAME && '\r' !in CONTENT_TYPE
  {
  }

  lemma NotInFixed(d: string, s: string)
    requires IsDelimiter(d) && NoDashes(s)
    ensures !Occurs(d, s)
  {
    StartsBehind(d, s, "");
    assert s + "" == s;
    assert !Occurs(d, "");
  }

  /** The header of the file part holds the delimiter only if the file name does. */
  lemma FileHeadIsClean(d: string, fileName: string)
    requires IsDelimiter(d) && !Occurs(d, fileName)
    ensures !Occurs(d, FileHead(fileName))
  {
    DelimiterChars(d);
    FixedTexts();
    EndsBefore(d, fileName);
    StartsBehind(d, FILE_NAME, fileName + "\"");
    StartsBehind(d, DISPOSITION, FILE_NAME + (fileName + "\""));
    var line := DISPOSITION + (FILE_NAME + (fileName + "\""));
    NotInFixed(d, CONTENT_TYPE);
    OccursAcross(d, "", line + CRLF + CONTENT_TYPE);
    OccursAcross(d, line, CONTENT_TYPE);
    assert FileHead(fileName) == "" + CRLF + (line + CRLF + CONTENT_TYPE);
    assert !Occurs(d, "");
  }

  lemma LanguageHeadIsClean(d: string)
    requires IsDelimiter(d)
    ensures !Occurs(d, LanguageHead())
  {
    DelimiterChars(d);
    FixedTexts();
    NotInFixed(d, LANGUAGE_NAME);
    StartsBehind(d, DISPOSITION, LANGUAGE_NAME);
    OccursAcross(d, "", DISPOSITION + LANGUAGE_NAME);
    assert LanguageHead() == "" + CRLF + (DISPOSITION + LANGUAGE_NAME);
    assert !Occurs(d, "");
  }

  /** Header and body of a part do not share a delimiter. */
  lemma PartIsClean(d: string, head: string, body: string)
    requires IsDelimiter(d)
    ensures Occurs(d, head + HEADER_END + body) <==> Occurs(d, head) || Occurs(d, body)
  {
    DelimiterChars(d);
    OccursAcross(d, "", body);
    OccursAcross(d, head, "" + CRLF + body);
    assert head + HEADER_END + body == head + CRLF + ("" + CRLF + body);
    assert !Occurs(d, "");
  }

  // ----- Finding the end of the header and the name -----

  /** Lines without a CR, one behind the other, hide no blank line. */
  lemma HeadHidesNoBlankLine(a: string, b: string)
    requires '\r' !in a && '\r' !in b && a != "" && b != ""
    ensures EndsAt(CRLF + a + CRLF + b, HEADER_END)
  {
    var s := CRLF + a + CRLF + b;
    var t := s + HEADER_END;
    forall i | 0 <= i < |s|
      ensures !At(HEADER_END, t, i)
    {
      assert HEADER_END[0] == '\r' && HEADER_END[2] == '\r';
      assert 2 <= i < |a| + 2 ==> t[i] == a[i - 2] && a[i - 2] in a;
      assert |a| + 4 <= i < |s| ==> t[i] == b[i - |a| - 4] && b[i - |a| - 4] in b;
      assert t[2] == a[0] && a[0] in a && t[|a| + 4] == b[0] && b[0] in b;
      assert t[|a| + 3] == '\n';
      AtElements(HEADER_END, t, i);
    }
  }

  lemma LineHidesNoBlankLine(a: string)
    requires '\r' !in a && a != ""
    ensures EndsAt(CRLF + a, HEADER_END)
  {
    var t := CRLF + a + HEADER_END;
    forall i | 0 <= i < |a| + 2
      ensures !At(HEADER_END, t, i)
    {
      assert HEADER_END[0] == '\r' && HEADER_END[2] == '\r';
      assert 2 <= i < |a| + 2 ==> t[i] == a[i - 2] && a[i - 2] in a;
      assert t[2] == a[0] && a[0] in a;
      AtElements(HEADER_END, t, i);
    }
  }

  /** The leftmost occurrence behind a text that does not hide it. */
  lemma FindBehind(p: string, sep: string, rest: string)
    requires EndsAt(p, sep)
    ensures Find(sep, p + sep + rest) == Some(|p|)
  {
    var s := p + sep + rest;
    assert s[|p|..|p| + |sep|] == sep;
    assert At(sep, s, |p|);
    forall j | 0 <= j < |p|
      ensures !At(sep, s, j)
    {
      AtPrefix(sep, p + sep, rest, j);
    }
  }

  /** The first attribute of a disposition line is its name. */
  lemma FirstName(prefix: string, name: string, rest: string)
    requires '=' !in prefix
    requires name != "" && '"' !in name
    ensures NameIn(prefix + (NAME + name + "\"" + rest)) == Some(name)
  {
    var s := prefix + (NAME + name + "\"" + rest);
    forall i | 0 <= i < |prefix|
      ensures !At(NAME, prefix + NAME, i)
    {
      assert i + 4 < |prefix| ==> (prefix + NAME)[i + 4] == prefix[i + 4];
      AtElements(NAME, prefix + NAME, i);
      assert NAME[4] == '=';
    }
    var behind := name + "\"" + rest;
    assert s == prefix + NAME + behind;
    FindBehind(prefix, NAME, behind);
    assert s[|prefix| + |NAME|..] == behind;
    SingleEndsAt(name, '"');
    FindBehind(name, "\"", rest);
    assert behind[..|name|] == name;
  }

  // ----- The parts of the body -----

  lemma FileName(fileName: string)
    ensures NameIn(FileHead(fileName)) == Some("file")
  {
    FixedTexts();
    var rest := "; filename=\"" + fileName + "\"" + CRLF + CONTENT_TYPE;
    assert FILE_NAME == NAME + "file" + "\"" + "; filename=\"";
    assert FileHead(fileName) == (CRLF + DISPOSITION) + (NAME + "file" + "\"" + rest);
    FirstName(CRLF + DISPOSITION, "file", rest);
  }

  /** The header of a part ends at its first blank line. */
  lemma FieldOf(head: string, name: string, body: string)
    requires EndsAt(head, HEADER_END) && NameIn(head) == Some(name)
    ensures Field(head + HEADER_END + body) == Some((name, Stripped(body)))
  {
    var part := head + HEADER_END + body;
    FindBehind(head, HEADER_END, body);
    assert part[..|head|] == head && part[|head| + |HEADER_END|..] == body;
  }

  lemma NoField(part: string)
    requires |part| < 4 || part == "--\r\n"
    ensures Field(part) == None
  {
    assert |part| >= 4 ==> part[0] == '-' && HEADER_END[0] == '\r';
    AtElements(HEADER_END, part, 0);
    assert !Occurs(HEADER_END, part);
  }

  // ----- The body as a whole -----

  /** A header that the delimiter does not occur in and that names its part. */
  ghost predicate IsHead(head: string, name: string, d: string) {
    EndsAt(head, HEADER_END) && NameIn(head) == Some(name) && !Occurs(d, head)
  }

  lemma FileHeadIsHead(d: string, fileName: string)
    requires IsDelimiter(d) && !Occurs(d, fileName) && '\r' !in fileName
    ensures IsHead(FileHead(fileName), "file", d)
  {
    FixedTexts();
    FileHeadIsClean(d, fileName);
    HeadHidesNoBlankLine(DISPOSITION + (FILE_NAME + (fileName + "\"")), CONTENT_TYPE);
    FileName(fileName);
  }

  lemma LanguageHeadIsHead(d: string)
    requires IsDelimiter(d)
    ensures IsHead(LanguageHead(), "language", d)
  {
    FixedTexts();
    LanguageHeadIsClean(d);
    LineHidesNoBlankLine(DISPOSITION + LANGUAGE_NAME);
    assert LANGUAGE_NAME == NAME + "language" + "\"" + "";
    assert LanguageHead() == (CRLF + DISPOSITION) + (NAME + "language" + "\"" + "");
    FirstName(CRLF + DISPOSITION, "language", "");
  }

  lemma PartField(head: string, name: string, d: string, content: string)
    requires IsHead(head, name, d)
    ensures Field(Part(head, content)) == Some((name, Stripped(content)))
  {
    FieldOf(head, name, content + CRLF);
    TrimRightDropsTail(content, CRLF, IsTail);
  }

  lemma PartOccurs(head: string, name: string, d: string, content: string)
    requires IsDelimiter(d) && IsHead(head, name, d)
    ensures Occurs(d, Part(head, content)) <==> Occurs(d, content)
    ensures !Occurs(d, content) ==> EndsAt(Part(head, content), d)
  {
    DelimiterChars(d);
    PartIsClean(d, head, content);
    var q := head + HEADER_END + content;
    assert Part(head, content) == q + CRLF + "" == q + CRLF;
    OccursAcross(d, q, "");
    assert !Occurs(d, "");
    if !Occurs(d, content) {
      LineEndCloses(d, q);
    }
  }

  /** What ends with a line end and holds no delimiter leaves none half open. */
  lemma SuffixCloses(d: string, last: string)
    requires '\n' !in d && d != "" && !Occurs(d, last)
    requires last != "" ==> last[|last| - 1] == '\n'
    ensures EndsAt(last, d)
  {
    forall i | 0 <= i < |last|
      ensures !At(d, last + d, i)
    {
      assert 0 <= |last| - 1 - i < |d| ==> d[|last| - 1 - i] in d;
      AtElements(d, last + d, i);
      assert i + |d| <= |last| ==> (last + d)[i..i + |d|] == last[i..i + |d|];
      assert !At(d, last, i);
    }
  }

  /** The last piece of a part is closed by the part's line end. */
  lemma LastPieceCloses(d: string, s: string)
    requires '\n' !in d && d != "" && s != "" && s[|s| - 1] == '\n'
    ensures var parts := Split(s, d); EndsAt(parts[|parts| - 1], d)
  {
    var parts := Split(s, d);
    LastPartIsSuffix(s, d);
    SplitIsClean(s, d);
    SuffixCloses(d, parts[|parts| - 1]);
  }

  lemma TailIsWhole(d: string)
    requires IsDelimiter(d)
    ensures Split("--" + CRLF, d) == ["--" + CRLF]
  {
    DelimiterChars(d);
    OccursAcross(d, "--", "");
    assert !Occurs(d, "--") && !Occurs(d, "");
    assert "--" + CRLF + "" == "--" + CRLF;
    assert Split("--" + CRLF, d) == SplitFirst("--" + CRLF, d);
  }

  lemma BodyParts(d: string, file: string, lang: string, tail: string)
    requires d != "" && '\n' !in d
    requires file != "" && file[|file| - 1] == '\n'
    requires EndsAt(lang, d) && Split(tail, d) == [tail]
    ensures Split(d + (file + d + (lang + d + tail)), d) == [""] + (Split(file, d) + [lang, tail])
  {
    FirstCut(lang, d, tail);
    LastPieceCloses(d, file);
    SplitConcat(file, d, lang + d + tail);
    var rest := file + d + (lang + d + tail);
    assert EndsAt("", d);
    FirstCut("", d, rest);
    assert "" + d + rest == d + rest;
    assert [lang] + [tail] == [lang, tail];
  }

  lemma {:induction false} ParsedConcat(a: seq<string>, b: seq<string>, form: Form, text: string -> string)
    ensures Parsed(a + b, form, text) == Parsed(b, Parsed(a, form, text), text)
  {
    if a == [] {
      assert a + b == b;
    } else {
      assert (a + b)[1..] == a[1..] + b;
      ParsedConcat(a[1..], b, WithPart(form, a[0], text), text);
    }
  }

  lemma ParsedOne(p: string, form: Form, text: string -> string)
    ensures Parsed([p], form, text) == WithPart(form, p, text)
  {
    assert [p][1..] == [];
  }

  lemma ParsedSnoc(parts: seq<string>, p: string, form: Form, text: string -> string)
    ensures Parsed(parts + [p], form, text) == WithPart(Parsed(parts, form, text), p, text)
  {
    ParsedConcat(parts, [p], form, text);
    ParsedOne(p, Parsed(parts, form, text), text);
  }

  /** What the pieces between an empty part and two more say. */
  lemma ParsedBetween(pieces: seq<string>, lang: string, tail: string, text: string -> string)
    ensures Parsed([""] + (pieces + [lang, tail]), EMPTY, text)
         == WithPart(WithPart(Parsed(pieces, WithPart(EMPTY, "", text), text), lang, text), tail, text)
  {
    var start := WithPart(EMPTY, "", text);
    ParsedConcat([""], pieces + [lang, tail], EMPTY, text);
    ParsedOne("", EMPTY, text);
    assert pieces + [lang, tail] == pieces + [lang] + [tail];
    ParsedSnoc(pieces + [lang], tail, start, text);
    ParsedSnoc(pieces, lang, start, text);
  }

  /** What the pieces of the file part say, and then the language. */
  lemma ParsedPieces(pieces: seq<string>, lang: string, body: string, tail: string, text: string -> string)
    requires Field(lang) == Some(("language", body)) && Field("") == None && Field(tail) == None
    ensures Parsed([""] + (pieces + [lang, tail]), EMPTY, text)
         == Parsed(pieces, EMPTY, text).(language := Some(text(body)))
  {
    ParsedBetween(pieces, lang, tail, text);
  }

  /** What the parser sees of a body. */
  lemma ParsedBody(d: string, fileHead: string, data: string, languageHead: string, language: string,
                   text: string -> string)
    requires IsDelimiter(d) && !Occurs(d, language)
    requires IsHead(fileHead, "file", d) && IsHead(languageHead, "language", d)
    ensures Parsed(Split(Body(d, fileHead, data, languageHead, language), d), EMPTY, text)
         == Parsed(Split(Part(fileHead, data), d), EMPTY, text).(language := Some(text(Stripped(language))))
  {
    DelimiterChars(d);
    var file, lang, tail := Part(fileHead, data), Part(languageHead, language), "--" + CRLF;
    TailIsWhole(d);
    PartOccurs(languageHead, "language", d, language);
    PartField(languageHead, "language", d, language);
    assert file[|file| - 1] == '\n';
    BodyParts(d, file, lang, tail);
    NoField("");
    NoField(tail);
    ParsedPieces(Split(file, d), lang, Stripped(language), tail, text);
  }

  /** What a part under each name does to the form: the last one of a name counts, and `audio`
      is another name for the file. */
  lemma PartIsTaken(parts: seq<string>, head: string, name: string, content: string, text: string -> string)
    requires EndsAt(head, HEADER_END) && NameIn(head) == Some(name)
    ensures var before := Parsed(parts, EMPTY, text);
            var after := Parsed(parts + [head + HEADER_END + content], EMPTY, text);
            && (name == "file" || name == "audio" ==> after == before.(audio := Some(Stripped(content))))
            && (name == "language" ==> after == before.(language := Some(text(Stripped(content)))))
            && (name == "prompt" ==> after == before.(prompt := Some(text(Stripped(content)))))
            && (name !in {"file", "audio", "language", "prompt"} ==> after == before)
  {
    FieldOf(head, name, content);
    ParsedSnoc(parts, head + HEADER_END + content, EMPTY, text);
  }

  /** The body that is sent, written out. */
  lemma BodyIs(boundary: string, fileName: string, data: string, language: string)
    ensures var d := "--" + boundary;
            var named := "name=\"file\"; filename=\"" + (fileName + "\"");
            var file := "\r\n" + ("Content-Disposition: form-data; " + named) + "\r\n" + "Content-Type: audio/wav";
            var lang := "\r\n" + ("Content-Disposition: form-data; " + "name=\"language\"");
            PostBody(boundary, fileName, data, language)
            == d + (file + "\r\n\r\n" + (data + "\r\n")
                    + d + (lang + "\r\n\r\n" + (language + "\r\n")
                           + d + ("--" + "\r\n")))
    ensures ContentType(boundary) == "multipart/form-data; boundary=" + boundary
  {
  }

  // ----- When the audio survives -----

  /** Without a delimiter in the data, the file part is one piece. */
  lemma WholePiece(d: string, head: string, data: string, text: string -> string)
    requires IsDelimiter(d) && IsHead(head, "file", d) && !Occurs(d, data)
    ensures Parsed(Split(Part(head, data), d), EMPTY, text) == EMPTY.(audio := Some(Stripped(data)))
  {
    PartOccurs(head, "file", d, data);
    PartField(head, "file", d, data);
    assert Split(Part(head, data), d) == SplitFirst(Part(head, data), d);
    ParsedOne(Part(head, data), EMPTY, text);
  }

  /** Fields with bodies shorter than `n` cannot set longer audio. */
  lemma {:induction false} ShortAudio(parts: seq<string>, form: Form, text: string -> string, n: nat)
    requires forall k :: 0 <= k < |parts| && Field(parts[k]).Some? ==> |Field(parts[k]).value.1| < n
    requires form.audio.Some? ==> |form.audio.value| < n
    ensures var r := Parsed(parts, form, text); r.audio.Some? ==> |r.audio.value| < n
  {
    if parts != [] {
      ShortAudio(parts[1..], WithPart(form, parts[0], text), text, n);
    }
  }

  lemma BodyIsShorter(part: string)
    ensures Field(part).Some? ==> |Field(part).value.1| + 4 <= |part|
  {
  }

  /** The first delimiter of a part lies in its content. */
  lemma FirstInContent(d: string, head: string, content: string, i: nat)
    requires IsDelimiter(d) && !Occurs(d, head)
    requires At(d, Part(head, content), i)
    ensures i >= |head| + 4
  {
    DelimiterChars(d);
    var part, body := Part(head, content), content + CRLF;
    assert part == head + CRLF + (CRLF + body);
    assert part == head + CRLF + CRLF + body;
    NoStraddle(d, head, CRLF + body, i);
    NoStraddle(d, head + CRLF, body, i);
    assert part == head + (CRLF + (CRLF + body));
    if i + |d| <= |head| {
      AtPrefix(d, head, CRLF + (CRLF + body), i);
    }
  }

  /** A delimiter in the data cuts it: every piece carries less. */
  lemma PiecesAreShort(d: string, head: string, data: string, k: nat)
    requires IsDelimiter(d) && IsHead(head, "file", d) && Occurs(d, Part(head, data))
    requires k < |Split(Part(head, data), d)|
    ensures var field := Field(Split(Part(head, data), d)[k]);
            field.Some? ==> |field.value.1| < |data|
  {
    var file := Part(head, data);
    var i := Find(d, file).value;
    FirstInContent(d, head, data, i);
    PieceOf(d, file, i, k);
    if k == 0 {
      FirstPieceField(head, data, i);
    } else {
      LaterPieceField(d, file, i, k);
    }
  }

  lemma PieceOf(d: string, s: string, i: nat, k: nat)
    requires d != "" && Find(d, s) == Some(i) && k < |Split(s, d)|
    ensures i + |d| <= |s| && k <= |Split(s[i + |d|..], d)|
    ensures Split(s, d)[k] == if k == 0 then s[..i] else Split(s[i + |d|..], d)[k - 1]
  {
    CutOff(s, d, i);
  }

  lemma LaterPieceField(d: string, file: string, i: nat, k: nat)
    requires d != "" && i + |d| <= |file| && 1 <= k <= |Split(file[i + |d|..], d)|
    ensures var field := Field(Split(file[i + |d|..], d)[k - 1]);
            field.Some? ==> |field.value.1| + 4 <= |file| - i - |d|
  {
    PartsAreNoLonger(file[i + |d|..], d, k - 1);
    BodyIsShorter(Split(file[i + |d|..], d)[k - 1]);
  }

  /** The first piece has the header of the part and the content up to the cut. */
  lemma FirstPieceField(head: string, data: string, i: nat)
    requires EndsAt(head, HEADER_END) && NameIn(head) == Some("file")
    requires |head| + 4 <= i <= |Part(head, data)|
    ensures Field(Part(head, data)[..i]).Some? && |Field(Part(head, data)[..i]).value.1| <= i - |head| - 4
  {
    var file := Part(head, data);
    var body := file[|head| + 4..i];
    assert file[..i] == head + HEADER_END + body;
    FieldOf(head, "file", body);
  }

  lemma CutDataIsLost(d: string, head: string, data: string, text: string -> string)
    requires IsDelimiter(d) && IsHead(head, "file", d) && Occurs(d, data)
    ensures var r := Parsed(Split(Part(head, data), d), EMPTY, text);
            r.audio.Some? ==> |r.audio.value| < |data|
  {
    PartOccurs(head, "file", d, data);
    var pieces := Split(Part(head, data), d);
    forall k | 0 <= k < |pieces|
      ensures Field(pieces[k]).Some? ==> |Field(pieces[k]).value.1| < |data|
    {
      PiecesAreShort(d, head, data, k);
    }
    ShortAudio(pieces, EMPTY, text, |data|);
  }

  // ----- The round trip -----

  /** The delimiter occurs in the file name and the language neither; the file name stays
      on its line. */
  predicate IsPlain(boundary: string, fileName: string, language: string) {
    && IsBoundary(boundary)
    && Find("--" + boundary, fileName) == None
    && Find("--" + boundary, language) == None
    && '\r' !in fileName
  }

  lemma PlainDelimiter(boundary: string)
    requires IsBoundary(boundary)
    ensures IsDelimiter("--" + boundary)
  {
    assert ("--" + boundary)[2..] == boundary;
  }

  /** The boundary is found in the content type that announces it. */
  lemma BoundaryIsFound(boundary: string)
    requires IsBoundary(boundary)
    ensures BoundaryIn(ContentType(boundary)) == Some(boundary)
  {
    var prefix, key := "multipart/form-data; ", "boundary=";
    KeyIsFirst(prefix, key);
    assert ContentType(boundary) == prefix + key + boundary;
    BehindKey(prefix, boundary);
  }

  /** The equals sign at the end of the key stands at its end only. */
  lemma KeyIsFirst(prefix: string, key: string)
    requires '=' !in prefix && key != "" && key[|key| - 1] == '=' && '=' !in key[..|key| - 1]
    ensures EndsAt(prefix, key)
  {
    var s, n := prefix + key, |key| - 1;
    forall i | 0 <= i < |prefix|
      ensures !At(key, s, i)
    {
      AtElements(key, s, i);
      assert i + n < |prefix| ==> s[i + n] == prefix[i + n] && prefix[i + n] in prefix;
      assert i + n >= |prefix| ==> s[i + n] == key[..n][i + n - |prefix|];
    }
  }

  lemma BehindKey(prefix: string, boundary: string)
    requires EndsAt(prefix, "boundary=") && IsBoundary(boundary)
    ensures BoundaryIn(prefix + "boundary=" + boundary) == Some(boundary)
  {
    var s := prefix + "boundary=" + boundary;
    FindBehind(prefix, "boundary=", boundary);
    assert s[|prefix| + 9..] == boundary;
    NothingDelimits(boundary);
    assert boundary[0] in boundary;
    assert boundary[..|boundary|] == boundary;
  }

  /** What is found as a boundary is never empty and holds no quote and no semicolon. */
  lemma {:induction false} FoundBoundaryIsPlain(ctype: string)
    ensures BoundaryIn(ctype).Some? ==>
              BoundaryIn(ctype).value != "" && '"' !in BoundaryIn(ctype).value && ';' !in BoundaryIn(ctype).value
    decreases |ctype|
  {
    var found := Find("boundary=", ctype);
    if found.Some? {
      var rest := ctype[found.value + 9..];
      var value := if rest != "" && rest[0] == '"' then rest[1..] else rest;
      UpToDelimiterIsPlain(value);
      FoundBoundaryIsPlain(ctype[found.value + 1..]);
    }
  }

  lemma {:induction false} UpToDelimiterIsPlain(s: string)
    ensures '"' !in s[..UpToDelimiter(s)] && ';' !in s[..UpToDelimiter(s)]
  {
    if s != "" && s[0] != '"' && s[0] != ';' {
      UpToDelimiterIsPlain(s[1..]);
      assert s[..UpToDelimiter(s)] == [s[0]] + s[1..][..UpToDelimiter(s[1..])];
    }
  }

  /** A boundary in quotes, or with parameters behind it, is found as well. */
  lemma OtherBoundariesAreFound(boundary: string, rest: string)
    requires IsBoundary(boundary)
    ensures BoundaryIn("multipart/form-data; " + "boundary=" + ("\"" + boundary + "\"" + rest)) == Some(boundary)
    ensures BoundaryIn("multipart/form-data; " + "boundary=" + (boundary + ";" + rest)) == Some(boundary)
  {
    var prefix := "multipart/form-data; ";
    KeyIsFirst(prefix, "boundary=");
    assert boundary[0] in boundary;
    BehindQuotedKey(prefix, boundary, "\"" + boundary + "\"" + rest, '"', rest);
    BehindQuotedKey(prefix, boundary, boundary + ";" + rest, ';', rest);
  }

  lemma BehindQuotedKey(prefix: string, boundary: string, behind: string, end: char, rest: string)
    requires EndsAt(prefix, "boundary=") && IsBoundary(boundary) && boundary[0] != '"'
    requires end == '"' || end == ';'
    requires behind == boundary + [end] + rest || behind == "\"" + boundary + [end] + rest
    ensures BoundaryIn(prefix + "boundary=" + behind) == Some(boundary)
  {
    var value := if behind[0] == '"' then behind[1..] else behind;
    assert value == boundary + ([end] + rest);
    DelimiterEnds(boundary, [end] + rest);
    assert value[..|boundary|] == boundary;
    BehindAnyKey(prefix, behind);
  }

  /** What is taken behind the first key. */
  lemma BehindAnyKey(prefix: string, behind: string)
    requires EndsAt(prefix, "boundary=")
    ensures var value := if behind != "" && behind[0] == '"' then behind[1..] else behind;
            UpToDelimiter(value) > 0 ==>
              BoundaryIn(prefix + "boundary=" + behind) == Some(value[..UpToDelimiter(value)])
  {
    FindBehind(prefix, "boundary=", behind);
    assert (prefix + "boundary=" + behind)[|prefix| + 9..] == behind;
  }

  lemma {:induction false} DelimiterEnds(s: string, rest: string)
    requires '"' !in s && ';' !in s && rest != "" && (rest[0] == '"' || rest[0] == ';')
    ensures UpToDelimiter(s + rest) == |s|
  {
    if s == "" {
      assert s + rest == rest;
    } else {
      assert s[0] in s && (s + rest)[0] == s[0] && (s + rest)[1..] == s[1..] + rest;
      DelimiterEnds(s[1..], rest);
    }
  }

  lemma {:induction false} NothingDelimits(s: string)
    requires '"' !in s && ';' !in s
    ensures UpToDelimiter(s) == |s|
  {
    if s != "" {
      assert s[0] in s;
      NothingDelimits(s[1..]);
    }
  }

  /** What the parser makes of a body that `post_audio` sends. */
  function Received(boundary: string, fileName: string, data: string, language: string,
                    text: string -> string): Form
    requires IsBoundary(boundary)
  {
    Parsed(Split(PostBody(boundary, fileName, data, language), "--" + boundary), EMPTY, text)
  }

  /** The parser gets back what the printer was given, except that the audio loses every
      trailing CR, LF and dash. */
  lemma RoundTrip(boundary: string, fileName: string, data: string, language: string, text: string -> string)
    requires IsPlain(boundary, fileName, language)
    requires Find("--" + boundary, data) == None
    ensures Received(boundary, fileName, data, language, text)
         == Form(Some(Stripped(data)), Some(text(Stripped(language))), None)
  {
    var d := "--" + boundary;
    PlainDelimiter(boundary);
    FileHeadIsHead(d, fileName);
    LanguageHeadIsHead(d);
    ParsedBody(d, FileHead(fileName), data, LanguageHead(), language, text);
    WholePiece(d, FileHead(fileName), data, text);
  }

  /** The audio arrives unchanged exactly if it does not contain the delimiter and does not
      end in CR, LF or a dash. */
  lemma AudioSurvivesIff(boundary: string, fileName: string, data: string, language: string,
                         text: string -> string)
    requires IsPlain(boundary, fileName, language)
    ensures Received(boundary, fileName, data, language, text).audio == Some(data) <==>
            && Find("--" + boundary, data) == None
            && (data == "" || (data[|data| - 1] != '\r' && data[|data| - 1] != '\n' && data[|data| - 1] != '-'))
  {
    var d := "--" + boundary;
    if Find(d, data) == None {
      RoundTrip(boundary, fileName, data, language, text);
    } else {
      PlainDelimiter(boundary);
      FileHeadIsHead(d, fileName);
      LanguageHeadIsHead(d);
      ParsedBody(d, FileHead(fileName), data, LanguageHead(), language, text);
      CutDataIsLost(d, FileHead(fileName), data, text);
    }
  }
}
