/** Multipart form data (section 5.1.1 of RFC 2046, section 4 of RFC 7578): the printer of
    scripts/eval-asr-accuracy.py and the parser of scripts/local-asr-server.py. Byte strings
    are written as strings, one character a byte. */
module Multipart {
  import opened Bytes
  import opened Search
  import opened Whitespace
  import opened Wrappers
  import Utf8Text

  const CRLF := "\r\n"
  const HEADER_END := "\r\n\r\n"
  const NAME := "name=\""

  // ----- The parser -----

  /** The text up to the next quote, if it is not empty and a quote follows. */
  function Quoted(s: string): Option<string> {
    match Find("\"", s)
    case None => None
    case Some(i) => if i == 0 then None else Some(s[..i])
  }

  /** The leftmost match of `name="([^"]+)"` in a part's header. */
  function NameIn(head: string): Option<string>
    decreases |head|
  {
    match Find(NAME, head)
    case None => None
    case Some(i) =>
      match Quoted(head[i + |NAME|..])
      case Some(name) => Some(name)
      case None => NameIn(head[i + 1..])
  }

  predicate IsTail(c: char) {
    c == '\r' || c == '\n' || c == '-'
  }

  /** `body.rstrip(b"\r\n-")`. */
  function Stripped(body: string): string {
    TrimRight(body, IsTail)
  }

  datatype Form = Form(audio: Option<string>, language: Option<string>, prompt: Option<string>)

  const EMPTY := Form(None, None, None)

  /** The name and the body of a part, if it has both. */
  function Field(part: string): Option<(string, string)> {
    match Find(HEADER_END, part)
    case None => None
    case Some(i) =>
      match NameIn(part[..i])
      case None => None
      case Some(name) => Some((name, Stripped(part[i + |HEADER_END|..])))
  }

  /** A character beyond a byte stands for nothing; no byte string holds one. */
  function Octet(c: char): byte {
    if c as int < 256 then c as int else 0xFF
  }

  function Octets(s: string): bytes {
    seq(|s|, i requires 0 <= i < |s| => Octet(s[i]))
  }

  /** Bytes as this module writes them. */
  function Written(bs: bytes): string {
    seq(|bs|, i requires 0 <= i < |bs| => bs[i] as char)
  }

  /** `str.strip`. */
  function Strip(s: string): string {
    TrimLeft(TrimRight(s, IsPythonSpace), IsPythonSpace)
  }

  /** `body.decode("utf-8", "ignore").strip()`. */
  function Text(body: string): string {
    Strip(Utf8Text.Decode(Octets(body)))
  }

  /** `text` is how a body is turned into text. */
  function WithField(form: Form, name: string, body: string, text: string -> string): Form {
    if name == "file" || name == "audio" then form.(audio := Some(body))
    else if name == "language" then form.(language := Some(text(body)))
    else if name == "prompt" then form.(prompt := Some(text(body)))
    else form
  }

  function WithPart(form: Form, part: string, text: string -> string): Form {
    match Field(part)
    case None => form
    case Some((name, body)) => WithField(form, name, body, text)
  }

  /** What the parts say, the last one of each name winning. */
  function Parsed(parts: seq<string>, form: Form, text: string -> string): Form {
    if parts == [] then form else Parsed(parts[1..], WithPart(form, parts[0], text), text)
  }

  /** The leftmost match of `boundary="?([^";]+)"?` in the content type. */
  function BoundaryIn(ctype: string): Option<string>
    decreases |ctype|
  {
    match Find("boundary=", ctype)
    case None => None
    case Some(i) =>
      var rest := ctype[i + 9..];
      var value := if rest != "" && rest[0] == '"' then rest[1..] else rest;
      var end := UpToDelimiter(value);
      if end > 0 then Some(value[..end]) else BoundaryIn(ctype[i + 1..])
  }

  function UpToDelimiter(s: string): (k: nat)
    ensures k <= |s|
  {
    if s == "" || s[0] == '"' || s[0] == ';' then 0 else 1 + UpToDelimiter(s[1..])
  }

  /** `_parse_multipart`. */
  method ParseMultipart(raw: string, ctype: string) returns (form: Option<Form>)
    ensures form == match BoundaryIn(ctype)
                    case None => None
                    case Some(b) => Some(Parsed(Split(raw, "--" + b), EMPTY, Text))
  {
    var m := BoundaryIn(ctype);
    if m.None? {
      return None;
    }
    var boundary := "--" + m.value;
    var audio, language, prompt: Option<string> := None, None, None;
    var parts := Split(raw, boundary);
    for k := 0 to |parts|
      invariant Parsed(parts[k..], Form(audio, language, prompt), Text) == Parsed(parts, EMPTY, Text)
    {
      var part := parts[k];
      assert parts[k..][0] == part && parts[k..][1..] == parts[k + 1..];
      var found := Find(HEADER_END, part);
      if found.None? {
        continue;
      }
      var head, body := part[..found.value], Stripped(part[found.value + |HEADER_END|..]);
      var name := NameIn(head);
      if name.None? {
        continue;
      }
      if name.value == "file" || name.value == "audio" {
        audio := Some(body);
      } else if name.value == "language" {
        language := Some(Text(body));
      } else if name.value == "prompt" {
        prompt := Some(Text(body));
      }
    }
    form := Some(Form(audio, language, prompt));
  }

  // ----- The printer -----

  const DISPOSITION := "Content-Disposition: form-data; "
  const FILE_NAME := "name=\"file\"; filename=\""
  const CONTENT_TYPE := "Content-Type: audio/wav"
  const LANGUAGE_NAME := "name=\"language\""

  function FileHead(fileName: string): string {
    CRLF + (DISPOSITION + (FILE_NAME + (fileName + "\""))) + CRLF + CONTENT_TYPE
  }

  function LanguageHead(): string {
    CRLF + (DISPOSITION + LANGUAGE_NAME)
  }

  function Part(head: string, content: string): string {
    head + HEADER_END + (content + CRLF)
  }

  /** Two parts between delimiters, and the closing delimiter. */
  function Body(d: string, fileHead: string, data: string, languageHead: string, language: string): string {
    d + (Part(fileHead, data) + d + (Part(languageHead, language) + d + ("--" + CRLF)))
  }

  /** The body that `post_audio` sends. */
  function PostBody(boundary: string, fileName: string, data: string, language: string): string {
    Body("--" + boundary, FileHead(fileName), data, LanguageHead(), language)
  }

  function ContentType(boundary: string): string {
    "multipart/form-data; boundary=" + boundary
  }

  /** A boundary fits on one line and needs no quoting. */
  predicate IsBoundary(b: string) {
    b != "" && '\r' !in b && '\n' !in b && '"' !in b && ';' !in b
  }
}
