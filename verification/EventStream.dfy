/** The server-sent event reader of backend/internal/adapter/opencode_http.go, against
    section 9.2.6 of the HTML Living Standard. */
module EventStream {
  import opened Search
  import opened Sequences
  import opened Whitespace
  import opened Wrappers

  predicate IsLineEnd(c: char) {
    c == '\r' || c == '\n'
  }

  // ----- Lines and blocks -----

  /** The complete lines of a stream without their ends; an unfinished line is dropped. */
  function Texts(s: string): seq<string>
    decreases |s|
  {
    match Find("\n", s)
    case None => []
    case Some(i) => [TrimRight(s[..i], IsLineEnd)] + Texts(s[i + 1..])
  }

  /** Blank lines close blocks; `open` holds the lines of the block that is still open. */
  function Blocks(texts: seq<string>, open: seq<string>): seq<seq<string>> {
    if texts == [] then []
    else if texts[0] == "" then [open] + Blocks(texts[1..], [])
    else Blocks(texts[1..], open + [texts[0]])
  }

  const DATA := "data:"

  function Values(block: seq<string>): seq<string> {
    if block == [] then []
    else (if DATA <= block[0] then [TrimSpace(block[0][5..])] else []) + Values(block[1..])
  }

  /** Empty values before the first other one leave no trace in the buffer. */
  function WithoutLeadingEmpty(values: seq<string>): (r: seq<string>)
    ensures r != [] ==> r[0] != ""
  {
    if values != [] && values[0] == "" then WithoutLeadingEmpty(values[1..]) else values
  }

  function Joined(values: seq<string>): string {
    if values == [] then "" else Join(values, "\n")
  }

  /** The payload that a block delivers. */
  function PayloadOf(block: seq<string>): Option<string> {
    var values := WithoutLeadingEmpty(Values(block));
    if values == [] then None else Some(Joined(values))
  }

  function Given<T>(o: Option<T>): seq<T> {
    match o
    case None => []
    case Some(x) => [x]
  }

  function PayloadsOf(blocks: seq<seq<string>>): seq<string> {
    if blocks == [] then []
    else Given(PayloadOf(blocks[0])) + PayloadsOf(blocks[1..])
  }

  /** The payloads that a stream delivers. */
  function Payloads(s: string): seq<string> {
    PayloadsOf(Blocks(Texts(s), []))
  }

  /** Payloads that cannot be decoded are skipped. */
  function Decoded<E>(payloads: seq<string>, decode: string -> Option<E>): seq<E> {
    if payloads == [] then []
    else Given(decode(payloads[0])) + Decoded(payloads[1..], decode)
  }

  // ----- The reader loop -----

  lemma {:induction false} JoinSnoc(parts: seq<string>, x: string)
    requires parts != []
    ensures Join(parts + [x], "\n") == Join(parts, "\n") + "\n" + x
  {
    if |parts| > 1 {
      JoinSnoc(parts[1..], x);
      assert (parts + [x])[1..] == parts[1..] + [x];
    } else {
      assert (parts + [x])[1..] == [x];
    }
  }

  lemma {:induction false} ValuesSnoc(block: seq<string>, text: string)
    ensures Values(block + [text]) == Values(block) + if DATA <= text then [TrimSpace(text[5..])] else []
  {
    if block != [] {
      ValuesSnoc(block[1..], text);
      assert (block + [text])[1..] == block[1..] + [text];
    } else {
      assert [text][1..] == [];
    }
  }

  lemma {:induction false} WithoutLeadingEmptySnoc(values: seq<string>, v: string)
    ensures WithoutLeadingEmpty(values + [v])
         == if WithoutLeadingEmpty(values) == [] && v == "" then [] else WithoutLeadingEmpty(values) + [v]
  {
    if values == [] {
      assert [v][1..] == [];
    } else if values[0] == "" {
      WithoutLeadingEmptySnoc(values[1..], v);
      assert (values + [v])[1..] == values[1..] + [v];
    }
  }

  lemma {:induction false} JoinStartsWithFirst(parts: seq<string>)
    requires parts != []
    ensures |Join(parts, "\n")| >= |parts[0]|
  {
  }

  /** What the buffer holds while the lines of `block` have been read. */
  function Buffered(block: seq<string>): string {
    Joined(WithoutLeadingEmpty(Values(block)))
  }

  lemma BufferedEmptyIff(block: seq<string>)
    ensures Buffered(block) == "" <==> PayloadOf(block).None?
  {
    var values := WithoutLeadingEmpty(Values(block));
    if values != [] {
      JoinStartsWithFirst(values);
    }
  }

  lemma BufferedStep(block: seq<string>, text: string)
    requires DATA <= text
    ensures Buffered(block + [text])
         == Buffered(block) + (if Buffered(block) != "" then "\n" else "") + TrimSpace(text[5..])
  {
    var v := TrimSpace(text[5..]);
    var values := Values(block);
    ValuesSnoc(block, text);
    WithoutLeadingEmptySnoc(values, v);
    BufferedEmptyIff(block);
    if WithoutLeadingEmpty(values) != [] {
      JoinSnoc(WithoutLeadingEmpty(values), v);
    }
  }

  /** What the loop of `SubscribeEvents` does with one line: a blank line hands the buffer
      over if there is anything in it, and a data line adds to it. */
  method HandleLine(line: string, dataBuffer: string, ghost open: seq<string>)
      returns (rawData: Option<string>, buffer: string)
    requires dataBuffer == Buffered(open)
    ensures line == "" ==> rawData == PayloadOf(open) && buffer == ""
    ensures line != "" ==> rawData == None && buffer == Buffered(open + [line])
  {
    rawData, buffer := None, dataBuffer;
    if line == "" {
      BufferedEmptyIff(open);
      if buffer == "" {
        return;
      }
      rawData, buffer := Some(buffer), "";
    } else if DATA <= line {
      BufferedStep(open, line);
      var payload := TrimSpace(line[5..]);
      if |buffer| > 0 {
        buffer := buffer + "\n";
      }
      buffer := buffer + payload;
    } else {
      ValuesSnoc(open, line);
      assert Values(open) + [] == Values(open);
    }
  }

  /** `ReadString`: the line up to and including its end, without the end, and what follows. */
  function NextLine(s: string): (r: Option<(string, string)>)
    ensures r.Some? ==> |r.value.1| < |s|
    ensures Texts(s) == match r case None => [] case Some((line, rest)) => [line] + Texts(rest)
  {
    match Find("\n", s)
    case None => None
    case Some(i) =>
      TrimRightDropsTail(s[..i], "\n", IsLineEnd);
      assert s[..i + 1] == s[..i] + "\n";
      Some((TrimRight(s[..i + 1], IsLineEnd), s[i + 1..]))
  }

  lemma {:induction false} DecodedSnoc<E>(payloads: seq<string>, p: string, decode: string -> Option<E>)
    ensures Decoded(payloads + [p], decode)
         == Decoded(payloads, decode) + Given(decode(p))
  {
    if payloads != [] {
      assert (payloads + [p])[1..] == payloads[1..] + [p];
      DecodedSnoc(payloads[1..], p, decode);
    } else {
      assert [p][1..] == [];
    }
  }

  lemma BlocksStep(line: string, texts: seq<string>, open: seq<string>)
    ensures PayloadsOf(Blocks([line] + texts, open))
         == if line == "" then Given(PayloadOf(open)) + PayloadsOf(Blocks(texts, []))
            else PayloadsOf(Blocks(texts, open + [line]))
  {
    assert ([line] + texts)[1..] == texts;
    assert line == "" ==> ([open] + Blocks(texts, []))[1..] == Blocks(texts, []);
  }

  /** What is still to come, split at the next line. */
  lemma LineStep(done: seq<string>, line: string, texts: seq<string>, open: seq<string>)
    ensures done + PayloadsOf(Blocks([line] + texts, open))
         == if line == "" then done + Given(PayloadOf(open)) + PayloadsOf(Blocks(texts, []))
            else done + PayloadsOf(Blocks(texts, open + [line]))
  {
    BlocksStep(line, texts, open);
    Regroup(done, Given(PayloadOf(open)), PayloadsOf(Blocks(texts, [])));
  }

  /** The loop of `SubscribeEvents` over everything the server sends. */
  method ReadEvents<E>(stream: string, decode: string -> Option<E>) returns (events: seq<E>)
    ensures events == Decoded(Payloads(stream), decode)
  {
    events := [];
    var rest, dataBuffer := stream, "";
    ghost var open: seq<string>, done: seq<string> := [], [];
    while true
      invariant dataBuffer == Buffered(open)
      invariant Payloads(stream) == done + PayloadsOf(Blocks(Texts(rest), open))
      invariant events == Decoded(done, decode)
      decreases |rest|
    {
      var next := NextLine(rest);
      if next.None? {
        assert done + [] == done;
        return;
      }
      var line := next.value.0;
      rest := next.value.1;
      LineStep(done, line, Texts(rest), open);
      var rawData: Option<string>;
      rawData, dataBuffer := HandleLine(line, dataBuffer, open);
      open := if line == "" then [] else open + [line];
      if rawData.None? {
        assert line == "" ==> done + Given(rawData) == done;
        continue;
      }
      DecodedSnoc(done, rawData.value, decode);
      done := done + [rawData.value];
      var event := decode(rawData.value);
      if event.None? {
        continue;
      }
      events := events + [event.value];
    }
  }

  // ----- Streams that arrive in parts -----

  /** The unfinished line at the end of a stream. */
  function Tail(s: string): string
    decreases |s|
  {
    match Find("\n", s)
    case None => s
    case Some(i) => Tail(s[i + 1..])
  }

  /** The lines of the block that is still open after `texts`. */
  function OpenBlock(texts: seq<string>, open: seq<string>): seq<string> {
    if texts == [] then open
    else OpenBlock(texts[1..], if texts[0] == "" then [] else open + [texts[0]])
  }

  lemma FindLineEnd(s: string, t: string)
    requires Find("\n", s).Some?
    ensures Find("\n", s + t) == Find("\n", s)
  {
    var i := Find("\n", s).value;
    assert (s + t)[i..i + 1] == s[i..i + 1];
    assert At("\n", s + t, i);
    forall j | 0 <= j < i
      ensures !At("\n", s + t, j)
    {
      assert (s + t)[j..j + 1] == s[j..j + 1];
      assert !At("\n", s, j);
    }
  }

  lemma NextLineInParts(s: string, t: string)
    requires Find("\n", s).Some?
    ensures var i := Find("\n", s).value;
            Texts(s + t) == [TrimRight(s[..i], IsLineEnd)] + Texts(s[i + 1..] + t)
  {
    var i := Find("\n", s).value;
    FindLineEnd(s, t);
    assert (s + t)[..i] == s[..i] && (s + t)[i + 1..] == s[i + 1..] + t;
  }

  lemma {:induction false} TextsInParts(s: string, t: string)
    ensures Texts(s + t) == Texts(s) + Texts(Tail(s) + t)
    decreases |s|
  {
    var found := Find("\n", s);
    if found.Some? {
      var i := found.value;
      NextLineInParts(s, t);
      TextsInParts(s[i + 1..], t);
      Regroup([TrimRight(s[..i], IsLineEnd)], Texts(s[i + 1..]), Texts(Tail(s) + t));
    }
  }

  lemma {:induction false} BlocksInParts(a: seq<string>, b: seq<string>, open: seq<string>)
    ensures Blocks(a + b, open) == Blocks(a, open) + Blocks(b, OpenBlock(a, open))
  {
    if a == [] {
      assert a + b == b;
    } else {
      assert (a + b)[1..] == a[1..] + b;
      BlocksInParts(a[1..], b, if a[0] == "" then [] else open + [a[0]]);
    }
  }

  lemma {:induction false} PayloadsInParts(a: seq<seq<string>>, b: seq<seq<string>>)
    ensures PayloadsOf(a + b) == PayloadsOf(a) + PayloadsOf(b)
  {
    if a == [] {
      assert a + b == b;
    } else {
      assert (a + b)[1..] == a[1..] + b;
      PayloadsInParts(a[1..], b);
    }
  }

  /** The payloads of a stream are those of any first part and then those of the rest,
      read with the unfinished line and the open block of the first part in front. */
  lemma ArrivalInParts(s: string, t: string)
    ensures Payloads(s + t)
         == Payloads(s) + PayloadsOf(Blocks(Texts(Tail(s) + t), OpenBlock(Texts(s), [])))
  {
    TextsInParts(s, t);
    BlocksInParts(Texts(s), Texts(Tail(s) + t), []);
    PayloadsInParts(Blocks(Texts(s), []), Blocks(Texts(Tail(s) + t), OpenBlock(Texts(s), [])));
  }

  /** The stream ends where an event ends: behind a blank line, or where it begins. */
  predicate AtBoundary(s: string) {
    Tail(s) == "" && (Texts(s) == [] || Texts(s)[|Texts(s)| - 1] == "")
  }

  lemma {:induction false} NothingOpenBehindBlank(texts: seq<string>, open: seq<string>)
    requires texts != [] && texts[|texts| - 1] == ""
    ensures OpenBlock(texts, open) == []
  {
    if |texts| > 1 {
      NothingOpenBehindBlank(texts[1..], if texts[0] == "" then [] else open + [texts[0]]);
    }
  }

  /** Reading splits at event boundaries. */
  lemma SplitsAtBoundary(s: string, t: string)
    requires AtBoundary(s)
    ensures Payloads(s + t) == Payloads(s) + Payloads(t)
  {
    ArrivalInParts(s, t);
    if Texts(s) != [] {
      NothingOpenBehindBlank(Texts(s), []);
    }
    assert Tail(s) + t == t;
  }

  lemma {:induction false} NoBlankNoBlock(texts: seq<string>, open: seq<string>)
    requires "" !in texts
    ensures Blocks(texts, open) == []
  {
    if texts != [] {
      assert texts[0] != "";
      NoBlankNoBlock(texts[1..], open + [texts[0]]);
    }
  }

  /** Data behind the last blank line is never delivered. */
  lemma UnterminatedTailYieldsNothing(s: string, t: string)
    requires "" !in Texts(Tail(s) + t)
    ensures Payloads(s + t) == Payloads(s)
  {
    ArrivalInParts(s, t);
    NoBlankNoBlock(Texts(Tail(s) + t), OpenBlock(Texts(s), []));
    assert Payloads(s) + PayloadsOf([]) == Payloads(s);
  }
}
