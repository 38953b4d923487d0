/** Event streams as servers print them, and how they are read back. */
module EventStreamFormat {
  import opened EventStream
  import opened Search
  import opened Sequences
  import opened Whitespace
  import opened Wrappers

  // ----- Printed streams are read back -----

  /** A line that survives its line end: without one inside, and not ending in a CR. */
  predicate IsLine(text: string) {
    '\n' !in text && (text != "" ==> text[|text| - 1] != '\r')
  }

  function LineEnd(crlf: bool): string {
    if crlf then "\r\n" else "\n"
  }

  /** Lines on the wire, each with LF or CRLF behind it. */
  function Wire(texts: seq<string>, crlf: seq<bool>): string
    requires |texts| == |crlf|
  {
    if texts == [] then ""
    else texts[0] + LineEnd(crlf[0]) + Wire(texts[1..], crlf[1..])
  }

  lemma FindFirst(p: string, rest: string)
    requires '\n' !in p
    ensures Find("\n", p + "\n" + rest) == Some(|p|)
  {
    var s := p + "\n" + rest;
    assert s[|p|..|p| + 1] == "\n";
    assert At("\n", s, |p|);
    forall j | 0 <= j < |p|
      ensures !At("\n", s, j)
    {
      assert s[j..j + 1][0] == p[j];
    }
  }

  lemma OneLine(text: string, crlf: bool, rest: string)
    requires IsLine(text)
    ensures Texts(text + LineEnd(crlf) + rest) == [text] + Texts(rest)
  {
    var p := if crlf then text + "\r" else text;
    FindFirst(p, rest);
    var s := p + "\n" + rest;
    assert s == text + LineEnd(crlf) + rest;
    assert s[..|p|] == p && s[|p| + 1..] == rest;
    TrimRightKeepsEnd(text, IsLineEnd);
    if crlf {
      TrimRightDropsTail(text, "\r", IsLineEnd);
    }
  }

  lemma WireStep(texts: seq<string>, crlf: seq<bool>, tail: string)
    requires |texts| == |crlf| && texts != []
    ensures Wire(texts, crlf) + tail == texts[0] + LineEnd(crlf[0]) + (Wire(texts[1..], crlf[1..]) + tail)
  {
    var line, rest := texts[0] + LineEnd(crlf[0]), Wire(texts[1..], crlf[1..]);
    assert line + rest + tail == line + (rest + tail);
  }

  lemma {:induction false} WireIsRead(texts: seq<string>, crlf: seq<bool>, tail: string)
    requires |texts| == |crlf| && forall t :: t in texts ==> IsLine(t)
    ensures Texts(Wire(texts, crlf) + tail) == texts + Texts(tail)
  {
    if texts == [] {
      assert Wire(texts, crlf) + tail == tail;
      assert texts + Texts(tail) == Texts(tail);
    } else {
      WireStep(texts, crlf, tail);
      assert texts[0] in texts;
      OneLine(texts[0], crlf[0], Wire(texts[1..], crlf[1..]) + tail);
      WireIsRead(texts[1..], crlf[1..], tail);
      Prepend(texts, Texts(tail));
    }
  }

  lemma Prepend<T>(s: seq<T>, t: seq<T>)
    requires s != []
    ensures s + t == [s[0]] + (s[1..] + t)
  {
  }

  /** One line of a printed event: a value behind any padding, or a field that is ignored. */
  datatype Item = Data(pad: string, value: string) | Ignored(text: string) {
    function Text(): string {
      match this
      case Data(pad, value) => DATA + pad + value
      case Ignored(text) => text
    }

    predicate Plain() {
      match this
      case Data(pad, value) =>
        && (forall c :: c in pad ==> IsSpace(c) && c != '\n')
        && value != "" && '\n' !in value && TrimSpace(value) == value
      case Ignored(text) =>
        IsLine(text) && text != "" && !(DATA <= text)
    }
  }

  /** A printed event: its lines, a blank line, and `gap` more blank lines. */
  datatype Printed = Printed(items: seq<Item>, gap: nat) {
    predicate Plain() {
      forall it :: it in items ==> it.Plain()
    }
  }

  function ItemTexts(items: seq<Item>): seq<string> {
    if items == [] then [] else [items[0].Text()] + ItemTexts(items[1..])
  }

  function ItemValues(items: seq<Item>): seq<string> {
    if items == [] then []
    else (if items[0].Data? then [items[0].value] else []) + ItemValues(items[1..])
  }

  function Blanks(n: nat): seq<string> {
    if n == 0 then [] else [""] + Blanks(n - 1)
  }

  function PrintedTexts(events: seq<Printed>): seq<string> {
    if events == [] then []
    else ItemTexts(events[0].items) + ([""] + Blanks(events[0].gap)) + PrintedTexts(events[1..])
  }

  /** The payloads of the events that carry data. */
  function Intended(events: seq<Printed>): seq<string> {
    if events == [] then []
    else
      var values := ItemValues(events[0].items);
      (if values == [] then [] else [Join(values, "\n")]) + Intended(events[1..])
  }

  lemma PadIsDropped(pad: string, value: string)
    requires forall c :: c in pad ==> IsSpace(c)
    requires TrimSpace(value) == value
    ensures TrimSpace(pad + value) == value
  {
    forall i | 0 <= i < |pad|
      ensures IsSpace(pad[i])
    {
      assert pad[i] in pad;
    }
    PadIsTrimmed(pad, value);
  }

  lemma DataShape(pad: string, value: string)
    requires '\n' !in pad && '\n' !in value && value != "" && value[|value| - 1] != '\r'
    ensures IsLine(DATA + pad + value) && (DATA + pad + value)[5..] == pad + value
    ensures DATA <= DATA + pad + value
  {
    var text := DATA + pad + value;
    assert text[|text| - 1] == value[|value| - 1];
    assert text == DATA + (pad + value);
  }

  lemma ItemIsLine(it: Item)
    requires it.Plain()
    ensures IsLine(it.Text()) && it.Text() != ""
    ensures it.Data? <==> DATA <= it.Text()
    ensures it.Data? ==> TrimSpace(it.Text()[5..]) == it.value
  {
    if it.Data? {
      PadIsDropped(it.pad, it.value);
      TrimmedIff(it.value);
      DataShape(it.pad, it.value);
    }
  }

  lemma {:induction false} ItemsAreLines(items: seq<Item>)
    requires forall it :: it in items ==> it.Plain()
    ensures forall t :: t in ItemTexts(items) ==> IsLine(t) && t != ""
    ensures Values(ItemTexts(items)) == ItemValues(items)
    ensures forall v :: v in ItemValues(items) ==> v != "" && '\n' !in v
  {
    if items != [] {
      ItemIsLine(items[0]);
      ItemsAreLines(items[1..]);
      assert ItemTexts(items)[1..] == ItemTexts(items[1..]);
    }
  }

  lemma {:induction false} OpenBlockGrows(texts: seq<string>, open: seq<string>)
    requires "" !in texts
    ensures OpenBlock(texts, open) == open + texts
  {
    if texts != [] {
      assert texts[0] != "";
      OpenBlockGrows(texts[1..], open + [texts[0]]);
    }
  }

  lemma BlankDeliversNothing(rest: seq<string>)
    ensures PayloadsOf(Blocks([""] + rest, [])) == PayloadsOf(Blocks(rest, []))
  {
    BlocksStep("", rest, []);
    assert PayloadOf([]) == None;
    assert [] + PayloadsOf(Blocks(rest, [])) == PayloadsOf(Blocks(rest, []));
  }

  lemma {:induction false} BlanksDeliverNothing(n: nat, rest: seq<string>)
    ensures PayloadsOf(Blocks(Blanks(n) + rest, [])) == PayloadsOf(Blocks(rest, []))
  {
    if n == 0 {
      assert Blanks(0) + rest == rest;
    } else {
      BlanksDeliverNothing(n - 1, rest);
      Regroup([""], Blanks(n - 1), rest);
      BlankDeliversNothing(Blanks(n - 1) + rest);
    }
  }

  lemma ClosedBlock(texts: seq<string>, rest: seq<string>)
    requires "" !in texts
    ensures Blocks(texts + ([""] + rest), []) == [texts] + Blocks(rest, [])
  {
    BlocksInParts(texts, [""] + rest, []);
    NoBlankNoBlock(texts, []);
    OpenBlockGrows(texts, []);
    assert [] + texts == texts;
    assert ([""] + rest)[1..] == rest;
  }

  lemma OneEvent(texts: seq<string>, gap: nat, rest: seq<string>)
    requires "" !in texts
    ensures PayloadsOf(Blocks(texts + ([""] + Blanks(gap)) + rest, []))
         == Given(PayloadOf(texts)) + PayloadsOf(Blocks(rest, []))
  {
    var behind := Blanks(gap) + rest;
    assert texts + ([""] + Blanks(gap)) + rest == texts + ([""] + behind);
    ClosedBlock(texts, behind);
    assert ([texts] + Blocks(behind, []))[1..] == Blocks(behind, []);
    BlanksDeliverNothing(gap, rest);
  }

  lemma NoLeadingEmpty(values: seq<string>)
    requires forall v :: v in values ==> v != ""
    ensures WithoutLeadingEmpty(values) == values
  {
    assert values != [] ==> values[0] in values;
  }

  lemma {:induction false} PrintedTextsAreLines(events: seq<Printed>)
    requires forall e :: e in events ==> e.Plain()
    ensures forall t :: t in PrintedTexts(events) ==> IsLine(t)
    ensures PayloadsOf(Blocks(PrintedTexts(events), [])) == Intended(events)
  {
    if events != [] {
      var e := events[0];
      assert e in events;
      PrintedTextsAreLines(events[1..]);
      ItemsAreLines(e.items);
      BlanksAreLines(e.gap);
      OneEvent(ItemTexts(e.items), e.gap, PrintedTexts(events[1..]));
      NoLeadingEmpty(ItemValues(e.items));
    }
  }

  lemma {:induction false} BlanksAreLines(n: nat)
    ensures forall t :: t in Blanks(n) ==> IsLine(t)
  {
    if n > 0 {
      BlanksAreLines(n - 1);
    }
  }

  /** Any list of events, printed with any padding, line ends, ignored fields and extra
      blank lines, is read back as exactly its payloads in order; what follows without a
      blank line adds nothing. */
  lemma PrintedIsRead(events: seq<Printed>, crlf: seq<bool>, tail: string)
    requires forall e :: e in events ==> e.Plain()
    requires |crlf| == |PrintedTexts(events)|
    requires "" !in Texts(tail)
    ensures Payloads(Wire(PrintedTexts(events), crlf) + tail) == Intended(events)
  {
    PrintedTextsAreLines(events);
    var s := Wire(PrintedTexts(events), crlf);
    WireIsRead(PrintedTexts(events), crlf, "");
    WireIsRead(PrintedTexts(events), crlf, tail);
    assert s + "" == s;
    assert PrintedTexts(events) + [] == PrintedTexts(events);
    BlocksInParts(PrintedTexts(events), Texts(tail), []);
    NoBlankNoBlock(Texts(tail), OpenBlock(PrintedTexts(events), []));
    assert Blocks(PrintedTexts(events), []) + [] == Blocks(PrintedTexts(events), []);
  }

  /** The lines of an event can be told apart again in its payload. */
  lemma PayloadKeepsLines(items: seq<Item>)
    requires forall it :: it in items ==> it.Plain()
    requires ItemValues(items) != []
    ensures Split(Join(ItemValues(items), "\n"), "\n") == ItemValues(items)
  {
    ItemsAreLines(items);
    LinesAreKept(ItemValues(items));
  }

  /** Lines without line ends are recovered from their joined text. */
  lemma LinesAreKept(values: seq<string>)
    requires values != [] && forall v :: v in values ==> '\n' !in v
    ensures Split(Join(values, "\n"), "\n") == values
  {
    forall k | 0 <= k < |values|
      ensures EndsAt(values[k], "\n") && !Occurs("\n", values[k])
    {
      assert values[k] in values;
      SingleEndsAt(values[k], '\n');
    }
    SplitJoin(values, "\n");
  }
}
