/** What section 9.2.6 of the HTML Living Standard says that a stream means, and where the
    reader agrees with it. */
module EventStreamStandard {
  import opened EventStream
  import opened EventStreamFormat
  import opened Search
  import opened Sequences
  import opened Whitespace
  import opened Wrappers

  // ----- Raw lines and the lines of the standard -----

  /** The lines of a stream between its line feeds, as they are on the wire. */
  function RawLines(s: string): seq<string>
    decreases |s|
  {
    match Find("\n", s)
    case None => []
    case Some(i) => [s[..i]] + RawLines(s[i + 1..])
  }

  /** What the reader makes of raw lines. */
  function Read(block: seq<string>): seq<string> {
    if block == [] then [] else [TrimRight(block[0], IsLineEnd)] + Read(block[1..])
  }

  lemma {:induction false} TextsAreRead(s: string)
    ensures Texts(s) == Read(RawLines(s))
    decreases |s|
  {
    var found := Find("\n", s);
    if found.Some? {
      TextsAreRead(s[found.value + 1..]);
    }
  }

  /** The raw line without a carriage return at its end. */
  function WithoutReturn(raw: string): (s: string)
    ensures s <= raw
    ensures s == raw || raw == s + "\r"
  {
    if raw != "" && raw[|raw| - 1] == '\r' then raw[..|raw| - 1] else raw
  }

  /** The lines that the standard sees in a raw line and the line feed behind it: a carriage
      return ends a line too, and one right before the line feed belongs to it. */
  function Pieces(raw: string): (lines: seq<string>)
    ensures lines != []
  {
    Split(WithoutReturn(raw), "\r")
  }

  function StandardLines(block: seq<string>): seq<string> {
    if block == [] then [] else Pieces(block[0]) + StandardLines(block[1..])
  }

  /** The value of a data field: a single space behind the colon is dropped. */
  function StandardValue(line: string): Option<string> {
    if line == "data" then Some("")
    else if "data:" <= line then Some(if |line| > 5 && line[5] == ' ' then line[6..] else line[5..])
    else None
  }

  function StandardValues(lines: seq<string>): seq<string> {
    if lines == [] then [] else Given(StandardValue(lines[0])) + StandardValues(lines[1..])
  }

  /** Nothing is dispatched without a data field. */
  function Dispatched(values: seq<string>): seq<string> {
    if values == [] then [] else [Join(values, "\n")]
  }

  /** What section 9.2.6 dispatches for lines with a blank line behind them, when `values`
      have been collected before. */
  function StandardPayloads(lines: seq<string>, values: seq<string>): seq<string> {
    if lines == [] then Dispatched(values)
    else if lines[0] == "" then Dispatched(values) + StandardPayloads(lines[1..], [])
    else StandardPayloads(lines[1..], values + Given(StandardValue(lines[0])))
  }

  /** A line that is a data field for the standard. */
  predicate IsDataField(line: string) {
    line == "data" || "data:" <= line
  }

  predicate HasTrimEnds(v: string) {
    v != "" ==> !IsSpace(v[0]) && !IsSpace(v[|v| - 1])
  }

  predicate IsBlank(s: string) {
    forall i :: 0 <= i < |s| ==> IsSpace(s[i])
  }

  /** A raw line that reader and standard take alike: behind a carriage return there is no
      data field; no data field is written without a colon; and a value has no white space at
      its ends and nothing but white space behind the carriage return that ends it. */
  predicate IsPlainLine(raw: string) {
    var lines := Pieces(raw);
    && (forall k :: 1 <= k < |lines| ==> !IsDataField(lines[k]))
    && lines[0] != "data"
    && (DATA <= lines[0] ==> HasTrimEnds(StandardValue(lines[0]).value) && IsBlank(Behind(raw, lines[0])))
  }

  /** What follows a first part. */
  function Behind(s: string, part: string): string {
    if |part| <= |s| then s[|part|..] else ""
  }

  predicate IsPlainBlock(block: seq<string>) {
    block != [] ==> IsPlainLine(block[0]) && IsPlainBlock(block[1..])
  }

  /** The first data field, if there is one, has a value. */
  predicate FirstHasValue(lines: seq<string>) {
    lines != [] ==>
      if StandardValue(lines[0]).Some? then StandardValue(lines[0]).value != "" else FirstHasValue(lines[1..])
  }

  /** No blank line stands between two data fields. */
  predicate IsUnbroken(lines: seq<string>, started: bool) {
    lines != [] ==>
      if lines[0] != "" then IsUnbroken(lines[1..], started || StandardValue(lines[0]).Some?)
      else if started then StandardValues(lines[1..]) == []
      else IsUnbroken(lines[1..], false)
  }

  // ----- What is dispatched -----

  lemma {:induction false} DispatchedIff(lines: seq<string>, values: seq<string>)
    ensures StandardPayloads(lines, values) == [] <==> values + StandardValues(lines) == []
  {
    if lines != [] {
      if lines[0] == "" {
        DispatchedIff(lines[1..], []);
        assert StandardValues(lines) == [] + StandardValues(lines[1..]) == StandardValues(lines[1..]);
      } else {
        DispatchedIff(lines[1..], values + Given(StandardValue(lines[0])));
      }
    }
  }

  /** One event with all the values, or several. */
  lemma {:induction false} OneEventIff(lines: seq<string>, values: seq<string>)
    ensures IsUnbroken(lines, values != []) ==>
              StandardPayloads(lines, values) == Dispatched(values + StandardValues(lines))
    ensures !IsUnbroken(lines, values != []) ==> |StandardPayloads(lines, values)| > 1
  {
    if lines == [] {
      assert values + [] == values;
    } else {
      var rest := lines[1..];
      if lines[0] == "" {
        assert StandardValues(lines) == [] + StandardValues(rest) == StandardValues(rest);
        DispatchedIff(rest, []);
        OneEventIff(rest, []);
        assert [] + StandardValues(rest) == StandardValues(rest);
        assert values + [] == values;
      } else {
        var given := Given(StandardValue(lines[0]));
        OneEventIff(rest, values + given);
        Regroup(values, given, StandardValues(rest));
      }
    }
  }

  // ----- Line by line -----

  lemma TrimStep(s: string)
    requires s != ""
    ensures IsSpace(s[0]) ==> TrimSpace(s) == TrimSpace(s[1..])
    ensures !IsSpace(s[0]) && IsSpace(s[|s| - 1]) ==> TrimSpace(s) == TrimSpace(s[..|s| - 1])
  {
  }

  /** White space at the end of a text does not survive trimming. */
  lemma {:induction false} TailIsTrimmed(s: string, tail: string)
    requires forall i :: 0 <= i < |tail| ==> IsSpace(tail[i])
    ensures TrimSpace(s + tail) == TrimSpace(s)
    decreases |s| + |tail|
  {
    var t := s + tail;
    if tail == "" {
      assert t == s;
    } else if s != "" && !IsSpace(s[0]) {
      TailIsTrimmed(s, tail[..|tail| - 1]);
      assert t[0] == s[0] && t[|t| - 1] == tail[|tail| - 1] && t[..|t| - 1] == s + tail[..|tail| - 1];
      TrimStep(t);
    } else if s != "" {
      TailIsTrimmed(s[1..], tail);
      assert t[0] == s[0] && t[1..] == s[1..] + tail;
      TrimStep(t);
      TrimStep(s);
    } else {
      TailIsTrimmed(s, tail[1..]);
      assert t == tail && tail[1..] == "" + tail[1..];
      TrimStep(t);
    }
  }

  /** Dropping the line end takes nothing from a field. */
  lemma ReadLine(raw: string)
    ensures var text := TrimRight(raw, IsLineEnd);
            && (DATA <= text <==> DATA <= raw)
            && (DATA <= raw ==> TrimSpace(text[5..]) == TrimSpace(raw[5..]))
  {
    var text := TrimRight(raw, IsLineEnd);
    assert DATA <= raw ==> raw[4] == DATA[4] == ':' && !IsLineEnd(raw[4]);
    if DATA <= raw {
      var tail := raw[|text|..];
      assert raw[5..] == text[5..] + tail;
      TailIsTrimmed(text[5..], tail);
    }
  }

  /** The first line that the standard sees in a raw line is what is in front of its first
      carriage return. */
  lemma FirstPiece(p: string, raw: string)
    requires '\r' !in p
    ensures p <= raw <==> p <= Pieces(raw)[0]
  {
    var s, first := WithoutReturn(raw), Pieces(raw)[0];
    if p <= raw {
      assert forall i :: 0 <= i < |p| ==> raw[i] == p[i] && p[i] in p;
      assert p <= s;
    }
    FirstPart(s, "\r");
    var found := Find("\r", s);
    if found.Some? {
      var i := found.value;
      AtElements("\r", s, i);
      assert s[i + 0] == "\r"[0];
      assert first == s[..i];
      assert s == first + s[i..];
      assert p <= s ==> |p| <= i;
    } else {
      assert first == s;
    }
  }

  lemma PieceIsPrefix(raw: string)
    ensures Pieces(raw)[0] <= raw
  {
    FirstPart(WithoutReturn(raw), "\r");
  }

  lemma {:induction false} PartsComeFrom(s: string, sep: string, c: char)
    requires sep != "" && c !in s
    ensures forall p :: p in Split(s, sep) ==> c !in p
    decreases |s|
  {
    var found := Find(sep, s);
    if found.Some? {
      PartsComeFrom(s[found.value + |sep|..], sep, c);
    }
  }

  lemma {:induction false} ValuesComeFrom(lines: seq<string>)
    requires forall line :: line in lines ==> '\n' !in line
    ensures forall v :: v in StandardValues(lines) ==> '\n' !in v
  {
    if lines != [] {
      ValuesComeFrom(lines[1..]);
      assert '\n' !in lines[0];
      assert lines[0] == "data" || DATA <= lines[0] ==> '\n' !in StandardValue(lines[0]).value;
    }
  }

  lemma {:induction false} ValuesConcat(a: seq<string>, b: seq<string>)
    ensures StandardValues(a + b) == StandardValues(a) + StandardValues(b)
  {
    if a == [] {
      assert a + b == b;
    } else {
      ValuesConcat(a[1..], b);
      assert (a + b)[1..] == a[1..] + b;
      Regroup(Given(StandardValue(a[0])), StandardValues(a[1..]), StandardValues(b));
    }
  }

  /** What the reader takes from one line. */
  function ReadValue(raw: string): seq<string> {
    if DATA <= raw then [TrimSpace(raw[5..])] else []
  }

  lemma ReadValues(block: seq<string>)
    requires block != []
    ensures Values(Read(block)) == ReadValue(block[0]) + Values(Read(block[1..]))
  {
    ReadLine(block[0]);
    assert Read(block)[1..] == Read(block[1..]);
  }

  /** Trimming takes white space only. */
  lemma {:induction false} TrimmedParts(s: string) returns (a: string, b: string)
    ensures s == a + TrimSpace(s) + b && IsBlank(a) && IsBlank(b)
  {
    if s != "" && IsSpace(s[0]) {
      var c, d := TrimmedParts(s[1..]);
      TrimStep(s);
      a, b := [s[0]] + c, d;
      Regroup([s[0]], c, TrimSpace(s));
      Regroup([s[0]], c + TrimSpace(s), d);
    } else if s != "" && IsSpace(s[|s| - 1]) {
      var c, d := TrimmedParts(s[..|s| - 1]);
      TrimStep(s);
      a, b := c, d + [s[|s| - 1]];
      Regroup(c + TrimSpace(s), d, [s[|s| - 1]]);
    } else {
      a, b := "", "";
    }
  }

  /** Trimming leaves `v` of a text around it exactly if `v` is trim and the rest is blank. */
  lemma TrimLeavesIff(pad: string, v: string, tail: string)
    requires IsBlank(pad)
    ensures TrimSpace(pad + v + tail) == v <==> HasTrimEnds(v) && IsBlank(tail)
  {
    var s := pad + v + tail;
    if HasTrimEnds(v) && IsBlank(tail) {
      TailIsTrimmed(pad + v, tail);
      PadIsTrimmed(pad, v);
      TrimmedIff(v);
    }
    var a, b := TrimmedParts(s);
    if TrimSpace(s) == v {
      if v == "" {
        assert s == a + b;
        assert forall i :: 0 <= i < |tail| ==> tail[i] == s[|pad| + i];
      } else {
        SamePlace(pad, v, tail, a, b);
      }
    }
  }

  /** A text that begins with no space stands at one place only between blanks and the rest. */
  lemma SamePlace(pad: string, v: string, tail: string, a: string, b: string)
    requires v != "" && !IsSpace(v[0]) && IsBlank(pad) && IsBlank(a)
    requires pad + v + tail == a + v + b
    ensures tail == b
  {
    var s := pad + v + tail;
    assert s[|pad|] == v[0] && s[|a|] == v[0];
    assert forall i :: 0 <= i < |pad| ==> s[i] == pad[i] && IsSpace(s[i]);
    assert forall i :: 0 <= i < |a| ==> s[i] == a[i] && IsSpace(s[i]);
    assert s[|pad| + |v|..] == tail && (a + v + b)[|a| + |v|..] == b;
  }

  /** What the reader takes from a data line, in terms of its first piece. */
  lemma DataValueIff(raw: string)
    requires DATA <= raw
    ensures DATA <= Pieces(raw)[0]
    ensures var first := Pieces(raw)[0];
            StandardValue(first) == Some(TrimSpace(raw[5..])) <==>
            HasTrimEnds(StandardValue(first).value) && IsBlank(Behind(raw, first))
  {
    var first := Pieces(raw)[0];
    FirstPiece(DATA, raw);
    PieceIsPrefix(raw);
    var v, tail := StandardValue(first).value, raw[|first|..];
    var pad := if |first| > 5 && first[5] == ' ' then " " else "";
    assert first[5..] == pad + v;
    assert raw == first + tail;
    assert raw[5..] == first[5..] + tail;
    TrimLeavesIff(pad, v, tail);
  }

  lemma {:induction false} NoValuesIff(lines: seq<string>)
    ensures StandardValues(lines) == [] <==> forall k :: 0 <= k < |lines| ==> !IsDataField(lines[k])
  {
    if lines != [] {
      NoValuesIff(lines[1..]);
      assert forall k :: 1 <= k < |lines| ==> lines[k] == lines[1..][k - 1];
      assert forall k :: 0 <= k < |lines[1..]| ==> lines[1..][k] == lines[k + 1];
    }
  }

  /** The reader takes no more values from a line than the standard, and the same ones exactly
      from a plain line. */
  lemma LineValues(raw: string)
    ensures |ReadValue(raw)| <= |StandardValues(Pieces(raw))|
    ensures ReadValue(raw) == StandardValues(Pieces(raw)) <==> IsPlainLine(raw)
  {
    FirstPiece(DATA, raw);
    var lines := Pieces(raw);
    var first, others := Given(StandardValue(lines[0])), StandardValues(lines[1..]);
    assert StandardValues(lines) == first + others;
    assert others == [] ==> first + others == first;
    NoValuesIff(lines[1..]);
    assert (forall k :: 0 <= k < |lines[1..]| ==> !IsDataField(lines[1..][k])) <==>
           (forall k :: 1 <= k < |lines| ==> !IsDataField(lines[k])) by {
      assert forall k :: 1 <= k < |lines| ==> lines[k] == lines[1..][k - 1];
      assert forall k :: 0 <= k < |lines[1..]| ==> lines[1..][k] == lines[k + 1];
    }
    if DATA <= raw {
      DataValueIff(raw);
      assert (first + others)[0] == first[0];
    }
  }

  lemma SameConcat<T>(a: seq<T>, b: seq<T>, c: seq<T>, d: seq<T>)
    requires |a| <= |c| && |b| <= |d|
    ensures a + b == c + d <==> a == c && b == d
  {
    if a + b == c + d {
      assert |a| == |c|;
      assert (a + b)[..|a|] == a && (c + d)[..|c|] == c;
      assert (a + b)[|a|..] == b && (c + d)[|c|..] == d;
    }
  }

  lemma {:induction false} BlockValues(block: seq<string>)
    ensures |Values(Read(block))| <= |StandardValues(StandardLines(block))|
    ensures Values(Read(block)) == StandardValues(StandardLines(block)) <==> IsPlainBlock(block)
  {
    if block != [] {
      BlockValues(block[1..]);
      LineValues(block[0]);
      ReadValues(block);
      ValuesConcat(Pieces(block[0]), StandardLines(block[1..]));
      SameConcat(ReadValue(block[0]), Values(Read(block[1..])),
                 StandardValues(Pieces(block[0])), StandardValues(StandardLines(block[1..])));
    }
  }

  lemma {:induction false} BlockHasLines(block: seq<string>)
    requires forall raw :: raw in block ==> '\n' !in raw
    ensures forall line :: line in StandardLines(block) ==> '\n' !in line
    ensures forall v :: v in Values(Read(block)) ==> '\n' !in v
  {
    if block != [] {
      var raw := block[0];
      assert '\n' !in raw;
      PartsComeFrom(WithoutReturn(raw), "\r", '\n');
      if DATA <= raw {
        TrimmingTakesAway(raw[5..], '\n');
      }
      ReadValues(block);
      BlockHasLines(block[1..]);
    }
  }

  lemma {:induction false} FirstValue(lines: seq<string>)
    ensures FirstHasValue(lines) <==> StandardValues(lines) == [] || StandardValues(lines)[0] != ""
  {
    if lines != [] {
      FirstValue(lines[1..]);
    }
  }

  lemma {:induction false} LeadingEmptyShorter(values: seq<string>)
    ensures |WithoutLeadingEmpty(values)| <= |values|
    ensures |WithoutLeadingEmpty(values)| == |values| ==> WithoutLeadingEmpty(values) == values
    ensures WithoutLeadingEmpty(values) == values <==> values == [] || values[0] != ""
  {
    if values != [] && values[0] == "" {
      LeadingEmptyShorter(values[1..]);
    }
  }

  lemma {:induction false} KeptAreLines(values: seq<string>)
    requires forall v :: v in values ==> '\n' !in v
    ensures forall v :: v in WithoutLeadingEmpty(values) ==> '\n' !in v
  {
    if values != [] && values[0] == "" {
      KeptAreLines(values[1..]);
    }
  }

  /** Events of lines are the same exactly if the lines are. */
  lemma SameEventIff(v: seq<string>, w: seq<string>)
    requires forall x :: x in v ==> '\n' !in x
    requires forall x :: x in w ==> '\n' !in x
    ensures Dispatched(v) == Dispatched(w) <==> v == w
  {
    if v != [] && w != [] {
      LinesAreKept(v);
      LinesAreKept(w);
      assert Dispatched(v) == Dispatched(w) ==> Dispatched(v)[0] == Dispatched(w)[0];
    }
  }

  /** The reader delivers for a block of raw lines what the standard dispatches for it, exactly
      if every line is plain, the first value is not empty, and no carriage return makes a
      blank line between two data fields. */
  lemma AgreesWithStandardIff(block: seq<string>)
    requires forall raw :: raw in block ==> '\n' !in raw
    ensures Given(PayloadOf(Read(block))) == StandardPayloads(StandardLines(block), []) <==>
            && IsPlainBlock(block)
            && FirstHasValue(StandardLines(block))
            && IsUnbroken(StandardLines(block), false)
  {
    var lines, values := StandardLines(block), Values(Read(block));
    var kept, meant := WithoutLeadingEmpty(values), StandardValues(lines);
    OneEventIff(lines, []);
    assert [] + meant == meant;
    BlockValues(block);
    FirstValue(lines);
    LeadingEmptyShorter(values);
    BlockHasLines(block);
    KeptAreLines(values);
    ValuesComeFrom(lines);
    SameEventIff(kept, meant);
    assert Given(PayloadOf(Read(block))) == Dispatched(kept);
    assert kept == meant ==> |values| == |meant| && kept == values;
    assert kept == meant <==> IsPlainBlock(block) && FirstHasValue(lines);
  }

  /** A carriage return inside a raw line makes two lines of it. */
  lemma TwoPieces(a: string, b: string)
    requires '\r' !in a && '\r' !in b && b != ""
    ensures Pieces(a + "\r" + b) == [a, b]
  {
    SingleEndsAt(a, '\r');
    SingleEndsAt(b, '\r');
    FirstCut(a, "\r", b);
    assert b[|b| - 1] in b;
    assert WithoutReturn(a + "\r" + b) == a + "\r" + b;
    assert Split(b, "\r") == SplitFirst(b, "\r");
    assert [a] + [b] == [a, b];
  }

  /** Reader and standard differ on two data fields with a carriage return between them. */
  lemma FieldsInOneLine(a: string, b: string)
    requires '\r' !in a && '\n' !in a && '\r' !in b && '\n' !in b && DATA <= b
    ensures var block := [a + "\r" + b];
            Given(PayloadOf(Read(block))) != StandardPayloads(StandardLines(block), [])
  {
    var raw := a + "\r" + b;
    TwoPieces(a, b);
    SecondField(raw, a, b);
    DisagreeOn(raw);
  }

  lemma SecondField(raw: string, a: string, b: string)
    requires Pieces(raw) == [a, b] && DATA <= b
    ensures !IsPlainLine(raw)
  {
    assert [a, b][1] == b && IsDataField(b);
  }

  lemma DisagreeOn(raw: string)
    requires !IsPlainLine(raw) && '\n' !in raw
    ensures Given(PayloadOf(Read([raw]))) != StandardPayloads(StandardLines([raw]), [])
  {
    AgreesWithStandardIff([raw]);
  }

  lemma BareCarriageReturn()
    ensures var block := ["data:a" + "\r" + "data:b"];
            Given(PayloadOf(Read(block))) != StandardPayloads(StandardLines(block), [])
  {
    FieldsInOneLine("data:a", "data:b");
  }

  // ----- Whole streams -----

  /** Block and standard agree, by the condition above. */
  predicate IsAgreed(block: seq<string>) {
    IsPlainBlock(block) && FirstHasValue(StandardLines(block)) && IsUnbroken(StandardLines(block), false)
  }

  /** What the standard dispatches for lines; data behind the last blank line is discarded. */
  function StandardEvents(lines: seq<string>, values: seq<string>): seq<string> {
    if lines == [] then []
    else if lines[0] == "" then Dispatched(values) + StandardEvents(lines[1..], [])
    else StandardEvents(lines[1..], values + Given(StandardValue(lines[0])))
  }

  /** The lines behind the last line feed that a carriage return ends. */
  function TailLines(s: string): seq<string> {
    var parts := Split(Tail(s), "\r");
    parts[..|parts| - 1]
  }

  /** What the standard dispatches for a stream. */
  function StandardStream(s: string): seq<string> {
    StandardEvents(StandardLines(RawLines(s)) + TailLines(s), [])
  }

  /** No blank line stands behind a data field. */
  predicate IsSilent(lines: seq<string>, started: bool) {
    lines != [] ==>
      if lines[0] == "" then !started && IsSilent(lines[1..], false)
      else IsSilent(lines[1..], started || IsDataField(lines[0]))
  }

  lemma {:induction false} SilentIff(lines: seq<string>, values: seq<string>)
    ensures StandardEvents(lines, values) == [] <==> IsSilent(lines, values != [])
  {
    if lines != [] {
      SilentIff(lines[1..], if lines[0] == "" then [] else values + Given(StandardValue(lines[0])));
    }
  }

  /** Every block that the reader closes is agreed on, and for the standard no blank line
      stands behind a data field of what is left open. */
  predicate AllAgreed(raws: seq<string>, open: seq<string>, tail: seq<string>) {
    if raws == [] then IsSilent(StandardLines(open) + tail, false)
    else if TrimRight(raws[0], IsLineEnd) == "" then IsAgreed(open) && AllAgreed(raws[1..], [], tail)
    else AllAgreed(raws[1..], open + [raws[0]], tail)
  }

  /** A blank line closes what is open. */
  lemma {:induction false} EventsSplit(a: seq<string>, b: seq<string>, values: seq<string>)
    ensures StandardEvents(a + ([""] + b), values) == StandardPayloads(a, values) + StandardEvents(b, [])
  {
    if a == [] {
      assert a + ([""] + b) == [""] + b && ([""] + b)[1..] == b;
    } else {
      assert (a + ([""] + b))[1..] == a[1..] + ([""] + b);
      if a[0] == "" {
        EventsSplit(a[1..], b, []);
        Regroup(Dispatched(values), StandardPayloads(a[1..], []), StandardEvents(b, []));
      } else {
        EventsSplit(a[1..], b, values + Given(StandardValue(a[0])));
      }
    }
  }

  /** More blank lines dispatch nothing. */
  lemma {:induction false} BlankLines(blanks: seq<string>, b: seq<string>)
    requires forall k :: 0 <= k < |blanks| ==> blanks[k] == ""
    ensures StandardEvents(blanks + b, []) == StandardEvents(b, [])
  {
    if blanks == [] {
      assert blanks + b == b;
    } else {
      BlankLines(blanks[1..], b);
      assert (blanks + b)[1..] == blanks[1..] + b;
      assert Dispatched([]) + StandardEvents(b, []) == StandardEvents(b, []);
    }
  }

  lemma {:induction false} OnlyReturns(s: string)
    requires forall i :: 0 <= i < |s| ==> s[i] == '\r'
    ensures forall k :: 0 <= k < |Split(s, "\r")| ==> Split(s, "\r")[k] == ""
  {
    if s == "" {
      assert Split(s, "\r") == SplitFirst(s, "\r");
    } else {
      assert s[0..1] == "\r";
      assert At("\r", s, 0) && Find("\r", s) == Some(0);
      SplitAt(s, "\r", 0);
      OnlyReturns(s[1..]);
      assert Split(s, "\r") == [s[..0]] + Split(s[1..], "\r");
    }
  }

  /** A raw line that is blank for the reader is one or more blank lines for the standard. */
  lemma BlankRaw(raw: string)
    requires TrimRight(raw, IsLineEnd) == "" && '\n' !in raw
    ensures forall k :: 0 <= k < |Pieces(raw)| ==> Pieces(raw)[k] == ""
  {
    forall i | 0 <= i < |raw|
      ensures raw[i] == '\r'
    {
      assert IsLineEnd(raw[i]) && raw[i] in raw;
    }
    OnlyReturns(WithoutReturn(raw));
  }

  /** What a closing raw line does to the standard. */
  lemma ClosedByRaw(a: seq<string>, raw: string, b: seq<string>)
    requires TrimRight(raw, IsLineEnd) == "" && '\n' !in raw
    ensures StandardEvents(a + (Pieces(raw) + b), []) == StandardPayloads(a, []) + StandardEvents(b, [])
  {
    BlankRaw(raw);
    var pieces := Pieces(raw);
    assert pieces + b == [""] + (pieces[1..] + b);
    EventsSplit(a, pieces[1..] + b, []);
    BlankLines(pieces[1..], b);
  }

  lemma FirstRaw(raw: string, rest: seq<string>)
    ensures StandardLines([raw] + rest) == Pieces(raw) + StandardLines(rest)
    ensures Read([raw] + rest) == [TrimRight(raw, IsLineEnd)] + Read(rest)
  {
    assert ([raw] + rest)[1..] == rest;
  }

  lemma {:induction false} LinesSnoc(block: seq<string>, raw: string)
    ensures StandardLines(block + [raw]) == StandardLines(block) + Pieces(raw)
    ensures Read(block + [raw]) == Read(block) + [TrimRight(raw, IsLineEnd)]
  {
    if block == [] {
      FirstRaw(raw, []);
      assert block + [raw] == [raw] + [];
    } else {
      var x, rest := block[0], block[1..];
      LinesSnoc(rest, raw);
      FirstRaw(x, rest);
      FirstRaw(x, rest + [raw]);
      assert block == [x] + rest;
      Regroup([x], rest, [raw]);
      Regroup(Pieces(x), StandardLines(rest), Pieces(raw));
      Regroup([TrimRight(x, IsLineEnd)], Read(rest), [TrimRight(raw, IsLineEnd)]);
    }
  }

  /** The reader never delivers more for a block than the standard dispatches. */
  lemma ReaderGivesNoMore(block: seq<string>)
    ensures |Given(PayloadOf(Read(block)))| <= |StandardPayloads(StandardLines(block), [])|
  {
    BlockValues(block);
    DispatchedIff(StandardLines(block), []);
    LeadingEmptyShorter(Values(Read(block)));
  }

  /** So nothing that one block loses is made up for by another. */
  lemma {:induction false} BlocksAgreeIff(raws: seq<string>, open: seq<string>, tail: seq<string>)
    requires forall raw :: raw in raws ==> '\n' !in raw
    requires forall raw :: raw in open ==> '\n' !in raw
    ensures var read := PayloadsOf(Blocks(Read(raws), Read(open)));
            var meant := StandardEvents(StandardLines(open) + (StandardLines(raws) + tail), []);
            |read| <= |meant| && (read == meant <==> AllAgreed(raws, open, tail))
  {
    if raws == [] {
      SilentIff(StandardLines(open) + tail, []);
      assert StandardLines(raws) + tail == tail;
      assert Blocks(Read(raws), Read(open)) == [];
    } else {
      var raw, rest := raws[0], raws[1..];
      var text, later := TrimRight(raw, IsLineEnd), StandardLines(rest) + tail;
      assert raw in raws;
      Regroup(Pieces(raw), StandardLines(rest), tail);
      BlocksStep(text, Read(rest), Read(open));
      if text == "" {
        BlocksAgreeIff(rest, [], tail);
        AgreesWithStandardIff(open);
        ReaderGivesNoMore(open);
        ClosedByRaw(StandardLines(open), raw, later);
        assert StandardLines([]) + later == later;
        SameConcat(Given(PayloadOf(Read(open))), PayloadsOf(Blocks(Read(rest), [])),
                   StandardPayloads(StandardLines(open), []), StandardEvents(later, []));
      } else {
        BlocksAgreeIff(rest, open + [raw], tail);
        LinesSnoc(open, raw);
        Regroup(StandardLines(open), Pieces(raw), later);
      }
    }
  }

  lemma {:induction false} RawLinesHaveNoEnd(s: string)
    ensures forall raw :: raw in RawLines(s) ==> '\n' !in raw
    decreases |s|
  {
    var found := Find("\n", s);
    if found.Some? {
      RawLinesHaveNoEnd(s[found.value + 1..]);
      var raw := s[..found.value];
      forall i | 0 <= i < |raw|
        ensures raw[i] != '\n'
      {
        assert !At("\n", s, i);
        assert s[i..i + 1] == [raw[i]];
      }
    }
  }

  /** A stream delivers what the standard dispatches for it, its unfinished end included,
      exactly if every block of it is agreed on and its end is silent. */
  lemma StreamAgreesIff(s: string)
    ensures Payloads(s) == StandardStream(s) <==> AllAgreed(RawLines(s), [], TailLines(s))
  {
    TextsAreRead(s);
    RawLinesHaveNoEnd(s);
    BlocksAgreeIff(RawLines(s), [], TailLines(s));
    var lines := StandardLines(RawLines(s)) + TailLines(s);
    assert StandardLines([]) + lines == lines;
  }
}
