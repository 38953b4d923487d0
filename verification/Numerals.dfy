/** Chinese numerals as scripts/eval-asr-accuracy.py reads them. */
module Numerals {
  import opened Sequences
  import opened Wrappers

  type DigitValue = d: nat | d < 10

  /** The characters the script tells apart. `variant` separates the two ways of writing
      zero and two, `Fen` and `Zhi` are the ends of the words for per cent and per mille,
      and `Ascii` is a decimal digit. */
  datatype Glyph =
    | Digit(value: DigitValue, variant: bool)
    | Shi | Bai | Qian | Wan | Yi
    | Measure(which: nat)
    | Fen | Zhi
    | Ascii(digit: DigitValue)
    | Other(code: nat)
  {
    predicate IsSmall() {
      Shi? || Bai? || Qian?
    }

    predicate IsBig() {
      Wan? || Yi?
    }

    predicate IsUnit() {
      IsSmall() || IsBig()
    }

    predicate IsNumeral() {
      Digit? || IsUnit()
    }

    function UnitValue(): nat
      requires IsUnit()
    {
      match this
      case Shi => 10
      case Bai => 100
      case Qian => 1000
      case Wan => 10000
      case Yi => 100000000
    }
  }

  type Text = seq<Glyph>

  /** The text starts with the word for per cent or per mille. */
  predicate StartsWithRatio(s: Text) {
    |s| >= 3 && (s[0].Bai? || s[0].Qian?) && s[1].Fen? && s[2].Zhi?
  }

  // ----- Positional reading -----

  datatype Sum = Sum(total: nat, section: nat, digit: nat) {
    function Value(): nat {
      total + section + digit
    }
  }

  const START := Sum(0, 0, 0)

  function Step(st: Sum, g: Glyph): Sum {
    if g.Digit? then st.(digit := g.value)
    else if g.IsBig() then Sum(st.total + (st.section + st.digit) * g.UnitValue(), 0, 0)
    else if g.IsSmall() then
      st.(section := st.section + (if st.digit == 0 then 1 else st.digit) * g.UnitValue(), digit := 0)
    else st
  }

  function Scan(s: Text, st: Sum): Sum {
    if s == [] then st else Scan(s[1..], Step(st, s[0]))
  }

  lemma {:induction false} ScanConcat(a: Text, b: Text, st: Sum)
    ensures Scan(a + b, st) == Scan(b, Scan(a, st))
  {
    if a == [] {
      assert a + b == b;
    } else {
      ScanConcat(a[1..], b, Step(st, a[0]));
      assert (a + b)[1..] == a[1..] + b;
    }
  }

  // ----- Digit by digit reading -----

  /** The number whose decimal digits are the digits of `s` behind those of `acc`. */
  function DigitByDigit(s: Text, acc: nat): nat {
    if s == [] then acc
    else DigitByDigit(s[1..], if s[0].Digit? then 10 * acc + s[0].value else acc)
  }

  predicate HasDigit(s: Text) {
    s != [] && (s[0].Digit? || HasDigit(s[1..]))
  }

  predicate HasUnit(s: Text) {
    s != [] && (s[0].IsUnit() || HasUnit(s[1..]))
  }

  predicate Readable(s: Text) {
    s == [] || ((s[0].IsNumeral() || s[0].Measure?) && Readable(s[1..]))
  }

  lemma {:induction false} HasUnitAt(s: Text, i: nat)
    requires i < |s| && s[i].IsUnit()
    ensures HasUnit(s)
  {
    if i > 0 {
      HasUnitAt(s[1..], i - 1);
    }
  }

  /** The number a text stands for, if the script can tell. */
  function Reading(s: Text): Option<nat> {
    if s == [] then None
    else if StartsWithRatio(s) then Reading(s[3..])
    else if !Readable(s) then None
    else if !HasUnit(s) then (if HasDigit(s) then Some(DigitByDigit(s, 0)) else None)
    else
      var v := Scan(s, START).Value();
      if v == 0 then None else Some(v)
  }

  /** The digits of `_cn_num_to_int` without units, joined in order. */
  method ReadDigits(s: Text) returns (r: Option<nat>)
    ensures r == if HasDigit(s) then Some(DigitByDigit(s, 0)) else None
  {
    var any: bool, digits: nat := false, 0;
    for i := 0 to |s|
      invariant any || HasDigit(s[i..]) <==> HasDigit(s)
      invariant DigitByDigit(s[i..], digits) == DigitByDigit(s, 0)
    {
      assert s[i..][0] == s[i] && s[i..][1..] == s[i + 1..];
      if s[i].Digit? {
        any, digits := true, 10 * digits + s[i].value;
      }
    }
    r := if any then Some(digits) else None;
  }

  /** The unit loop of `_cn_num_to_int`. */
  method ReadUnits(s: Text) returns (v: nat)
    requires Readable(s)
    ensures v == Scan(s, START).Value()
  {
    var total: nat, section: nat, digit: nat := 0, 0, 0;
    for i := 0 to |s|
      invariant Scan(s[i..], Sum(total, section, digit)) == Scan(s, START)
    {
      assert s[i..][0] == s[i] && s[i..][1..] == s[i + 1..];
      var ch := s[i];
      if ch.Digit? {
        digit := ch.value;
      } else if ch.IsUnit() {
        var u := ch.UnitValue();
        if u >= 10000 {
          section := (section + digit) * u;
          total := total + section;
          section, digit := 0, 0;
        } else {
          section := section + (if digit == 0 then 1 else digit) * u;
          digit := 0;
        }
      }
    }
    v := total + section + digit;
  }

  /** `_cn_num_to_int`. */
  method ReadNumber(s: Text) returns (r: Option<nat>)
    ensures r == Reading(s)
  {
    if s == [] {
      return None;
    }
    if StartsWithRatio(s) {
      r := ReadNumber(s[3..]);
      return;
    }
    if !Readable(s) {
      return None;
    }
    if !HasUnit(s) {
      r := ReadDigits(s);
      return;
    }
    var total := ReadUnits(s);
    r := if total == 0 then None else Some(total);
  }

  // ----- What is passed over -----

  /** A number behind a ratio word is read as if it stood alone; the word alone is no number. */
  lemma RatioIsPassedOver(word: Glyph, s: Text)
    requires word.Bai? || word.Qian?
    ensures Reading([word, Fen, Zhi] + s) == Reading(s)
    ensures Reading([word, Fen, Zhi]) == None
  {
    var t := [word, Fen, Zhi] + s;
    assert t[0] == word && t[1] == Fen && t[2] == Zhi && t[3..] == s;
    assert [word, Fen, Zhi][3..] == [];
  }

  /** What holds of a text in parts holds of it with a measure word between them: it neither
      counts nor ends the digit in front of it. */
  lemma {:induction false} MeasureIsPassedOver(a: Text, which: nat, b: Text, st: Sum, acc: nat)
    ensures Scan(a + [Measure(which)] + b, st) == Scan(a + b, st)
    ensures DigitByDigit(a + [Measure(which)] + b, acc) == DigitByDigit(a + b, acc)
    ensures Readable(a + [Measure(which)] + b) <==> Readable(a + b)
    ensures HasUnit(a + [Measure(which)] + b) <==> HasUnit(a + b)
    ensures HasDigit(a + [Measure(which)] + b) <==> HasDigit(a + b)
  {
    var with, without := a + [Measure(which)] + b, a + b;
    if a == [] {
      assert with[0] == Measure(which) && with[1..] == b && without == b;
    } else {
      assert with[0] == a[0] && with[1..] == a[1..] + [Measure(which)] + b;
      assert without[0] == a[0] && without[1..] == a[1..] + b;
      MeasureIsPassedOver(a[1..], which, b, Step(st, a[0]), if a[0].Digit? then 10 * acc + a[0].value else acc);
    }
  }

  /** So measure words do not change what is read. */
  lemma MeasureIsNoPart(a: Text, which: nat, b: Text)
    requires Readable(a + b) && a + b != []
    ensures Reading(a + [Measure(which)] + b) == Reading(a + b)
  {
    MeasureIsPassedOver(a, which, b, START, 0);
    ReadableIsNoRatio(a + b);
    ReadableIsNoRatio(a + [Measure(which)] + b);
  }

  lemma ReadableIsNoRatio(s: Text)
    requires Readable(s)
    ensures !StartsWithRatio(s)
  {
    assert |s| > 1 ==> Readable(s[1..]) && s[1..][0] == s[1];
  }

  /** Exactly which text is no number: none at all, one with a character that has no part in
      numbers, measure words alone, and units that come to nothing. */
  lemma NoNumberIff(s: Text)
    requires !StartsWithRatio(s)
    ensures Reading(s) == None <==>
            || s == []
            || (exists i :: 0 <= i < |s| && !(s[i].Digit? || s[i].IsUnit() || s[i].Measure?))
            || (forall i :: 0 <= i < |s| ==> s[i].Measure?)
            || (HasUnit(s) && Scan(s, START).Value() == 0)
  {
    ReadableIff(s);
    CountsIff(s);
  }

  lemma {:induction false} ReadableIff(s: Text)
    ensures Readable(s) <==> forall i :: 0 <= i < |s| ==> s[i].Digit? || s[i].IsUnit() || s[i].Measure?
  {
    if s != [] {
      ReadableIff(s[1..]);
      assert forall i :: 1 <= i < |s| ==> s[i] == s[1..][i - 1];
      assert forall i :: 0 <= i < |s[1..]| ==> s[1..][i] == s[i + 1];
    }
  }

  lemma {:induction false} CountsIff(s: Text)
    ensures HasDigit(s) <==> exists i :: 0 <= i < |s| && s[i].Digit?
    ensures HasUnit(s) <==> exists i :: 0 <= i < |s| && s[i].IsUnit()
  {
    if s != [] {
      CountsIff(s[1..]);
      assert forall i :: 1 <= i < |s| ==> s[i] == s[1..][i - 1];
      assert forall i :: 0 <= i < |s[1..]| ==> s[1..][i] == s[i + 1];
    }
  }

  // ----- Which runs cannot be read -----

  predicate AllNumeral(s: Text) {
    forall i :: 0 <= i < |s| ==> s[i].IsNumeral()
  }

  /** No small unit, and every digit other than zero is overwritten by the digit right
      behind it. */
  predicate Void(s: Text) {
    s != [] ==>
      && Void(s[1..])
      && (s[0].IsBig() || (s[0].Digit? && (s[0].value != 0 ==> |s| > 1 && s[1].Digit?)))
  }

  lemma {:induction false} StaysPositive(s: Text, st: Sum)
    requires st.total > 0 || st.section > 0
    ensures Scan(s, st).Value() > 0
  {
    if s != [] {
      StaysPositive(s[1..], Step(st, s[0]));
    }
  }

  /** What one character does to a sum in which at most the pending digit counts. */
  lemma StepFromPending(d: nat, g: Glyph)
    requires g.IsNumeral()
    ensures var st := Step(Sum(0, 0, d), g);
            if g.Digit? then st == Sum(0, 0, g.value)
            else if g.IsBig() && d == 0 then st == START
            else st.total > 0 || st.section > 0
  {
  }

  lemma {:induction false} ScanIsZero(s: Text, d: nat)
    requires AllNumeral(s)
    ensures Scan(s, Sum(0, 0, d)).Value() == 0 <==>
            Void(s) && (d != 0 ==> s != [] && s[0].Digit?)
  {
    if s != [] {
      var g, rest := s[0], s[1..];
      assert AllNumeral(rest) && g.IsNumeral();
      StepFromPending(d, g);
      var st := Step(Sum(0, 0, d), g);
      if g.Digit? {
        ScanIsZero(rest, g.value);
      } else if g.IsBig() && d == 0 {
        ScanIsZero(rest, 0);
      } else {
        StaysPositive(rest, st);
      }
    }
  }

  /** A run of numeral characters is unreadable exactly if it has a big unit and nothing
      in it counts: no small unit, and no digit that is not overwritten or zero. */
  lemma UnreadableIff(run: Text)
    requires AllNumeral(run) && run != []
    ensures Reading(run).None? <==> HasUnit(run) && Void(run)
  {
    RunsAreNoRatio(run);
    RunsAreReadable(run);
    ScanIsZero(run, 0);
  }

  lemma RunsAreNoRatio(run: Text)
    requires AllNumeral(run)
    ensures !StartsWithRatio(run)
  {
    assert |run| > 1 ==> run[1].IsNumeral();
  }

  lemma {:induction false} RunsAreReadable(run: Text)
    requires AllNumeral(run)
    ensures Readable(run)
  {
    if run != [] {
      assert run[0].IsNumeral();
      RunsAreReadable(run[1..]);
    }
  }

  // ----- Decimal notation -----

  function Decimal(v: nat): (r: Text)
    ensures r != [] && forall i :: 0 <= i < |r| ==> r[i].Ascii?
  {
    if v < 10 then [Ascii(v)] else Decimal(v / 10) + [Ascii(v % 10)]
  }

  /** The number a decimal notation stands for. */
  function DecimalValue(s: Text): nat
    requires forall i :: 0 <= i < |s| ==> s[i].Ascii?
  {
    if s == [] then 0 else 10 * DecimalValue(s[..|s| - 1]) + s[|s| - 1].digit
  }

  /** `Decimal` writes `v` and never starts with a zero it could omit. */
  lemma {:induction false} DecimalMeans(v: nat)
    ensures DecimalValue(Decimal(v)) == v
    ensures Decimal(v)[0].digit == 0 ==> v == 0
  {
    if v >= 10 {
      DecimalMeans(v / 10);
      assert Decimal(v)[..|Decimal(v)| - 1] == Decimal(v / 10);
      assert Decimal(v)[0] == Decimal(v / 10)[0];
    }
  }

  /** The same digits, written with decimal digits. */
  function AsciiDigits(s: Text): (r: Text)
    requires AllDigits(s)
    ensures |r| == |s| && forall i :: 0 <= i < |r| ==> r[i] == Ascii(s[i].value)
  {
    seq(|s|, i requires 0 <= i < |s| => Ascii(s[i].value))
  }

  predicate AllDigits(s: Text) {
    forall i :: 0 <= i < |s| ==> s[i].Digit?
  }

  lemma DecimalSnoc(acc: nat, d: DigitValue)
    requires acc > 0
    ensures Decimal(10 * acc + d) == Decimal(acc) + [Ascii(d)]
  {
    var next := 10 * acc + d;
    assert next / 10 == acc && next % 10 == d;
  }

  lemma FirstDigit(s: Text)
    requires AllDigits(s) && s != []
    ensures AllDigits(s[1..]) && AsciiDigits(s) == [Ascii(s[0].value)] + AsciiDigits(s[1..])
  {
    assert forall i :: 0 <= i < |s[1..]| ==> s[1..][i] == s[i + 1];
  }

  lemma {:induction false} DigitsBehind(s: Text, acc: nat)
    requires AllDigits(s) && acc > 0
    ensures DigitByDigit(s, acc) > 0
    ensures Decimal(DigitByDigit(s, acc)) == Decimal(acc) + AsciiDigits(s)
  {
    if s == [] {
      assert Decimal(acc) + AsciiDigits(s) == Decimal(acc);
    } else {
      var d := s[0].value;
      FirstDigit(s);
      DigitsBehind(s[1..], 10 * acc + d);
      DecimalSnoc(acc, d);
      Regroup(Decimal(acc), [Ascii(d)], AsciiDigits(s[1..]));
    }
  }

  lemma {:induction false} DigitsHaveNoUnit(s: Text)
    requires AllDigits(s)
    ensures !HasUnit(s)
  {
    if s != [] {
      assert s[0].Digit?;
      DigitsHaveNoUnit(s[1..]);
    }
  }

  /** Text without units is read digit by digit. */
  lemma DigitsAreRead(s: Text)
    requires s != [] && AllDigits(s)
    ensures Reading(s) == Some(DigitByDigit(s, 0))
  {
    assert s[0].Digit?;
    RunsAreNoRatio(s);
    RunsAreReadable(s);
    DigitsHaveNoUnit(s);
  }

  /** A year or an identifier read digit by digit comes out with exactly its digits,
      unless it has several and starts with a zero: then the zero is lost. */
  lemma DigitsComeOutIff(s: Text)
    requires s != [] && AllDigits(s)
    ensures Decimal(DigitByDigit(s, 0)) == AsciiDigits(s) <==> |s| == 1 || s[0].value != 0
  {
    var v, d, rest := DigitByDigit(s, 0), s[0].value, s[1..];
    assert v == DigitByDigit(rest, d);
    assert AllDigits(rest) by {
      assert forall i :: 0 <= i < |rest| ==> rest[i] == s[i + 1];
    }
    if d != 0 {
      DigitsBehind(rest, d);
      assert AsciiDigits(s) == [Ascii(d)] + AsciiDigits(rest);
    } else if |s| == 1 {
      assert rest == [] && v == d;
    } else {
      DecimalMeans(v);
      assert v == 0 ==> |Decimal(v)| == 1;
      assert AsciiDigits(s)[0] == Ascii(0);
    }
  }
}
