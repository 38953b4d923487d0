/** The standard Chinese way to write a number, and how the script reads it back. */
module StandardNumerals {
  import opened Wrappers
  import opened Numerals

  function D(d: DigitValue): Glyph {
    Digit(d, false)
  }

  /** `digit` and its unit, then the rest, with a filler where a unit is skipped. */
  function Group(head: Text, unit: Glyph, rest: nat, below: nat, tail: Text): Text {
    head + [unit] + (if rest == 0 then [] else if rest < below then [D(0)] + tail else tail)
  }

  /** The small units by level: the last digit has none. */
  function SmallUnit(level: nat): Glyph
    requires 1 <= level <= 3
  {
    if level == 1 then Shi else if level == 2 then Bai else Qian
  }

  function SmallValue(level: nat): nat
    requires level <= 3
  {
    if level == 0 then 1 else if level == 1 then 10 else if level == 2 then 100 else 1000
  }

  /** A number of at most `level + 1` digits. */
  function Small(n: nat, level: nat): Text
    requires level <= 3 && n < 10 * SmallValue(level)
    decreases level
  {
    if level == 0 then [D(n)]
    else
      var u := SmallValue(level);
      if n < u then Small(n, level - 1)
      else Group([D(n / u)], SmallUnit(level), n % u, SmallValue(level - 1), Small(n % u, level - 1))
  }

  function BigUnit(level: nat): Glyph
    requires 1 <= level <= 2
  {
    if level == 1 then Wan else Yi
  }

  function BigValue(level: nat): nat
    requires 1 <= level <= 2
  {
    if level == 1 then 10000 else 100000000
  }

  /** The numbers a level can write: below ten to the fourth, eighth and sixteenth. */
  function BigLimit(level: nat): nat
    requires level <= 2
  {
    if level == 0 then 10000 else if level == 1 then 100000000 else LIMIT
  }

  const LIMIT := 10000000000000000

  /** Up to four sections of four digits, separated by big units. */
  function Sections(n: nat, level: nat): Text
    requires level <= 2 && n < BigLimit(level)
    decreases level
  {
    if level == 0 then Small(n, 3)
    else
      var u := BigValue(level);
      if n < u then Sections(n, level - 1)
      else Group(Sections(n / u, level - 1), BigUnit(level), n % u, u / 10, Sections(n % u, level - 1))
  }

  /** The numeral for `n`: a leading ten is written without its one. */
  function Numeral(n: nat): Text
    requires n < LIMIT
  {
    var text := Sections(n, 2);
    if |text| > 1 && text[0] == D(1) && text[1] == Shi then text[1..] else text
  }

  /** How some numbers are spelled: ten and the teens, the filler inside a section and between
      two, and no filler where none is due. */
  lemma SomeNumerals()
    ensures Numeral(10) == [Shi] && Numeral(15) == [Shi, D(5)]
    ensures Numeral(105) == [D(1), Bai, D(0), D(5)] && Numeral(110) == [D(1), Bai, D(1), Shi]
    ensures Numeral(20003) == [D(2), Wan, D(0), D(3)] && Numeral(21000) == [D(2), Wan, D(1), Qian]
  {
    ShortNumerals();
    HundredNumerals();
    LongNumerals();
  }

  lemma ShortNumerals()
    ensures Numeral(10) == [Shi] && Numeral(15) == [Shi, D(5)]
  {
    TenSections();
    OneSection(10);
    OneSection(15);
  }

  lemma HundredNumerals()
    ensures Numeral(105) == [D(1), Bai, D(0), D(5)] && Numeral(110) == [D(1), Bai, D(1), Shi]
  {
    HundredSections();
    OneSection(105);
    OneSection(110);
  }

  lemma LongNumerals()
    ensures Numeral(20003) == [D(2), Wan, D(0), D(3)] && Numeral(21000) == [D(2), Wan, D(1), Qian]
  {
    DigitSections();
    ThousandSection();
    TwoSections(20003);
    TwoSections(21000);
  }

  lemma OneSection(n: nat)
    requires n < 10000
    ensures Sections(n, 2) == Small(n, 3)
  {
    assert Sections(n, 1) == Sections(n, 0);
  }

  lemma TwoSections(n: nat)
    requires 10000 <= n < 100000000
    ensures Sections(n, 2) == Group(Small(n / 10000, 3), Wan, n % 10000, 1000, Small(n % 10000, 3))
  {
    assert Sections(n, 2) == Sections(n, 1);
  }

  lemma DigitSections()
    ensures Small(2, 3) == [D(2)] && Small(3, 3) == [D(3)]
  {
    assert Small(2, 2) == Small(2, 1) && Small(3, 2) == Small(3, 1);
  }

  lemma TenSections()
    ensures Small(10, 3) == [D(1), Shi] && Small(15, 3) == [D(1), Shi, D(5)]
  {
    assert Small(10, 2) == Small(10, 1) && Small(15, 2) == Small(15, 1);
  }

  lemma HundredSections()
    ensures Small(105, 3) == [D(1), Bai, D(0), D(5)] && Small(110, 3) == [D(1), Bai, D(1), Shi]
  {
    assert Small(5, 1) == [D(5)];
    assert Small(105, 3) == Small(105, 2) && Small(110, 3) == Small(110, 2);
  }

  lemma ThousandSection()
    ensures Small(1000, 3) == [D(1), Qian]
  {
  }

  // ----- Reading a section adds its number -----

  /** From `st` on, reading `text` adds `n` to the open section, whatever digit was pending. */
  ghost predicate AddsFrom(text: Text, n: nat, st: Sum) {
    var r := Scan(text, st);
    r.total == st.total && r.section + r.digit == st.section + n
  }

  ghost predicate Adds(text: Text, n: nat) {
    forall st: Sum :: AddsFrom(text, n, st)
  }

  lemma ScanOne(a: Glyph, st: Sum)
    ensures Scan([a], st) == Step(st, a)
  {
    assert [a][1..] == [];
  }

  lemma ScanTwo(a: Glyph, b: Glyph, st: Sum)
    ensures Scan([a, b], st) == Step(Step(st, a), b)
  {
    ScanConcat([a], [b], st);
    ScanOne(a, st);
    ScanOne(b, Step(st, a));
    assert [a] + [b] == [a, b];
  }

  /** A group is read as its head, its unit and its rest; the filler is not seen. */
  lemma GroupScan(head: Text, unit: Glyph, rest: nat, below: nat, tail: Text, st: Sum)
    requires unit.IsUnit()
    ensures var next := Step(Scan(head, st), unit);
            Scan(Group(head, unit, rest, below, tail), st) == if rest == 0 then next else Scan(tail, next)
  {
    var next := Step(Scan(head, st), unit);
    ScanConcat(head, [unit], st);
    ScanOne(unit, Scan(head, st));
    var behind := if rest == 0 then [] else if rest < below then [D(0)] + tail else tail;
    ScanConcat(head + [unit], behind, st);
    assert Group(head, unit, rest, below, tail) == (head + [unit]) + behind;
    if rest != 0 && rest < below {
      ScanConcat([D(0)], tail, next);
      ScanOne(D(0), next);
    }
  }

  lemma SmallUnitStep(d: DigitValue, unit: Glyph, u: nat, st: Sum)
    requires d > 0 && unit.IsSmall() && u == unit.UnitValue()
    ensures Step(Step(st, D(d)), unit) == Sum(st.total, st.section + d * u, 0)
  {
  }

  lemma SmallGroupAdds(d: DigitValue, unit: Glyph, u: nat, rest: nat, below: nat, tail: Text, st: Sum)
    requires d > 0 && unit.IsSmall() && u == unit.UnitValue()
    requires Adds(tail, rest)
    ensures AddsFrom(Group([D(d)], unit, rest, below, tail), d * u + rest, st)
  {
    ScanOne(D(d), st);
    SmallUnitStep(d, unit, u, st);
    GroupScan([D(d)], unit, rest, below, tail, st);
    assert AddsFrom(tail, rest, Sum(st.total, st.section + d * u, 0));
  }

  lemma {:induction false} SmallAdds(n: nat, level: nat)
    requires level <= 3 && n < 10 * SmallValue(level)
    ensures Adds(Small(n, level), n)
  {
    forall st: Sum
      ensures AddsFrom(Small(n, level), n, st)
    {
      if level == 0 {
        ScanOne(D(n), st);
      } else {
        var u := SmallValue(level);
        if n < u {
          SmallAdds(n, level - 1);
          assert AddsFrom(Small(n, level - 1), n, st);
        } else {
          SmallAdds(n % u, level - 1);
          SmallGroupAdds(n / u, SmallUnit(level), u, n % u, SmallValue(level - 1), Small(n % u, level - 1), st);
        }
      }
    }
  }

  // ----- Big units close a section -----

  /** From `st` on, with an empty section, reading `text` adds `closed` to the total and
      leaves `open` in the section. */
  ghost predicate YieldsFrom(text: Text, closed: nat, open: nat, st: Sum) {
    var r := Scan(text, st);
    r.total == st.total + closed && r.section + r.digit == open
  }

  ghost predicate Yields(text: Text, closed: nat, open: nat) {
    forall st: Sum :: st.section == 0 ==> YieldsFrom(text, closed, open, st)
  }

  lemma BigUnitStep(st: Sum, unit: Glyph, u: nat)
    requires unit.IsBig() && u == unit.UnitValue()
    ensures Step(st, unit) == Sum(st.total + (st.section + st.digit) * u, 0, 0)
  {
  }

  lemma BigGroupYields(head: Text, closed: nat, open: nat, unit: Glyph, u: nat, rest: nat, below: nat,
                       tail: Text, closed': nat, open': nat)
    requires unit.IsBig() && u == unit.UnitValue()
    requires Yields(head, closed, open)
    requires Yields(tail, closed', open') && rest == closed' + open'
    ensures Yields(Group(head, unit, rest, below, tail), closed + open * u + closed', open')
  {
    var text := Group(head, unit, rest, below, tail);
    forall st: Sum | st.section == 0
      ensures YieldsFrom(text, closed + open * u + closed', open', st)
    {
      GroupScan(head, unit, rest, below, tail, st);
      assert YieldsFrom(head, closed, open, st);
      BigUnitStep(Scan(head, st), unit, u);
      assert YieldsFrom(tail, closed', open', Sum(st.total + closed + open * u, 0, 0));
    }
  }

  lemma SectionYields(n: nat)
    requires n < 10000
    ensures Yields(Sections(n, 0), 0, n)
  {
    SmallAdds(n, 3);
    forall st: Sum | st.section == 0
      ensures YieldsFrom(Sections(n, 0), 0, n, st)
    {
      assert AddsFrom(Small(n, 3), n, st);
    }
  }

  lemma TwoSectionsYield(n: nat)
    requires n < 100000000
    ensures Yields(Sections(n, 1), n / 10000 * 10000, n % 10000)
  {
    if n >= 10000 {
      SectionsJoin(n / 10000, n % 10000);
    } else {
      SectionYields(n);
    }
  }

  lemma SectionsJoin(high: nat, low: nat)
    requires high < 10000 && low < 10000
    ensures Yields(Group(Sections(high, 0), Wan, low, 1000, Sections(low, 0)), high * 10000, low)
  {
    SectionYields(low);
    SectionYields(high);
    BigGroupYields(Sections(high, 0), 0, high, Wan, 10000, low, 1000, Sections(low, 0), 0, low);
  }

  /** What the reader makes of the four sections: the highest one is only counted in
      units of ten thousand, because the unit behind it no longer sees it. */
  function Read(n: nat): nat {
    var high, low := n / 100000000, n % 100000000;
    high / 10000 * 10000 + high % 10000 * 100000000 + low
  }

  lemma HighSectionsYield(n: nat)
    requires 100000000 <= n < LIMIT
    ensures var high, low := n / 100000000, n % 100000000;
            Yields(Sections(n, 2), high / 10000 * 10000 + high % 10000 * 100000000 + low / 10000 * 10000, low % 10000)
  {
    HighJoin(n / 100000000, n % 100000000);
  }

  lemma HighJoin(high: nat, low: nat)
    requires high < 100000000 && low < 100000000
    ensures Yields(Group(Sections(high, 1), Yi, low, 10000000, Sections(low, 1)),
                   high / 10000 * 10000 + high % 10000 * 100000000 + low / 10000 * 10000, low % 10000)
  {
    TwoSectionsYield(low);
    TwoSectionsYield(high);
    BigGroupYields(Sections(high, 1), high / 10000 * 10000, high % 10000, Yi, 100000000, low, 10000000,
                   Sections(low, 1), low / 10000 * 10000, low % 10000);
  }

  lemma FourSectionsRead(n: nat)
    requires n < LIMIT
    ensures Scan(Sections(n, 2), START).Value() == Read(n)
  {
    var high, low := n / 100000000, n % 100000000;
    if n >= 100000000 {
      HighSectionsYield(n);
      YieldedValue(Sections(n, 2), high / 10000 * 10000 + high % 10000 * 100000000 + low / 10000 * 10000, low % 10000);
      Whole(low);
    } else {
      Whole(n);
      TwoSectionsYield(n);
      YieldedValue(Sections(n, 1), n / 10000 * 10000, n % 10000);
      assert Sections(n, 2) == Sections(n, 1);
    }
  }

  lemma Whole(n: nat)
    ensures n / 10000 * 10000 + n % 10000 == n
    ensures n < 100000000 ==> Read(n) == n
  {
  }

  lemma YieldedValue(text: Text, closed: nat, open: nat)
    requires Yields(text, closed, open)
    ensures Scan(text, START).Value() == closed + open
  {
    assert YieldsFrom(text, closed, open, START);
  }

  // ----- The shape of a numeral -----

  /** A non-empty run of numeral characters that starts with a digit. */
  ghost predicate IsRun(text: Text) {
    text != [] && text[0].Digit? && AllNumeral(text)
  }

  lemma GroupShape(head: Text, unit: Glyph, rest: nat, below: nat, tail: Text)
    requires IsRun(head) && AllNumeral(tail) && unit.IsUnit()
    ensures var g := Group(head, unit, rest, below, tail);
            IsRun(g) && HasUnit(g)
  {
    HasUnitAt(Group(head, unit, rest, below, tail), |head|);
  }

  lemma {:induction false} SmallShape(n: nat, level: nat)
    requires level <= 3 && n < 10 * SmallValue(level)
    ensures IsRun(Small(n, level))
    ensures n < 10 ==> Small(n, level) == [D(n)]
    ensures n >= 10 ==> HasUnit(Small(n, level))
  {
    if level > 0 {
      var u := SmallValue(level);
      if n < u {
        SmallShape(n, level - 1);
      } else {
        SmallShape(n % u, level - 1);
        GroupShape([D(n / u)], SmallUnit(level), n % u, SmallValue(level - 1), Small(n % u, level - 1));
      }
    }
  }

  lemma {:induction false} SectionsShape(n: nat, level: nat)
    requires level <= 2 && n < BigLimit(level)
    ensures IsRun(Sections(n, level))
    ensures n < 10 ==> Sections(n, level) == [D(n)]
    ensures n >= 10 ==> HasUnit(Sections(n, level))
  {
    if level == 0 {
      SmallShape(n, 3);
    } else {
      var u := BigValue(level);
      if n < u {
        SectionsShape(n, level - 1);
      } else {
        SectionsShape(n / u, level - 1);
        SectionsShape(n % u, level - 1);
        GroupShape(Sections(n / u, level - 1), BigUnit(level), n % u, u / 10, Sections(n % u, level - 1));
      }
    }
  }

  /** A numeral is one run of numeral characters that does not begin like a ratio. */
  lemma NumeralShape(n: nat)
    requires n < LIMIT
    ensures AllNumeral(Numeral(n)) && Numeral(n) != []
    ensures !Numeral(n)[0].Bai? && !Numeral(n)[0].Qian?
    ensures n < 10 ==> Numeral(n) == [D(n)]
    ensures n >= 10 ==> HasUnit(Numeral(n))
  {
    SectionsShape(n, 2);
    var text := Sections(n, 2);
    if |text| > 1 && text[0] == D(1) && text[1] == Shi {
      assert forall i :: 0 <= i < |text[1..]| ==> text[1..][i] == text[i + 1];
      assert text[1..][0].IsUnit();
    }
  }

  /** Leaving out the one of a leading ten does not change what is read. */
  lemma {:induction false} LeadingTen(text: Text)
    requires |text| > 1 && text[0] == D(1) && text[1] == Shi
    ensures Scan(text[1..], START) == Scan(text, START)
  {
    ScanConcat([D(1), Shi], text[2..], START);
    ScanConcat([Shi], text[2..], START);
    ScanTwo(D(1), Shi, START);
    ScanOne(Shi, START);
    assert text == [D(1), Shi] + text[2..] && text[1..] == [Shi] + text[2..];
  }

  /** The script reads the standard numeral of `n` as `n` exactly below ten to the
      twelfth; above that a numeral with two big units in a row is misread. */
  lemma ReadsBackIff(n: nat)
    requires n < LIMIT
    ensures Reading(Numeral(n)) == Some(n) <==> n < 1000000000000
    ensures Reading(Numeral(n)).Some?
  {
    NumeralShape(n);
    if n < 10 {
      DigitsAreRead([D(n)]);
      assert [D(n)][1..] == [];
    } else {
      RunsAreNoRatio(Numeral(n));
      RunsAreReadable(Numeral(n));
      FourSectionsRead(n);
      var text := Sections(n, 2);
      if |text| > 1 && text[0] == D(1) && text[1] == Shi {
        LeadingTen(text);
      }
      assert Scan(Numeral(n), START).Value() == Read(n);
      ReadIff(n);
    }
  }

  lemma ReadIff(n: nat)
    requires n < LIMIT
    ensures Read(n) == n <==> n < 1000000000000
    ensures Read(n) == 0 <==> n == 0
  {
    var high, low := n / 100000000, n % 100000000;
    assert n == high * 100000000 + low;
    assert high == high / 10000 * 10000 + high % 10000;
  }
}
