/** The rewriting of Chinese numerals into decimal digits, scripts/eval-asr-accuracy.py. */
module NumeralRewriting {
  import opened EditDistance
  import opened Sequences
  import opened Wrappers
  import opened Numerals
  import opened StandardNumerals

  /** The length of the run of numeral characters that `s` begins with. */
  function RunLength(s: Text): (k: nat)
    ensures k <= |s|
  {
    if s != [] && s[0].IsNumeral() then RunLength(s[1..]) + 1 else 0
  }

  /** `s` with every readable run replaced by decimal digits: a ratio word is kept whole,
      and the first character of a run that cannot be read is kept and the rest tried again. */
  function Rewritten(s: Text): Text
    decreases |s|, 2
  {
    if s == [] then [] else Round(s)
  }

  /** One round of the loop, and then what is left. */
  function Round(s: Text): Text
    requires s != []
    decreases |s|, 1
  {
    if StartsWithRatio(s) then s[..3] + Rewritten(s[3..]) else RunRound(s)
  }

  /** The same, where no ratio word starts. */
  function RunRound(s: Text): Text
    requires s != []
    decreases |s|, 0
  {
    var k := RunLength(s);
    var v := Reading(s[..k]);
    if k > 0 && v.Some? then Decimal(v.value) + Rewritten(s[k..])
    else [s[0]] + Rewritten(s[1..])
  }

  lemma {:induction false} RunLengthMeans(s: Text)
    ensures AllNumeral(s[..RunLength(s)])
    ensures RunLength(s) < |s| ==> !s[RunLength(s)].IsNumeral()
  {
    if s != [] && s[0].IsNumeral() {
      RunLengthMeans(s[1..]);
      assert s[..RunLength(s)] == [s[0]] + s[1..][..RunLength(s[1..])];
    }
  }

  /** The inner loop of `normalize_numerals`: where the run that starts at `i` ends. */
  method RunEnd(s: Text, i: nat) returns (j: nat)
    requires i <= |s|
    ensures j == i + RunLength(s[i..]) && j <= |s|
  {
    j := i;
    while j < |s| && s[j].IsNumeral()
      invariant i <= j <= |s|
      invariant RunLength(s[i..]) == j - i + RunLength(s[j..])
    {
      assert s[j..][1..] == s[j + 1..];
      j := j + 1;
    }
  }

  /** One round of the loop takes the first `n` characters and writes `piece` for them. */
  predicate IsRound(left: Text, n: nat, piece: Text) {
    && 0 < n <= |left|
    && if StartsWithRatio(left) then n == 3 && piece == left[..3]
       else if left[0].IsNumeral() && Reading(left[..RunLength(left)]).Some? then
         n == RunLength(left) && piece == Decimal(Reading(left[..n]).value)
       else n == 1 && piece == [left[0]]
  }

  lemma OneRound(left: Text, n: nat, piece: Text)
    requires IsRound(left, n, piece)
    ensures Rewritten(left) == piece + Rewritten(left[n..])
  {
    if !StartsWithRatio(left) {
      assert Rewritten(left) == RunRound(left);
    }
  }

  /** The three ways in which the loop goes on from position `i`. */
  lemma AdvanceRatio(out: Text, s: Text, i: nat)
    requires i < |s| && StartsWithRatio(s[i..])
    ensures out + Rewritten(s[i..]) == out + s[i..i + 3] + Rewritten(s[i + 3..])
  {
    assert s[i..][..3] == s[i..i + 3] && s[i..][3..] == s[i + 3..];
    OneRound(s[i..], 3, s[i..i + 3]);
    Regroup(out, s[i..i + 3], Rewritten(s[i + 3..]));
  }

  lemma AdvanceRun(out: Text, s: Text, i: nat, j: nat)
    requires i < |s| && !StartsWithRatio(s[i..]) && s[i].IsNumeral()
    requires j == i + RunLength(s[i..]) <= |s| && Reading(s[i..j]).Some?
    ensures i < j
    ensures out + Rewritten(s[i..]) == out + Decimal(Reading(s[i..j]).value) + Rewritten(s[j..])
  {
    var piece := Decimal(Reading(s[i..j]).value);
    assert s[i..][..j - i] == s[i..j] && s[i..][j - i..] == s[j..];
    OneRound(s[i..], j - i, piece);
    Regroup(out, piece, Rewritten(s[j..]));
  }

  lemma AdvanceOne(out: Text, s: Text, i: nat)
    requires i < |s| && !StartsWithRatio(s[i..])
    requires s[i].IsNumeral() ==> Reading(s[i..i + RunLength(s[i..])]).None?
    ensures out + Rewritten(s[i..]) == out + [s[i]] + Rewritten(s[i + 1..])
  {
    assert s[i..][..RunLength(s[i..])] == s[i..i + RunLength(s[i..])] && s[i..][1..] == s[i + 1..];
    OneRound(s[i..], 1, [s[i]]);
    Regroup(out, [s[i]], Rewritten(s[i + 1..]));
  }

  /** `normalize_numerals`. */
  method NormalizeNumerals(s: Text) returns (out: Text)
    ensures out == Rewritten(s)
  {
    out := [];
    var i := 0;
    assert s[0..] == s;
    while i < |s|
      invariant 0 <= i <= |s|
      invariant out + Rewritten(s[i..]) == Rewritten(s)
    {
      if StartsWithRatio(s[i..]) {
        AdvanceRatio(out, s, i);
        out := out + s[i..i + 3];
        i := i + 3;
        continue;
      }
      if s[i].IsNumeral() {
        var j := RunEnd(s, i);
        var v := ReadNumber(s[i..j]);
        if v.Some? {
          AdvanceRun(out, s, i, j);
          out := out + Decimal(v.value);
          i := j;
          continue;
        }
      }
      AdvanceOne(out, s, i);
      out := out + [s[i]];
      i := i + 1;
    }
    assert s[i..] == [];
  }

  // ----- Runs and plain text -----

  /** The text does not go on with a numeral character. */
  predicate StartsPlain(s: Text) {
    s == [] || !s[0].IsNumeral()
  }

  lemma {:induction false} RunEnds(run: Text, rest: Text)
    requires AllNumeral(run) && StartsPlain(rest)
    ensures RunLength(run + rest) == |run|
    ensures (run + rest)[..|run|] == run && (run + rest)[|run|..] == rest
  {
    if run == [] {
      assert run + rest == rest;
    } else {
      RunEnds(run[1..], rest);
      assert (run + rest)[1..] == run[1..] + rest;
    }
  }

  /** Text without numeral characters is copied. */
  lemma {:induction false} PlainIsCopied(plain: Text, rest: Text)
    requires forall i :: 0 <= i < |plain| ==> !plain[i].IsNumeral()
    ensures Rewritten(plain + rest) == plain + Rewritten(rest)
  {
    if plain == [] {
      assert plain + rest == rest;
    } else {
      var s := plain + rest;
      assert s[0] == plain[0] && s[1..] == plain[1..] + rest;
      assert Rewritten(s) == RunRound(s);
      PlainIsCopied(plain[1..], rest);
      assert plain == [plain[0]] + plain[1..];
    }
  }

  /** A readable run is replaced whole. */
  lemma ReadableRun(run: Text, rest: Text)
    requires AllNumeral(run) && run != [] && StartsPlain(rest)
    requires Reading(run).Some?
    requires !StartsWithRatio(run + rest)
    ensures Rewritten(run + rest) == Decimal(Reading(run).value) + Rewritten(rest)
  {
    RunEnds(run, rest);
    assert Rewritten(run + rest) == RunRound(run + rest);
  }

  /** A run without small units cannot begin like a ratio. */
  lemma NoRatio(run: Text, rest: Text)
    requires AllNumeral(run) && run != [] && (run[0].Digit? || run[0].IsBig() || run[0].Shi?)
    ensures !StartsWithRatio(run + rest)
  {
    assert (run + rest)[0] == run[0];
  }

  // ----- Runs that cannot be read -----

  /** How much of a run is kept: everything up to its last big unit. */
  function UpToLastBig(run: Text): (p: nat)
    ensures p <= |run|
    ensures p > 0 ==> run[p - 1].IsBig()
    ensures forall i :: p <= i < |run| ==> !run[i].IsBig()
  {
    if run == [] then 0
    else if run[|run| - 1].IsBig() then |run|
    else UpToLastBig(run[..|run| - 1])
  }

  lemma {:induction false} VoidShape(run: Text)
    requires Void(run)
    ensures AllNumeral(run) && forall i :: 0 <= i < |run| ==> run[i].Digit? || run[i].IsBig()
  {
    if run != [] {
      VoidShape(run[1..]);
      assert run == [run[0]] + run[1..];
    }
  }

  /** What is kept of an unreadable run is itself an unreadable run. */
  lemma {:induction false} KeptStaysVoid(run: Text, p: nat)
    requires Void(run) && p <= |run|
    requires p > 0 ==> run[p - 1].IsBig()
    ensures Void(run[..p])
  {
    if p > 0 {
      if p == 1 {
        assert run[..1][1..] == [];
      } else {
        KeptStaysVoid(run[1..], p - 1);
        assert run[1..][..p - 1] == run[..p][1..];
        assert run[..p][0] == run[0] && run[..p][1] == run[1];
      }
    }
  }

  /** The first character of an unreadable run is kept and the rest tried again. */
  lemma UnreadableStep(run: Text, rest: Text)
    requires Void(run) && HasUnit(run) && StartsPlain(rest)
    ensures Rewritten(run + rest) == [run[0]] + Rewritten(run[1..] + rest)
  {
    VoidShape(run);
    RunEnds(run, rest);
    NoRatio(run, rest);
    UnreadableIff(run);
    var s := run + rest;
    assert s[0] == run[0] && s[1..] == run[1..] + rest;
    assert Rewritten(s) == RunRound(s);
  }

  /** An unreadable run is kept up to its last big unit; reading goes on behind it. */
  lemma {:induction false} UnreadableRun(run: Text, rest: Text, p: nat)
    requires Void(run) && StartsPlain(rest)
    requires p <= |run| && (p > 0 ==> run[p - 1].IsBig())
    ensures Rewritten(run + rest) == run[..p] + Rewritten(run[p..] + rest)
  {
    if p == 0 {
      assert run[..0] == [] && run[0..] == run;
    } else {
      HasUnitAt(run, p - 1);
      UnreadableStep(run, rest);
      assert p > 1 ==> run[1..][p - 2] == run[p - 1];
      UnreadableRun(run[1..], rest, p - 1);
      assert run[..p] == [run[0]] + run[1..][..p - 1];
      assert run[1..][p - 1..] == run[p..];
    }
  }

  // ----- Idempotence -----

  /** What follows the kept part of an unreadable run is rewritten into plain text. */
  lemma BehindTheLastBig(digits: Text, rest: Text)
    requires AllDigits(digits) && StartsPlain(rest)
    ensures StartsPlain(Rewritten(digits + rest))
  {
    if digits != [] {
      DigitsAreRead(digits);
      NoRatio(digits, rest);
      ReadableRun(digits, rest);
      assert Rewritten(digits + rest)[0] == Decimal(Reading(digits).value)[0];
    } else {
      assert digits + rest == rest;
      if rest != [] {
        assert Rewritten(rest) == RunRound(rest);
      }
    }
  }

  lemma DecimalIsCopied(v: nat, rest: Text)
    ensures Rewritten(Decimal(v) + rest) == Decimal(v) + Rewritten(rest)
  {
    PlainIsCopied(Decimal(v), rest);
  }

  lemma RatioIsCopied(s: Text, rest: Text)
    requires StartsWithRatio(s)
    ensures Rewritten(s[..3] + rest) == s[..3] + Rewritten(rest)
  {
    var t := s[..3] + rest;
    assert t[0] == s[0] && t[1] == s[1] && t[2] == s[2];
    assert t[..3] == s[..3] && t[3..] == rest;
  }

  /** Normalising a second time changes nothing, for every text. */
  lemma {:induction false} Idempotent(s: Text)
    ensures Rewritten(Rewritten(s)) == Rewritten(s)
    decreases |s|
  {
    if s == [] {
    } else if StartsWithRatio(s) {
      Idempotent(s[3..]);
      RatioIsCopied(s, Rewritten(s[3..]));
    } else if !s[0].IsNumeral() {
      Idempotent(s[1..]);
      PlainIsCopied([s[0]], Rewritten(s[1..]));
      assert Rewritten(s) == RunRound(s);
    } else {
      assert Rewritten(s) == RunRound(s);
      var k := RunLength(s);
      RunLengthMeans(s);
      var run, rest := s[..k], s[k..];
      var v := Reading(run);
      if v.Some? {
        Idempotent(rest);
        DecimalIsCopied(v.value, Rewritten(rest));
      } else {
        IdempotentOnUnreadable(run, rest);
        assert run + rest == s;
      }
    }
  }

  lemma IdempotentOnUnreadable(run: Text, rest: Text)
    requires AllNumeral(run) && run != [] && StartsPlain(rest)
    requires Reading(run).None?
    ensures Rewritten(Rewritten(run + rest)) == Rewritten(run + rest)
    decreases |run + rest|, 0
  {
    UnreadableIff(run);
    VoidShape(run);
    var p := UpToLastBig(run);
    if p == 0 {
      DigitsHaveNoUnit(run);
    }
    UnreadableRun(run, rest, p);
    var tail := Rewritten(run[p..] + rest);
    Idempotent(run[p..] + rest);
    assert AllDigits(run[p..]) by {
      assert forall k :: 0 <= k < |run[p..]| ==> run[p..][k] == run[k + p];
    }
    BehindTheLastBig(run[p..], rest);
    KeptStaysVoid(run, p);
    UnreadableRun(run[..p], tail, p);
    assert run[..p][..p] == run[..p] && run[..p][p..] + tail == tail;
  }

  // ----- Numerals inside other text -----

  /** The text ends with a character that is no numeral character. */
  predicate EndsPlain(s: Text) {
    s == [] || !s[|s| - 1].IsNumeral()
  }

  /** A run inside `pre` is the same run when text is added behind `pre`. */
  lemma SameRun(pre: Text, s: Text)
    requires EndsPlain(pre) && pre != []
    ensures var k := RunLength(pre);
            k < |pre| && RunLength(pre + s) == k && (pre + s)[..k] == pre[..k] && (pre + s)[k..] == pre[k..] + s
  {
    var k := RunLength(pre);
    RunLengthMeans(pre);
    assert pre[..|pre|] == pre;
    assert pre + s == pre[..k] + (pre[k..] + s);
    assert (pre[k..] + s)[0] == pre[k];
    RunEnds(pre[..k], pre[k..] + s);
  }

  lemma SameRatio(pre: Text, s: Text)
    requires pre != [] && (s == [] || !(s[0].Fen? || s[0].Zhi?))
    ensures StartsWithRatio(pre + s) <==> StartsWithRatio(pre)
    ensures StartsWithRatio(pre) ==> (pre + s)[..3] == pre[..3] && (pre + s)[3..] == pre[3..] + s
  {
    assert s != [] ==> (pre + s)[|pre|] == s[0];
  }

  /** Rewriting works piecewise across a border where neither a run nor a ratio goes on. */
  lemma {:induction false} Piecewise(pre: Text, s: Text)
    requires EndsPlain(pre)
    requires s == [] || !(s[0].Fen? || s[0].Zhi?)
    ensures Rewritten(pre + s) == Rewritten(pre) + Rewritten(s)
    decreases |pre|
  {
    if pre == [] {
      assert pre + s == s;
    } else {
      var k := RunLength(pre);
      RunLengthMeans(pre);
      SameRun(pre, s);
      if StartsWithRatio(pre) {
        PiecewiseFrom(pre, s, 3, pre[..3]);
      } else if pre[0].IsNumeral() && Reading(pre[..k]).Some? {
        PiecewiseFrom(pre, s, k, Decimal(Reading(pre[..k]).value));
      } else {
        PiecewiseFrom(pre, s, 1, [pre[0]]);
      }
    }
  }

  lemma PiecewiseFrom(pre: Text, s: Text, n: nat, piece: Text)
    requires EndsPlain(pre) && IsRound(pre, n, piece)
    requires s == [] || !(s[0].Fen? || s[0].Zhi?)
    ensures Rewritten(pre + s) == Rewritten(pre) + Rewritten(s)
    decreases |pre|, 0
  {
    OneRound(pre, n, piece);
    RoundBefore(pre, s, n, piece);
    Piecewise(pre[n..], s);
    Regroup(piece, Rewritten(pre[n..]), Rewritten(s));
  }

  /** The first round is the same with and without `s` behind. */
  lemma SameRound(pre: Text, s: Text, n: nat, piece: Text)
    requires EndsPlain(pre) && IsRound(pre, n, piece)
    requires s == [] || !(s[0].Fen? || s[0].Zhi?)
    ensures IsRound(pre + s, n, piece)
  {
    var t := pre + s;
    SameRatio(pre, s);
    SameRun(pre, s);
    assert t[0] == pre[0];
    if StartsWithRatio(pre) {
      assert t[..3] == pre[..3];
    } else {
      assert t[..RunLength(t)] == pre[..RunLength(pre)];
    }
  }

  lemma RoundBefore(pre: Text, s: Text, n: nat, piece: Text)
    requires EndsPlain(pre) && IsRound(pre, n, piece)
    requires s == [] || !(s[0].Fen? || s[0].Zhi?)
    ensures Rewritten(pre + s) == piece + Rewritten(pre[n..] + s)
  {
    SameRound(pre, s, n, piece);
    OneRound(pre + s, n, piece);
    assert (pre + s)[n..] == pre[n..] + s;
  }

  /** A readable run between other text is replaced, and nothing else changes for it. */
  lemma RunInContext(pre: Text, run: Text, post: Text)
    requires EndsPlain(pre) && StartsPlain(post)
    requires AllNumeral(run) && run != [] && Reading(run).Some?
    requires run[0].Digit? || run[0].IsBig() || run[0].Shi?
    ensures Rewritten(pre + (run + post)) == Rewritten(pre) + (Decimal(Reading(run).value) + Rewritten(post))
  {
    NoRatio(run, post);
    ReadableRun(run, post);
    assert (run + post)[0] == run[0];
    Piecewise(pre, run + post);
  }

  /** A word for per cent or per mille is kept as a word, and the number behind it is
      rewritten. */
  lemma RatioInContext(pre: Text, word: Glyph, n: nat, post: Text)
    requires word.Bai? || word.Qian?
    requires EndsPlain(pre) && StartsPlain(post) && n < 1000000000000
    ensures Rewritten(pre + [word, Fen, Zhi] + Numeral(n) + post)
         == Rewritten(pre) + [word, Fen, Zhi] + Decimal(n) + Rewritten(post)
  {
    var ratio, rest := [word, Fen, Zhi], Numeral(n) + post;
    RatioRound(word, rest);
    NumeralInFront(n, post);
    Piecewise(pre, ratio + rest);
    RegroupFour(pre, ratio, Numeral(n), post);
    RegroupFour(Rewritten(pre), ratio, Decimal(n), Rewritten(post));
  }

  lemma RatioRound(word: Glyph, rest: Text)
    requires word.Bai? || word.Qian?
    ensures Rewritten([word, Fen, Zhi] + rest) == [word, Fen, Zhi] + Rewritten(rest)
  {
    var ratio := [word, Fen, Zhi];
    assert ratio[..3] == ratio;
    RatioIsCopied(ratio, rest);
  }

  lemma NumeralInFront(n: nat, post: Text)
    requires StartsPlain(post) && n < 1000000000000
    ensures Rewritten(Numeral(n) + post) == Decimal(n) + Rewritten(post)
  {
    NumeralInContext([], n, post);
    NothingInFront(Numeral(n), post);
    NothingInFront(Decimal(n), Rewritten(post));
  }

  lemma RegroupFour(a: Text, b: Text, c: Text, d: Text)
    ensures a + (b + (c + d)) == a + b + c + d
  {
  }

  /** The same characters in front of anything else are numbers. */
  lemma UnitAloneInContext(pre: Text, unit: Glyph, post: Text)
    requires unit.Bai? || unit.Qian?
    requires EndsPlain(pre) && StartsPlain(post)
    requires |post| < 2 || !post[0].Fen? || !post[1].Zhi?
    ensures Rewritten(pre + ([unit] + post))
         == Rewritten(pre) + (Decimal(if unit.Bai? then 100 else 1000) + Rewritten(post))
  {
    var s := [unit] + post;
    assert s[0] == unit && s[1..] == post;
    assert |s| > 2 ==> s[1] == post[0] && s[2] == post[1];
    RunEnds([unit], post);
    UnitAlone(unit);
    assert s[..1] == [unit];
    OneRound(s, 1, Decimal(if unit.Bai? then 100 else 1000));
    Piecewise(pre, s);
  }

  lemma UnitAlone(unit: Glyph)
    requires unit.Bai? || unit.Qian?
    ensures Reading([unit]) == Some(if unit.Bai? then 100 else 1000)
  {
    var run := [unit];
    assert run[0] == unit && run[1..] == [] && AllNumeral(run);
    RunsAreReadable(run);
    RunsAreNoRatio(run);
    HasUnitAt(run, 0);
    ScanOne(unit, START);
    assert unit.UnitValue() == if unit.Bai? then 100 else 1000;
    assert Scan(run, START) == Sum(0, unit.UnitValue(), 0);
  }

  lemma NumeralInContext(pre: Text, n: nat, post: Text)
    requires EndsPlain(pre) && StartsPlain(post) && n < 1000000000000
    ensures Rewritten(pre + Numeral(n) + post) == Rewritten(pre) + Decimal(n) + Rewritten(post)
  {
    NumeralShape(n);
    ReadsBackIff(n);
    assert Numeral(n)[0].IsNumeral();
    RunInContext(pre, Numeral(n), post);
    Regroup(pre, Numeral(n), post);
    Regroup(Rewritten(pre), Decimal(n), Rewritten(post));
  }

  lemma DecimalInContext(pre: Text, n: nat, post: Text)
    requires EndsPlain(pre)
    ensures Rewritten(pre + Decimal(n) + post) == Rewritten(pre) + Decimal(n) + Rewritten(post)
  {
    var digits := Decimal(n);
    PlainIsCopied(digits, post);
    assert (digits + post)[0] == digits[0] && digits[0].Ascii?;
    Piecewise(pre, digits + post);
    assert pre + digits + post == pre + (digits + post);
  }

  /** The two ways of writing a number are no error: with numerals normalised, a text with
      the Chinese numeral and the same text with decimal digits are at distance zero. */
  lemma BothWritingsAgree(pre: Text, n: nat, post: Text)
    requires EndsPlain(pre) && StartsPlain(post) && n < 1000000000000
    ensures Distance(Rewritten(pre + Numeral(n) + post), Rewritten(pre + Decimal(n) + post)) == 0
    ensures Rewritten(Numeral(n)) == Decimal(n)
  {
    NumeralInContext(pre, n, post);
    DecimalInContext(pre, n, post);
    ZeroIffEqual(Rewritten(pre + Numeral(n) + post), Rewritten(pre + Decimal(n) + post));
    NumeralAlone(n);
  }

  lemma NumeralAlone(n: nat)
    requires n < 1000000000000
    ensures Rewritten(Numeral(n)) == Decimal(n)
  {
    NumeralInContext([], n, []);
    assert [] + Numeral(n) + [] == Numeral(n);
    assert Rewritten([]) + Decimal(n) + Rewritten([]) == Decimal(n);
  }

  /** No error is hidden either: different numbers stay at a positive distance. */
  lemma DifferentNumbersDiffer(pre: Text, m: nat, n: nat, post: Text)
    requires EndsPlain(pre) && StartsPlain(post) && m < 1000000000000 && n < 1000000000000
    ensures Distance(Rewritten(pre + Numeral(m) + post), Rewritten(pre + Numeral(n) + post)) == 0 <==> m == n
  {
    NumeralInContext(pre, m, post);
    NumeralInContext(pre, n, post);
    var x, y := Rewritten(pre), Rewritten(post);
    ZeroIffEqual(x + Decimal(m) + y, x + Decimal(n) + y);
    if x + Decimal(m) + y == x + Decimal(n) + y {
      assert |Decimal(m)| == |Decimal(n)|;
      assert (x + Decimal(m) + y)[|x|..|x| + |Decimal(m)|] == Decimal(m);
      assert (x + Decimal(n) + y)[|x|..|x| + |Decimal(n)|] == Decimal(n);
      DecimalMeans(m);
      DecimalMeans(n);
    }
  }
}
