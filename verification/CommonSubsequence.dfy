/** The similarity of scripts/sherpa-latency/LatencyProbe.java: a longest common
    subsequence over two rows that are swapped and never cleared. */
module CommonSubsequence {
  import opened Alignments
  import opened EditDistance
  import opened Sequences
  import opened Subsequences
  import opened Wrappers

  function Lcs<T(==)>(a: seq<T>, b: seq<T>): nat
    decreases |a| + |b|
  {
    if a == [] || b == [] then 0
    else if Last(a) == Last(b) then Lcs(Init(a), Init(b)) + 1
    else Max(Lcs(Init(a), b), Lcs(a, Init(b)))
  }

  // ----- Lcs is the length of a longest common subsequence -----

  lemma {:induction false} EveryCommonSubsequence<T>(c: seq<T>, a: seq<T>, b: seq<T>)
    requires IsSubsequence(c, a) && IsSubsequence(c, b)
    ensures |c| <= Lcs(a, b)
    decreases |a| + |b|
  {
    if c != [] {
      DropLast(c, a);
      DropLast(c, b);
      if Last(a) == Last(b) {
        EveryCommonSubsequence(Init(c), Init(a), Init(b));
      } else if Last(c) != Last(a) {
        EveryCommonSubsequence(c, Init(a), b);
      } else {
        EveryCommonSubsequence(c, a, Init(b));
      }
    }
  }

  /** The characters a script keeps form a common subsequence of its two texts. */
  lemma {:induction false} KeptIsCommon<T>(cols: seq<Column<T>>) returns (c: seq<T>)
    ensures |c| == Kept(cols)
    ensures IsSubsequence(c, Before(cols)) && IsSubsequence(c, After(cols))
  {
    if cols == [] {
      c := [];
      EmptyIsSubsequence<T>([]);
    } else {
      var rest, col := Init(cols), Last(cols);
      c := KeptIsCommon(rest);
      if col.Keep? {
        GrowBoth(c, Before(rest), col.c);
        GrowBoth(c, After(rest), col.c);
        c := c + [col.c];
      } else {
        GrowRight(c, Before(rest), Consumed(col));
        GrowRight(c, After(rest), Produced(col));
      }
    }
  }

  /** A script without substitutions that keeps as many characters as any can. */
  lemma {:induction false} KeepMost<T>(a: seq<T>, b: seq<T>) returns (cols: seq<Column<T>>)
    ensures Aligns(cols, a, b)
    ensures Kept(cols) == Lcs(a, b)
    ensures Cost(cols) == |a| + |b| - 2 * Lcs(a, b)
    decreases |a| + |b|
  {
    assert a != [] ==> a == Init(a) + [Last(a)];
    assert b != [] ==> b == Init(b) + [Last(b)];
    if a == [] && b == [] {
      cols := [];
    } else if a != [] && b != [] && Last(a) == Last(b) {
      cols := KeepMost(Init(a), Init(b));
      cols := Snoc(cols, Keep(Last(a)));
    } else if b == [] || (a != [] && Lcs(a, b) == Lcs(Init(a), b)) {
      cols := KeepMost(Init(a), b);
      cols := Snoc(cols, Delete(Last(a)));
    } else {
      cols := KeepMost(a, Init(b));
      cols := Snoc(cols, Insert(Last(b)));
    }
  }

  ghost predicate IsLongestCommon<T(!new)>(k: nat, a: seq<T>, b: seq<T>) {
    && (forall c: seq<T> :: IsSubsequence(c, a) && IsSubsequence(c, b) ==> |c| <= k)
    && (exists c: seq<T> :: IsSubsequence(c, a) && IsSubsequence(c, b) && |c| == k)
  }

  lemma LcsIsLongestCommon<T(!new)>(a: seq<T>, b: seq<T>)
    ensures IsLongestCommon(Lcs(a, b), a, b)
  {
    forall c: seq<T> | IsSubsequence(c, a) && IsSubsequence(c, b)
      ensures |c| <= Lcs(a, b)
    {
      EveryCommonSubsequence(c, a, b);
    }
    var cols := KeepMost(a, b);
    var c := KeptIsCommon(cols);
  }

  // ----- The two metrics bound each other -----

  lemma {:induction false} Columns<T>(cols: seq<Column<T>>)
    ensures |Before(cols)| <= Kept(cols) + Cost(cols)
    ensures |After(cols)| <= Kept(cols) + Cost(cols)
  {
    if cols != [] {
      Columns(Init(cols));
    }
  }

  lemma {:induction false} DistanceAgainstLcs<T>(a: seq<T>, b: seq<T>)
    ensures Max(|a|, |b|) - Lcs(a, b) <= Distance(a, b) <= |a| + |b| - 2 * Lcs(a, b)
  {
    var cheapest := SomeScriptAttains(a, b);
    var c := KeptIsCommon(cheapest);
    EveryCommonSubsequence(c, a, b);
    Columns(cheapest);
    var keeping := KeepMost(a, b);
    EveryScriptCosts(keeping, a, b);
  }

  lemma {:induction false} FullIffEqual<T>(a: seq<T>, b: seq<T>)
    ensures Lcs(a, b) <= |a| && Lcs(a, b) <= |b|
    ensures Lcs(a, b) == Max(|a|, |b|) <==> a == b
  {
    var keeping := KeepMost(a, b);
    var c := KeptIsCommon(keeping);
    NotLonger(c, a);
    NotLonger(c, b);
    DistanceAgainstLcs(a, b);
    ZeroIffEqual(a, b);
  }

  // ----- The loop over swapped rows -----

  /** `row` holds `Lcs` of the first `i` characters of `x` and the first `0`, ... `k - 1` of `y`. */
  ghost predicate IsRow<T>(row: seq<nat>, x: seq<T>, i: nat, y: seq<T>, k: nat)
    requires i <= |x| && k <= |y| + 1
  {
    k <= |row| && forall j: nat :: j < k ==> row[j] == Lcs(x[..i], y[..j])
  }

  lemma Cell<T>(x: seq<T>, i: nat, y: seq<T>, j: nat)
    requires 1 <= i <= |x| && 1 <= j <= |y|
    ensures Lcs(x[..i], y[..j])
         == if x[i - 1] == y[j - 1] then Lcs(x[..i - 1], y[..j - 1]) + 1
            else Max(Lcs(x[..i - 1], y[..j]), Lcs(x[..i], y[..j - 1]))
  {
    assert Init(x[..i]) == x[..i - 1] && Init(y[..j]) == y[..j - 1];
  }

  /** The inner loop of `sim`: the next row is written over an old one. */
  method FillRow<T(==)>(x: seq<T>, i: nat, y: seq<T>, prev: array<nat>, cur: array<nat>)
    requires 1 <= i <= |x| && prev != cur && prev.Length == cur.Length == |y| + 1
    requires IsRow(prev[..], x, i - 1, y, |y| + 1) && cur[0] == 0
    modifies cur
    ensures IsRow(cur[..], x, i, y, |y| + 1)
  {
    ghost var above := prev[..];
    for j := 1 to |y| + 1
      invariant prev[..] == above
      invariant IsRow(cur[..], x, i, y, j)
    {
      Cell(x, i, y, j);
      cur[j] := if x[i - 1] == y[j - 1] then prev[j - 1] + 1 else Max(prev[j], cur[j - 1]);
    }
  }

  /** The loops of `sim`. The row being filled still holds the row before last; only its
      never-written cell 0 may be relied on. */
  method CommonLength<T(==, !new)>(x: seq<T>, y: seq<T>) returns (k: nat)
    ensures k == Lcs(x, y)
    ensures IsLongestCommon(k, x, y)
  {
    var m, n := |x|, |y|;
    var prev := new nat[n + 1](_ => 0);
    var cur := new nat[n + 1](_ => 0);
    for i := 1 to m + 1
      invariant fresh(prev) && fresh(cur) && prev != cur && prev.Length == cur.Length == n + 1
      invariant cur[0] == 0
      invariant IsRow(prev[..], x, i - 1, y, n + 1)
    {
      FillRow(x, i, y, prev, cur);
      prev, cur := cur, prev;
    }
    assert x[..m] == x && y[..n] == y;
    k := prev[n];
    LcsIsLongestCommon(x, y);
  }

  /** A text without the characters that the comparison ignores. */
  function Without<T>(s: seq<T>, ignored: T -> bool): seq<T> {
    if s == [] then []
    else if ignored(s[0]) then Without(s[1..], ignored)
    else [s[0]] + Without(s[1..], ignored)
  }

  lemma {:induction false} WithoutMeans<T(!new)>(s: seq<T>, ignored: T -> bool)
    ensures forall c :: c in Without(s, ignored) <==> c in s && !ignored(c)
  {
    if s != [] {
      WithoutMeans(s[1..], ignored);
      WithoutFirst(s, ignored);
      assert s == [s[0]] + s[1..];
    }
  }

  lemma WithoutFirst<T>(s: seq<T>, ignored: T -> bool)
    requires s != []
    ensures Without(s, ignored) == (if ignored(s[0]) then [] else [s[0]]) + Without(s[1..], ignored)
  {
  }

  /** What is left keeps its order and its repetitions. */
  lemma {:induction false} WithoutInParts<T>(a: seq<T>, b: seq<T>, ignored: T -> bool)
    ensures Without(a + b, ignored) == Without(a, ignored) + Without(b, ignored)
    ensures |a| == 1 ==> Without(a, ignored) == if ignored(a[0]) then [] else a
  {
    if a == [] {
      assert a + b == b;
    } else {
      WithoutInParts(a[1..], b, ignored);
      WithoutFirst(a, ignored);
      WithoutFirst(a + b, ignored);
      assert (a + b)[1..] == a[1..] + b;
      Regroup(if ignored(a[0]) then [] else [a[0]], Without(a[1..], ignored), Without(b, ignored));
    }
  }

  lemma RatioInRange(k: nat, n: nat)
    requires k <= n && 0 < n
    ensures 0.0 <= k as real / n as real <= 1.0
    ensures k as real / n as real == 1.0 <==> k == n
  {
    var q, x, y := k as real / n as real, k as real, n as real;
    assert q * y == x && y >= 1.0;
    assert q < 0.0 ==> q * y < 0.0;
    assert q > 1.0 ==> q * y > y;
    assert q == 1.0 ==> x == y;
    assert x == y ==> (q - 1.0) * y == 0.0;
  }

  /** `sim`: a missing first text counts as empty, and empty texts are never similar. */
  method Similarity<T(==, !new)>(a: Option<seq<T>>, b: seq<T>, ignored: T -> bool) returns (r: real)
    ensures 0.0 <= r <= 1.0
    ensures r == 1.0 <==> a.Some? && Without(a.value, ignored) == Without(b, ignored) != []
    ensures a.Some? && Without(a.value, ignored) != [] && Without(b, ignored) != [] ==>
              var x, y := Without(a.value, ignored), Without(b, ignored);
              r == Lcs(x, y) as real / Max(|x|, |y|) as real
    ensures a.None? || Without(a.value, ignored) == [] || Without(b, ignored) == [] ==> r == 0.0
  {
    var x := if a.None? then [] else Without(a.value, ignored);
    var y := Without(b, ignored);
    if x == [] || y == [] {
      return 0.0;
    }
    var k := CommonLength(x, y);
    FullIffEqual(x, y);
    RatioInRange(k, Max(|x|, |y|));
    r := k as real / Max(|x|, |y|) as real;
  }
}
