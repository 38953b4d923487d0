/** The edit distance of scripts/eval-asr-accuracy.py and the error rate built on it. */
module EditDistance {
  import opened Alignments

  /** The distance by recursion on the last characters. */
  function Distance<T(==)>(a: seq<T>, b: seq<T>): nat
    decreases |a| + |b|
  {
    if a == [] then |b|
    else if b == [] then |a|
    else if Last(a) == Last(b) then Distance(Init(a), Init(b))
    else 1 + Min(Distance(Init(a), Init(b)), Min(Distance(Init(a), b), Distance(a, Init(b))))
  }

  function Min(x: nat, y: nat): nat {
    if x <= y then x else y
  }

  function Max(x: nat, y: nat): nat {
    if x <= y then y else x
  }

  // ----- The distance is the cost of a cheapest script -----

  /** One more character on either side moves the distance by at most one. */
  lemma {:induction false} Lipschitz<T>(a: seq<T>, b: seq<T>)
    ensures a != [] ==> Distance(Init(a), b) - 1 <= Distance(a, b) <= Distance(Init(a), b) + 1
    ensures b != [] ==> Distance(a, Init(b)) - 1 <= Distance(a, b) <= Distance(a, Init(b)) + 1
    decreases |a| + |b|
  {
    if a != [] && b != [] {
      Lipschitz(Init(a), b);
      Lipschitz(a, Init(b));
      Lipschitz(Init(a), Init(b));
    }
  }

  /** No script is cheaper than the distance. */
  lemma {:induction false} EveryScriptCosts<T>(cols: seq<Column<T>>, a: seq<T>, b: seq<T>)
    requires Aligns(cols, a, b)
    ensures Distance(a, b) <= Cost(cols)
  {
    if cols != [] {
      var rest, col := Init(cols), Last(cols);
      EveryScriptCosts(rest, Before(rest), After(rest));
      Lipschitz(a, b);
      assert a == Before(rest) + Consumed(col) && b == After(rest) + Produced(col);
      assert Consumed(col) != [] ==> Init(a) == Before(rest);
      assert Produced(col) != [] ==> Init(b) == After(rest);
      assert Consumed(col) == [] ==> a == Before(rest);
      assert Produced(col) == [] ==> b == After(rest);
    }
  }

  /** Some script attains the distance. */
  lemma {:induction false} SomeScriptAttains<T>(a: seq<T>, b: seq<T>) returns (cols: seq<Column<T>>)
    ensures Aligns(cols, a, b)
    ensures Cost(cols) == Distance(a, b)
    decreases |a| + |b|
  {
    assert a != [] ==> a == Init(a) + [Last(a)];
    assert b != [] ==> b == Init(b) + [Last(b)];
    if a == [] && b == [] {
      cols := [];
    } else if a == [] {
      cols := SomeScriptAttains(a, Init(b));
      cols := Snoc(cols, Insert(Last(b)));
    } else if b == [] {
      cols := SomeScriptAttains(Init(a), b);
      cols := Snoc(cols, Delete(Last(a)));
    } else if Last(a) == Last(b) {
      cols := SomeScriptAttains(Init(a), Init(b));
      cols := Snoc(cols, Keep(Last(a)));
    } else if Distance(a, b) == 1 + Distance(Init(a), Init(b)) {
      cols := SomeScriptAttains(Init(a), Init(b));
      cols := Snoc(cols, Substitute(Last(a), Last(b)));
    } else if Distance(a, b) == 1 + Distance(Init(a), b) {
      cols := SomeScriptAttains(Init(a), b);
      cols := Snoc(cols, Delete(Last(a)));
    } else {
      cols := SomeScriptAttains(a, Init(b));
      cols := Snoc(cols, Insert(Last(b)));
    }
  }

  /** `d` is the least cost of a script that turns `a` into `b`. */
  ghost predicate IsLeastCost<T(!new)>(d: nat, a: seq<T>, b: seq<T>) {
    && (forall cols: seq<Column<T>> :: Aligns(cols, a, b) ==> d <= Cost(cols))
    && (exists cols: seq<Column<T>> :: Aligns(cols, a, b) && d == Cost(cols))
  }

  lemma DistanceIsLeastCost<T(!new)>(a: seq<T>, b: seq<T>)
    ensures IsLeastCost(Distance(a, b), a, b)
  {
    forall cols: seq<Column<T>> | Aligns(cols, a, b)
      ensures Distance(a, b) <= Cost(cols)
    {
      EveryScriptCosts(cols, a, b);
    }
    var best := SomeScriptAttains(a, b);
  }

  // ----- The distance is a metric -----

  lemma {:induction false} ZeroIffEqual<T>(a: seq<T>, b: seq<T>)
    ensures Distance(a, b) == 0 <==> a == b
    decreases |a| + |b|
  {
    if a != [] && b != [] {
      ZeroIffEqual(Init(a), Init(b));
      assert a == Init(a) + [Last(a)] && b == Init(b) + [Last(b)];
    }
  }

  lemma {:induction false} Symmetric<T>(a: seq<T>, b: seq<T>)
    ensures Distance(a, b) == Distance(b, a)
  {
    var there := SomeScriptAttains(a, b);
    var back := SomeScriptAttains(b, a);
    EveryScriptCosts(Inverse(there), b, a);
    EveryScriptCosts(Inverse(back), a, b);
  }

  lemma {:induction false} Triangle<T>(a: seq<T>, b: seq<T>, c: seq<T>)
    ensures Distance(a, c) <= Distance(a, b) + Distance(b, c)
  {
    var p := SomeScriptAttains(a, b);
    var q := SomeScriptAttains(b, c);
    EveryScriptCosts(Compose(p, q), a, c);
  }

  lemma {:induction false} Bounds<T>(a: seq<T>, b: seq<T>)
    ensures |a| - |b| <= Distance(a, b) && |b| - |a| <= Distance(a, b)
    ensures Distance(a, b) <= Max(|a|, |b|)
    decreases |a| + |b|
  {
    if a != [] && b != [] {
      Bounds(Init(a), Init(b));
      Bounds(Init(a), b);
      Bounds(a, Init(b));
    }
  }

  // ----- The two-row loop -----

  /** `row` holds the distances from the first `i` characters of `ref` to the first
      `0`, `1`, ... `k - 1` characters of `hyp`. */
  ghost predicate IsRow<T>(row: seq<nat>, ref: seq<T>, i: nat, hyp: seq<T>, k: nat)
    requires i <= |ref| && k <= |hyp| + 1
  {
    k <= |row| && forall j: nat :: j < k ==> row[j] == Distance(ref[..i], hyp[..j])
  }

  /** One cell from the three cells above and to the left of it. */
  lemma Cell<T>(ref: seq<T>, i: nat, hyp: seq<T>, j: nat)
    requires 1 <= i <= |ref| && 1 <= j <= |hyp|
    ensures var both := Distance(ref[..i - 1], hyp[..j - 1]);
            Distance(ref[..i], hyp[..j])
            == if ref[i - 1] == hyp[j - 1] then both
               else 1 + Min(both, Min(Distance(ref[..i - 1], hyp[..j]), Distance(ref[..i], hyp[..j - 1])))
  {
    assert Init(ref[..i]) == ref[..i - 1] && Init(hyp[..j]) == hyp[..j - 1];
  }

  /** From nothing, every character has to be inserted. */
  lemma FirstRow<T>(row: seq<nat>, ref: seq<T>, hyp: seq<T>)
    requires |row| == |hyp| + 1 && forall j :: 0 <= j < |row| ==> row[j] == j
    ensures IsRow(row, ref, 0, hyp, |hyp| + 1)
  {
    assert ref[..0] == [];
  }

  /** The inner loop of `_levenshtein`: the row for `i` characters of `ref` from the row above. */
  method NextRow<T(==)>(ref: seq<T>, i: nat, hyp: seq<T>, prev: array<nat>) returns (cur: array<nat>)
    requires 1 <= i <= |ref| && prev.Length == |hyp| + 1
    requires IsRow(prev[..], ref, i - 1, hyp, |hyp| + 1)
    ensures cur.Length == |hyp| + 1 && IsRow(cur[..], ref, i, hyp, |hyp| + 1)
  {
    var m := |hyp|;
    cur := new nat[m + 1](_ => 0);
    cur[0] := i;
    ghost var above := prev[..];
    for j := 1 to m + 1
      invariant prev[..] == above
      invariant IsRow(cur[..], ref, i, hyp, j)
    {
      Cell(ref, i, hyp, j);
      if ref[i - 1] == hyp[j - 1] {
        cur[j] := prev[j - 1];
      } else {
        cur[j] := 1 + Min(prev[j - 1], Min(prev[j], cur[j - 1]));
      }
    }
  }

  /** `_levenshtein`: one row of the table at a time, each filled from the row above. */
  method Levenshtein<T(==, !new)>(ref: seq<T>, hyp: seq<T>) returns (edits: nat)
    ensures edits == Distance(ref, hyp)
    ensures IsLeastCost(edits, ref, hyp)
  {
    var n, m := |ref|, |hyp|;
    if n == 0 {
      DistanceIsLeastCost(ref, hyp);
      return m;
    }
    var prev := new nat[m + 1](j => j);
    FirstRow(prev[..], ref, hyp);
    for i := 1 to n + 1
      invariant prev.Length == m + 1
      invariant IsRow(prev[..], ref, i - 1, hyp, m + 1)
    {
      prev := NextRow(ref, i, hyp, prev);
    }
    assert ref[..n] == ref && hyp[..m] == hyp;
    edits := prev[m];
    DistanceIsLeastCost(ref, hyp);
  }

  // ----- The error rate -----

  datatype Score = Score(edits: nat, rate: real, exact: bool, refLen: nat)

  /** `edits` is the share `rate` of `n`. */
  predicate IsRate(rate: real, edits: nat, n: nat) {
    rate * n as real == edits as real
  }

  /** The rate in `cer`: edits per character of the reference. */
  method Rate(edits: nat, n: nat, m: nat) returns (rate: real)
    ensures n > 0 ==> IsRate(rate, edits, n)
    ensures n > 0 ==> (rate == 0.0 <==> edits == 0)
    ensures n > 0 && edits <= n ==> rate <= 1.0
    ensures n == 0 ==> rate == if m > 0 then 1.0 else 0.0
    ensures 0.0 <= rate
  {
    rate := if n > 0 then edits as real / n as real else if m > 0 then 1.0 else 0.0;
    if n > 0 {
      assert IsRate(rate, edits, n);
    }
  }

  /** `cer` on two texts that are already normalised. */
  method ErrorRate<T(==, !new)>(r: seq<T>, h: seq<T>) returns (score: Score)
    ensures score.exact <==> r == h
    ensures score.exact <==> score.rate == 0.0
    ensures 0.0 <= score.rate
    ensures |h| <= |r| ==> score.rate <= 1.0
    ensures score.edits == Distance(r, h) && score.refLen == |r|
    ensures r != [] ==> IsRate(score.rate, score.edits, |r|)
    ensures r == [] && h != [] ==> score.rate == 1.0
  {
    var edits := Levenshtein(r, h);
    ZeroIffEqual(r, h);
    Bounds(r, h);
    var rate := Rate(edits, |r|, |h|);
    score := Score(edits, rate, edits == 0, |r|);
  }
}
