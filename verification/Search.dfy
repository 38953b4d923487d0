/** Leftmost search, splitting and joining of sequences, as `find`, `split`, `join`,
    `count` and `replace` do it on Python's strings and byte strings. */
module Search {
  import opened Wrappers

  /** `pat` occurs in `s` at position `i`. */
  predicate At<T(==)>(pat: seq<T>, s: seq<T>, i: int) {
    0 <= i <= |s| - |pat| && s[i..i + |pat|] == pat
  }

  lemma AtElements<T>(pat: seq<T>, s: seq<T>, i: int)
    ensures At(pat, s, i) ==> forall k :: 0 <= k < |pat| ==> s[i + k] == pat[k]
  {
    if At(pat, s, i) {
      forall k | 0 <= k < |pat|
        ensures s[i + k] == pat[k]
      {
        assert s[i..i + |pat|][k] == s[i + k];
      }
    }
  }

  /** What follows a text does not change what occurs in it. */
  lemma AtPrefix<T>(pat: seq<T>, a: seq<T>, b: seq<T>, i: nat)
    requires i + |pat| <= |a|
    ensures At(pat, a + b, i) <==> At(pat, a, i)
  {
    assert (a + b)[i..i + |pat|] == a[i..i + |pat|];
  }

  lemma AtSuffix<T>(pat: seq<T>, a: seq<T>, b: seq<T>, i: nat)
    ensures At(pat, a + b, |a| + i) <==> At(pat, b, i)
  {
    assert i + |pat| <= |b| ==> (a + b)[|a| + i..|a| + i + |pat|] == b[i..i + |pat|];
  }

  ghost predicate Occurs<T>(pat: seq<T>, s: seq<T>) {
    exists i :: At(pat, s, i)
  }

  /** The leftmost position of `pat` in `s` that is not before `from`. */
  function FindFrom<T(==)>(pat: seq<T>, s: seq<T>, from: nat): (r: Option<nat>)
    requires from <= |s|
    ensures r.None? ==> forall i :: from <= i ==> !At(pat, s, i)
    ensures r.Some? ==> from <= r.value && At(pat, s, r.value)
    ensures r.Some? ==> forall i :: from <= i < r.value ==> !At(pat, s, i)
    decreases |s| - from
  {
    if At(pat, s, from) then Some(from)
    else if from == |s| then None
    else FindFrom(pat, s, from + 1)
  }

  function Find<T(==)>(pat: seq<T>, s: seq<T>): (r: Option<nat>)
    ensures r.Some? <==> Occurs(pat, s)
    ensures r.Some? ==> At(pat, s, r.value) && forall i :: 0 <= i < r.value ==> !At(pat, s, i)
  {
    FindFrom(pat, s, 0)
  }

  /** `s.split(sep)`: cut at the leftmost occurrence, then go on behind it. */
  function Split<T(==)>(s: seq<T>, sep: seq<T>): (parts: seq<seq<T>>)
    requires sep != []
    ensures parts != []
    decreases |s|, 1
  {
    SplitFirst(s, sep)
  }

  function SplitFirst<T(==)>(s: seq<T>, sep: seq<T>): (parts: seq<seq<T>>)
    requires sep != []
    ensures parts != []
    decreases |s|, 0
  {
    match Find(sep, s)
    case None => [s]
    case Some(i) => [s[..i]] + Split(s[i + |sep|..], sep)
  }

  lemma FirstPart<T>(s: seq<T>, sep: seq<T>)
    requires sep != []
    ensures Split(s, sep)[0] == match Find(sep, s) case None => s case Some(i) => s[..i]
  {
    assert Split(s, sep) == SplitFirst(s, sep);
  }

  /** `sep.join(parts)`. */
  function Join<T>(parts: seq<seq<T>>, sep: seq<T>): seq<T>
    requires parts != []
  {
    if |parts| == 1 then parts[0] else parts[0] + sep + Join(parts[1..], sep)
  }

  lemma {:induction false} JoinSplit<T>(s: seq<T>, sep: seq<T>)
    requires sep != []
    ensures Join(Split(s, sep), sep) == s
    decreases |s|
  {
    var found := Find(sep, s);
    if found.Some? {
      var i := found.value;
      var rest := s[i + |sep|..];
      JoinSplit(rest, sep);
      CutAt(s, sep, i);
      SplitAt(s, sep, i);
      JoinFirst(s[..i], Split(rest, sep), sep);
    } else {
      assert Split(s, sep) == SplitFirst(s, sep);
    }
  }

  lemma JoinFirst<T>(first: seq<T>, parts: seq<seq<T>>, sep: seq<T>)
    requires parts != []
    ensures Join([first] + parts, sep) == first + sep + Join(parts, sep)
  {
    assert ([first] + parts)[1..] == parts;
  }

  /** `sep` occurs in `p + sep` at the end only, so it ends `p` wherever it follows it. */
  ghost predicate EndsAt<T>(p: seq<T>, sep: seq<T>) {
    forall i :: 0 <= i < |p| ==> !At(sep, p + sep, i)
  }

  lemma FirstCut<T>(p: seq<T>, sep: seq<T>, rest: seq<T>)
    requires sep != [] && EndsAt(p, sep)
    ensures Split(p + sep + rest, sep) == [p] + Split(rest, sep)
  {
    var s := p + sep + rest;
    assert At(sep, s, |p|);
    forall i | 0 <= i < |p|
      ensures !At(sep, s, i)
    {
      AtPrefix(sep, p + sep, rest, i);
    }
    assert Find(sep, s) == Some(|p|);
    assert s[..|p|] == p && s[|p| + |sep|..] == rest;
  }

  /** A list of parts from which the separators of the joined text can be told. */
  ghost predicate Clean<T>(parts: seq<seq<T>>, sep: seq<T>) {
    && parts != []
    && (forall k :: 0 <= k < |parts| - 1 ==> EndsAt(parts[k], sep))
    && !Occurs(sep, parts[|parts| - 1])
  }

  /** Splitting a joined list gives the list back when no part hides a separator. */
  lemma {:induction false} SplitJoin<T>(parts: seq<seq<T>>, sep: seq<T>)
    requires sep != [] && Clean(parts, sep)
    ensures Split(Join(parts, sep), sep) == parts
  {
    if |parts| > 1 {
      SplitJoin(parts[1..], sep);
      FirstCut(parts[0], sep, Join(parts[1..], sep));
      assert parts == [parts[0]] + parts[1..];
    }
  }

  /** A one-element separator is hidden in a part only if the part contains it. */
  lemma SingleEndsAt<T>(p: seq<T>, x: T)
    ensures EndsAt(p, [x]) <==> x !in p
    ensures Occurs([x], p) <==> x in p
  {
    if x in p {
      var i :| 0 <= i < |p| && p[i] == x;
      assert p[i..i + 1] == [x];
      assert At([x], p, i);
      assert (p + [x])[i..i + 1] == [x];
      assert At([x], p + [x], i);
    } else {
      forall i | 0 <= i < |p|
        ensures !At([x], p, i) && !At([x], p + [x], i)
      {
        assert p[i..i + 1][0] == p[i];
        assert (p + [x])[i..i + 1][0] == p[i];
      }
    }
  }

  /** No part of a split contains the separator. */
  lemma {:induction false} PartsAreClean<T>(s: seq<T>, sep: seq<T>, k: nat)
    requires sep != [] && k < |Split(s, sep)|
    ensures !Occurs(sep, Split(s, sep)[k])
    decreases |s|
  {
    var found := Find(sep, s);
    if found.Some? {
      var i := found.value;
      if k == 0 {
        if Occurs(sep, s[..i]) {
          var j :| At(sep, s[..i], j);
          assert s[..i][j..j + |sep|] == s[j..j + |sep|];
          assert At(sep, s, j);
        }
      } else {
        PartsAreClean(s[i + |sep|..], sep, k - 1);
      }
    }
  }

  lemma CutOff<T>(s: seq<T>, sep: seq<T>, i: nat)
    requires sep != [] && Find(sep, s) == Some(i)
    ensures s == s[..i] + sep + s[i + |sep|..]
    ensures Split(s, sep) == [s[..i]] + Split(s[i + |sep|..], sep)
  {
    CutAt(s, sep, i);
    SplitAt(s, sep, i);
  }

  lemma CutAt<T>(s: seq<T>, sep: seq<T>, i: nat)
    requires At(sep, s, i)
    ensures s == s[..i] + sep + s[i + |sep|..]
  {
  }

  lemma SplitAt<T>(s: seq<T>, sep: seq<T>, i: nat)
    requires sep != [] && Find(sep, s) == Some(i)
    ensures Split(s, sep) == [s[..i]] + Split(s[i + |sep|..], sep)
  {
  }

  /** In front of its leftmost occurrence, a separator is not hidden. */
  lemma LeftmostEndsAt<T>(s: seq<T>, sep: seq<T>, i: nat)
    requires At(sep, s, i) && forall j :: 0 <= j < i ==> !At(sep, s, j)
    ensures EndsAt(s[..i], sep)
  {
    forall j | 0 <= j < i
      ensures !At(sep, s[..i] + sep, j)
    {
      assert s == s[..i] + sep + s[i + |sep|..];
      AtPrefix(sep, s[..i] + sep, s[i + |sep|..], j);
    }
  }

  lemma {:induction false} SplitIsClean<T>(s: seq<T>, sep: seq<T>)
    requires sep != []
    ensures Clean(Split(s, sep), sep)
    decreases |s|
  {
    var found := Find(sep, s);
    if found.Some? {
      var i := found.value;
      LeftmostEndsAt(s, sep, i);
      SplitIsClean(s[i + |sep|..], sep);
      var parts := Split(s, sep);
      assert parts == [s[..i]] + Split(s[i + |sep|..], sep);
    }
  }

  lemma {:induction false} JoinConcat<T>(a: seq<seq<T>>, b: seq<seq<T>>, sep: seq<T>)
    requires a != [] && b != []
    ensures Join(a + b, sep) == Join(a, sep) + sep + Join(b, sep)
  {
    if |a| == 1 {
      assert (a + b)[1..] == b;
    } else {
      JoinConcat(a[1..], b, sep);
      assert (a + b)[1..] == a[1..] + b;
      var x, y, z := Join(a[1..], sep), Join(b, sep), a[0];
      assert z + sep + (x + sep + y) == z + sep + x + sep + y;
    }
  }

  /** Splitting `a + sep + b` splits both sides, when `a` leaves no separator half open. */
  lemma SplitConcat<T>(a: seq<T>, sep: seq<T>, b: seq<T>)
    requires sep != []
    requires var parts := Split(a, sep); EndsAt(parts[|parts| - 1], sep)
    ensures Split(a + sep + b, sep) == Split(a, sep) + Split(b, sep)
  {
    var p, q := Split(a, sep), Split(b, sep);
    SplitIsClean(a, sep);
    SplitIsClean(b, sep);
    JoinSplit(a, sep);
    JoinSplit(b, sep);
    JoinConcat(p, q, sep);
    SplitJoin(p + q, sep);
  }

  /** No part is longer than the whole. */
  lemma {:induction false} PartsAreNoLonger<T>(s: seq<T>, sep: seq<T>, k: nat)
    requires sep != [] && k < |Split(s, sep)|
    ensures |Split(s, sep)[k]| <= |s|
    decreases |s|
  {
    var found := Find(sep, s);
    if found.Some? && k > 0 {
      PartsAreNoLonger(s[found.value + |sep|..], sep, k - 1);
    }
  }

  /** The last part is what the text ends with. */
  lemma {:induction false} LastPartIsSuffix<T>(s: seq<T>, sep: seq<T>)
    requires sep != []
    ensures var parts := Split(s, sep);
            var last := parts[|parts| - 1];
            |last| <= |s| && s[|s| - |last|..] == last
    decreases |s|
  {
    var found := Find(sep, s);
    if found.Some? {
      var rest := s[found.value + |sep|..];
      LastPartIsSuffix(rest, sep);
      CutOff(s, sep, found.value);
      var parts, more := Split(s, sep), Split(rest, sep);
      assert parts == [s[..found.value]] + more;
    }
  }
}
