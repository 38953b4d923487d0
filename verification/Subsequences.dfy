/** Subsequences by explicit embeddings: `s` is what is left of `t` after dropping elements. */
module Subsequences {
  import opened Alignments

  /** `e` maps each position of `s` to the position of `t` it was taken from. */
  ghost predicate Embeds<T>(e: seq<nat>, s: seq<T>, t: seq<T>) {
    && |e| == |s|
    && (forall i :: 0 <= i < |e| ==> e[i] < |t| && t[e[i]] == s[i])
    && (forall i, j :: 0 <= i < j < |e| ==> e[i] < e[j])
  }

  ghost predicate IsSubsequence<T>(s: seq<T>, t: seq<T>) {
    exists e: seq<nat> :: Embeds(e, s, t)
  }

  lemma EmptyIsSubsequence<T>(t: seq<T>)
    ensures IsSubsequence([], t)
  {
    var e: seq<nat> := [];
    assert Embeds(e, [], t);
  }

  /** A subsequence stays one when the longer text grows at the end. */
  lemma GrowRight<T>(s: seq<T>, t: seq<T>, x: seq<T>)
    requires IsSubsequence(s, t)
    ensures IsSubsequence(s, t + x)
  {
    var e :| Embeds(e, s, t);
    assert Embeds(e, s, t + x);
  }

  lemma GrowBoth<T>(s: seq<T>, t: seq<T>, x: T)
    requires IsSubsequence(s, t)
    ensures IsSubsequence(s + [x], t + [x])
  {
    var e: seq<nat> :| Embeds(e, s, t);
    assert Embeds(e + [|t|], s + [x], t + [x]);
  }

  /** Without their last elements, a subsequence is still a subsequence. */
  lemma DropLast<T>(s: seq<T>, t: seq<T>)
    requires IsSubsequence(s, t) && s != []
    ensures t != [] && IsSubsequence(Init(s), Init(t))
    ensures Last(s) != Last(t) ==> IsSubsequence(s, Init(t))
  {
    var e: seq<nat> :| Embeds(e, s, t);
    assert Last(e) < |t|;
    assert Embeds(Init(e), Init(s), Init(t));
    if Last(s) != Last(t) {
      assert Embeds(e, s, Init(t));
    }
  }

  /** Without their first elements, a subsequence is still a subsequence. */
  lemma DropFirst<T>(s: seq<T>, t: seq<T>)
    requires IsSubsequence(s, t) && s != []
    ensures t != [] && IsSubsequence(s[1..], t[1..])
    ensures s[0] != t[0] ==> IsSubsequence(s, t[1..])
  {
    var e: seq<nat> :| Embeds(e, s, t);
    assert e[0] < |t|;
    var rest := seq(|s| - 1, i requires 0 <= i < |s| - 1 => (assert e[0] < e[i + 1]; e[i + 1] - 1));
    assert Embeds(rest, s[1..], t[1..]);
    if s[0] != t[0] {
      var all := seq(|s|, i requires 0 <= i < |s| => (assert i > 0 ==> e[0] < e[i]; e[i] - 1));
      assert Embeds(all, s, t[1..]);
    }
  }

  lemma PrependBoth<T>(s: seq<T>, t: seq<T>, x: T)
    requires IsSubsequence(s, t)
    ensures IsSubsequence([x] + s, [x] + t)
  {
    var e: seq<nat> :| Embeds(e, s, t);
    assert Embeds([0] + seq(|e|, i requires 0 <= i < |e| => e[i] + 1), [x] + s, [x] + t);
  }

  lemma PrependRight<T>(s: seq<T>, t: seq<T>, x: T)
    requires IsSubsequence(s, t)
    ensures IsSubsequence(s, [x] + t)
  {
    var e: seq<nat> :| Embeds(e, s, t);
    assert Embeds(seq(|e|, i requires 0 <= i < |e| => e[i] + 1), s, [x] + t);
  }

  lemma NotLonger<T>(s: seq<T>, t: seq<T>)
    requires IsSubsequence(s, t)
    ensures |s| <= |t|
    ensures |s| == |t| ==> s == t
    decreases |s|
  {
    if s != [] {
      DropFirst(s, t);
      if s[0] != t[0] {
        NotLonger(s[1..], t[1..]);
        DropFirst(s, t[1..]);
        NotLonger(s[1..], t[1..][1..]);
      } else {
        NotLonger(s[1..], t[1..]);
        assert s == [s[0]] + s[1..] && t == [t[0]] + t[1..];
      }
    }
  }
}
