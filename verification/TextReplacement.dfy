/** Counting and replacing text the way Python's `str.count` and `str.replace` do. */
module TextReplacement {
  import opened Search

  /** `s.count(old)`: non-overlapping occurrences from the left; the empty text occurs
      before every character and at the end. */
  function Count(s: string, old_: string): nat {
    if old_ == "" then |s| + 1 else |Split(s, old_)| - 1
  }

  function Interleaved(s: string, new_: string): string {
    if s == "" then new_ else new_ + [s[0]] + Interleaved(s[1..], new_)
  }

  /** `s.replace(old, new)`. */
  function ReplaceAll(s: string, old_: string, new_: string): string {
    if old_ == "" then Interleaved(s, new_) else Join(Split(s, old_), new_)
  }

  lemma {:induction false} JoinLength(parts: seq<string>, a: string, b: string)
    requires parts != []
    ensures |Join(parts, a)| - |Join(parts, b)| == (|parts| - 1) * (|a| - |b|)
  {
    if |parts| > 1 {
      JoinLength(parts[1..], a, b);
      var n, d := |parts| - 1, |a| - |b|;
      assert n * d == (n - 1) * d + d;
    }
  }

  /** Joining two or more parts with different texts gives different results. */
  lemma SeparatorShows(parts: seq<string>, a: string, b: string)
    requires |parts| > 1 && Join(parts, a) == Join(parts, b)
    ensures a == b
  {
    JoinLength(parts, a, b);
    var n, d := |parts| - 1, |a| - |b|;
    assert n * d == 0 && n > 0 ==> d == 0;
    var p := parts[0];
    var s, t := Join(parts, a), Join(parts, b);
    assert s[|p|..|p| + |a|] == a;
    assert t[|p|..|p| + |b|] == b;
  }

  lemma {:induction false} InterleavedLength(s: string, new_: string)
    ensures |Interleaved(s, new_)| >= |s| + |new_|
    ensures new_ == "" ==> Interleaved(s, new_) == s
  {
    if s != "" {
      InterleavedLength(s[1..], new_);
      assert s == [s[0]] + s[1..];
    }
  }

  /** Replacing something that occurs changes the text exactly if it is replaced by
      something else. */
  lemma ChangesIff(s: string, old_: string, new_: string)
    requires Count(s, old_) > 0
    ensures ReplaceAll(s, old_, new_) == s <==> old_ == new_
  {
    if old_ == "" {
      InterleavedLength(s, new_);
    } else {
      JoinSplit(s, old_);
      if ReplaceAll(s, old_, new_) == s {
        SeparatorShows(Split(s, old_), new_, old_);
      }
    }
  }

  /** Replacing what does not occur changes nothing. */
  lemma NothingToReplace(s: string, old_: string, new_: string)
    requires Count(s, old_) == 0
    ensures ReplaceAll(s, old_, new_) == s
  {
    JoinSplit(s, old_);
  }

  /** The replacement is there afterwards. */
  lemma NewIsPresent(s: string, old_: string, new_: string)
    requires Count(s, old_) > 0
    ensures Occurs(new_, ReplaceAll(s, old_, new_))
  {
    var r := ReplaceAll(s, old_, new_);
    if old_ == "" {
      assert r[0..|new_|] == new_;
      assert At(new_, r, 0);
    } else {
      var p := Split(s, old_)[0];
      assert r[|p|..|p| + |new_|] == new_;
      assert At(new_, r, |p|);
    }
  }

  /** Every occurrence is counted and replaced: in a text joined from parts that hide none. */
  lemma ReplacesEvery(parts: seq<string>, old_: string, new_: string)
    requires old_ != "" && Clean(parts, old_)
    ensures Count(Join(parts, old_), old_) == |parts| - 1
    ensures ReplaceAll(Join(parts, old_), old_, new_) == Join(parts, new_)
  {
    SplitJoin(parts, old_);
  }

  /** The empty text is replaced in front of every character and at the end. */
  lemma {:induction false} EmptyIsEverywhere(s: string, new_: string)
    ensures Count(s, "") == |s| + 1
    ensures |Interleaved(s, new_)| == |s| + (|s| + 1) * |new_|
    ensures s != "" ==> Interleaved(s, new_) == new_ + [s[0]] + Interleaved(s[1..], new_)
    ensures s == "" ==> Interleaved(s, new_) == new_
  {
    if s != "" {
      EmptyIsEverywhere(s[1..], new_);
      var n, k := |s|, |new_|;
      assert (n + 1) * k == n * k + k;
    }
  }
}
