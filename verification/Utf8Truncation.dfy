/** Truncation of error texts to whole characters, backend/internal/agent/errors.go, with
    UTF-8 as section 4 of RFC 3629 defines it. */
module Utf8Truncation {
  import opened Bytes
  import opened Wrappers

  predicate IsTail(b: byte) {
    0x80 <= b <= 0xBF
  }

  /** How many bytes the character at the start of `s` has; zero if there is none. */
  function CharLength(s: bytes): (n: nat)
    ensures n <= |s| && n <= 4
  {
    if s == [] then 0
    else if s[0] <= 0x7F then 1
    else if |s| < 2 then 0
    else if 0xC2 <= s[0] <= 0xDF then (if IsTail(s[1]) then 2 else 0)
    else if |s| < 3 || !IsTail(s[2]) then 0
    else if s[0] == 0xE0 then (if 0xA0 <= s[1] <= 0xBF then 3 else 0)
    else if s[0] == 0xED then (if 0x80 <= s[1] <= 0x9F then 3 else 0)
    else if 0xE1 <= s[0] <= 0xEF then (if IsTail(s[1]) then 3 else 0)
    else if |s| < 4 || !IsTail(s[3]) then 0
    else if s[0] == 0xF0 then (if 0x90 <= s[1] <= 0xBF then 4 else 0)
    else if s[0] == 0xF4 then (if 0x80 <= s[1] <= 0x8F then 4 else 0)
    else if 0xF1 <= s[0] <= 0xF3 then (if IsTail(s[1]) then 4 else 0)
    else 0
  }

  /** `utf8.ValidString`. */
  predicate Valid(s: bytes)
    decreases |s|
  {
    s == [] || (CharLength(s) > 0 && Valid(s[CharLength(s)..]))
  }

  /** `k` is where a character of `s` starts or where `s` ends. */
  predicate IsBoundary(s: bytes, k: nat)
    decreases k
  {
    k == 0 || (0 < CharLength(s) <= k && IsBoundary(s[CharLength(s)..], k - CharLength(s)))
  }

  /** A character is the same character whatever follows, and no part of one is a character. */
  lemma CharIsStable(s: bytes, k: nat)
    requires k <= |s| && CharLength(s) > 0
    ensures CharLength(s[..k]) == if k < CharLength(s) then 0 else CharLength(s)
  {
  }

  /** A prefix of a valid text is valid exactly if it ends on a character boundary. */
  lemma {:induction false} PrefixIsValidIff(s: bytes, k: nat)
    requires Valid(s) && k <= |s|
    ensures Valid(s[..k]) <==> IsBoundary(s, k)
    decreases |s|
  {
    if k > 0 {
      var n := CharLength(s);
      CharIsStable(s, k);
      if n <= k {
        PrefixIsValidIff(s[n..], k - n);
        assert s[..k][n..] == s[n..][..k - n];
      }
    }
  }

  /** Boundaries are at most four bytes apart. */
  lemma {:induction false} BoundaryIsNear(s: bytes, k: nat) returns (b: nat)
    requires Valid(s) && k <= |s|
    ensures b <= k <= b + 3 && IsBoundary(s, b)
    decreases |s|
  {
    var n := CharLength(s);
    if k == 0 || k < n {
      b := 0;
    } else {
      var c := BoundaryIsNear(s[n..], k - n);
      b := c + n;
    }
  }

  lemma {:induction false} ConcatIsValid(a: bytes, b: bytes)
    requires Valid(a) && Valid(b)
    ensures Valid(a + b)
    decreases |a|
  {
    if a == [] {
      assert a + b == b;
    } else {
      var n := CharLength(a);
      StableUnderMore(a, b);
      ConcatIsValid(a[n..], b);
      ValidFrom(a + b, n);
    }
  }

  lemma StableUnderMore(a: bytes, b: bytes)
    requires CharLength(a) > 0
    ensures CharLength(a + b) == CharLength(a)
    ensures (a + b)[CharLength(a)..] == a[CharLength(a)..] + b
  {
  }

  lemma ValidFrom(s: bytes, n: nat)
    requires 0 < CharLength(s) == n && Valid(s[n..])
    ensures Valid(s)
  {
  }

  const ELLIPSIS: bytes := [0x2E, 0x2E, 0x2E]

  /** `k` is the length of the longest valid prefix of `s` of at most `limit` bytes. */
  ghost predicate IsLongestValid(s: bytes, k: nat, limit: nat) {
    && k <= limit && k <= |s| && Valid(s[..k])
    && forall j :: k < j <= limit && j <= |s| ==> !Valid(s[..j])
  }

  /** `truncateStr`; `None` stands for the panic of a negative slice bound. */
  method Truncate(s: bytes, maxLen: int) returns (r: Option<bytes>)
    ensures r.None? <==> |s| > maxLen && maxLen < 3
    ensures |s| <= maxLen ==> r == Some(s)
    ensures |s| > maxLen && r.Some? ==>
              && Valid(r.value) && 3 <= |r.value| <= maxLen
              && r.value == s[..|r.value| - 3] + [0x2E, 0x2E, 0x2E]
              && IsLongestValid(s, |r.value| - 3, maxLen - 3)
    ensures r.Some? && Valid(s) ==> Valid(r.value)
    ensures |s| > maxLen && r.Some? && Valid(s) ==> |r.value| >= maxLen - 3
  {
    if |s| <= maxLen {
      return Some(s);
    }
    if maxLen < 3 {
      return None;
    }
    var limit := maxLen - 3;
    var cut := s[..limit];
    while |cut| > 0 && !Valid(cut)
      invariant |cut| <= limit && cut == s[..|cut|]
      invariant forall j :: |cut| < j <= limit ==> !Valid(s[..j])
    {
      assert cut[..|cut| - 1] == s[..|cut| - 1];
      cut := cut[..|cut| - 1];
    }
    if Valid(s) {
      var b := BoundaryIsNear(s, limit);
      PrefixIsValidIff(s, b);
    }
    EllipsisIsValid();
    ConcatIsValid(cut, ELLIPSIS);
    r := Some(cut + ELLIPSIS);
    assert r.value[..|cut|] == cut;
  }

  lemma EllipsisIsValid()
    ensures Valid(ELLIPSIS)
  {
    assert ELLIPSIS[1..][1..][1..] == [];
  }
}
