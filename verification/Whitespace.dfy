/** White space and trimming as the languages of the repository define them. */
module Whitespace {

  /** Go's `unicode.IsSpace`. */
  predicate IsSpace(c: char) {
    || '\t' <= c <= '\r'
    || c == ' '
    || c == '\U{85}' || c == '\U{A0}' || c == '\U{1680}'
    || '\U{2000}' <= c <= '\U{200A}'
    || c == '\U{2028}' || c == '\U{2029}' || c == '\U{202F}' || c == '\U{205F}' || c == '\U{3000}'
  }

  /** Python's `str.isspace`: the four information separators count as well. */
  predicate IsPythonSpace(c: char) {
    IsSpace(c) || '\U{1C}' <= c <= '\U{1F}'
  }

  /** The characters that Unicode calls white space, and the four more of Python. */
  lemma SpacesAre(c: char)
    ensures IsSpace(c) <==>
            c as int in {9, 10, 11, 12, 13, 32, 0x85, 0xA0, 0x1680, 0x2000, 0x2001, 0x2002, 0x2003, 0x2004, 0x2005,
                         0x2006, 0x2007, 0x2008, 0x2009, 0x200A, 0x2028, 0x2029, 0x202F, 0x205F, 0x3000}
    ensures IsPythonSpace(c) <==> IsSpace(c) || c as int in {0x1C, 0x1D, 0x1E, 0x1F}
  {
  }

  function TrimLeft<T>(s: seq<T>, drop: T -> bool): (r: seq<T>)
    ensures |r| <= |s| && s[|s| - |r|..] == r
    ensures forall i :: 0 <= i < |s| - |r| ==> drop(s[i])
    ensures r != [] ==> !drop(r[0])
  {
    if s != [] && drop(s[0]) then TrimLeft(s[1..], drop) else s
  }

  function TrimRight<T>(s: seq<T>, drop: T -> bool): (r: seq<T>)
    ensures |r| <= |s| && s[..|r|] == r
    ensures forall i :: |r| <= i < |s| ==> drop(s[i])
    ensures r != [] ==> !drop(r[|r| - 1])
  {
    if s != [] && drop(s[|s| - 1]) then TrimRight(s[..|s| - 1], drop) else s
  }

  /** `strings.TrimSpace`. */
  function TrimSpace(s: string): (r: string)
    ensures |r| <= |s|
    ensures r != "" ==> !IsSpace(r[0]) && !IsSpace(r[|r| - 1])
  {
    if s != "" && IsSpace(s[0]) then TrimSpace(s[1..])
    else if s != "" && IsSpace(s[|s| - 1]) then TrimSpace(s[..|s| - 1])
    else s
  }

  lemma TrimRightKeepsEnd<T>(s: seq<T>, drop: T -> bool)
    requires s == [] || !drop(s[|s| - 1])
    ensures TrimRight(s, drop) == s
  {
  }

  lemma {:induction false} TrimRightDropsTail<T>(s: seq<T>, tail: seq<T>, drop: T -> bool)
    requires forall i :: 0 <= i < |tail| ==> drop(tail[i])
    ensures TrimRight(s + tail, drop) == TrimRight(s, drop)
    decreases |tail|
  {
    if tail == [] {
      assert s + tail == s;
    } else {
      TrimRightDropsTail(s, tail[..|tail| - 1], drop);
      assert (s + tail)[..|s + tail| - 1] == s + tail[..|tail| - 1];
    }
  }

  /** White space in front of a text does not survive trimming. */
  lemma {:induction false} PadIsTrimmed(pad: string, s: string)
    requires forall i :: 0 <= i < |pad| ==> IsSpace(pad[i])
    ensures TrimSpace(pad + s) == TrimSpace(s)
  {
    if pad == "" {
      assert pad + s == s;
    } else {
      PadIsTrimmed(pad[1..], s);
      assert (pad + s)[0] == pad[0] && (pad + s)[1..] == pad[1..] + s;
    }
  }

  /** A text is unchanged by trimming exactly if neither end is a space. */
  lemma TrimmedIff(s: string)
    ensures TrimSpace(s) == s <==> s == "" || (!IsSpace(s[0]) && !IsSpace(s[|s| - 1]))
  {
  }

  lemma {:induction false} TrimmingTakesAway(s: string, c: char)
    ensures c in TrimSpace(s) ==> c in s
  {
    if s != "" && IsSpace(s[0]) {
      TrimmingTakesAway(s[1..], c);
    } else if s != "" && IsSpace(s[|s| - 1]) {
      TrimmingTakesAway(s[..|s| - 1], c);
    }
  }
}
