/** Text and its UTF-8 encoding (section 3 of RFC 3629), with the decoder that leaves out
    what is no character, as Python's `decode("utf-8", "ignore")` does. */
module Utf8Text {
  import opened Bytes
  import opened Sequences
  import opened Utf8Truncation

  function Continuation(n: nat): (b: byte)
    ensures Utf8Truncation.IsTail(b)
  {
    0x80 + n % 64
  }

  /** The six bits of a continuation byte. */
  function Low(b: byte): nat
    requires Utf8Truncation.IsTail(b)
  {
    b as int - 0x80
  }

  function EncodedChar(c: char): (bs: bytes)
    ensures bs != []
  {
    var n := c as int;
    if n < 0x80 then [n]
    else if n < 0x800 then [0xC0 + n / 64, Continuation(n)]
    else if n < 0x10000 then [0xE0 + n / 4096, Continuation(n / 64), Continuation(n)]
    else [0xF0 + n / 262144, Continuation(n / 4096), Continuation(n / 64), Continuation(n)]
  }

  /** `str.encode`. */
  function Encode(s: string): bytes {
    if s == "" then [] else EncodedChar(s[0]) + Encode(s[1..])
  }

  /** The number of the character at the start of `bs`. */
  function Scalar(bs: bytes): nat
    requires CharLength(bs) > 0
  {
    var n := CharLength(bs);
    if n == 1 then bs[0]
    else if n == 2 then (bs[0] as int - 0xC0) * 64 + Low(bs[1])
    else if n == 3 then (bs[0] as int - 0xE0) * 4096 + Low(bs[1]) * 64 + Low(bs[2])
    else (bs[0] as int - 0xF0) * 262144 + Low(bs[1]) * 4096 + Low(bs[2]) * 64 + Low(bs[3])
  }

  function FirstChar(bs: bytes): char
    requires CharLength(bs) > 0
  {
    Scalar(bs) as char
  }

  /** `bytes.decode("utf-8", "ignore")`. */
  function Decode(bs: bytes): string
    decreases |bs|, 1
  {
    DecodeFirst(bs)
  }

  function DecodeFirst(bs: bytes): string
    decreases |bs|, 0
  {
    if bs == [] then ""
    else if CharLength(bs) == 0 then Decode(bs[1..])
    else [FirstChar(bs)] + Decode(bs[CharLength(bs)..])
  }

  lemma CharIsDecoded(c: char, rest: bytes)
    ensures var bs := EncodedChar(c) + rest;
            CharLength(bs) == |EncodedChar(c)| && FirstChar(bs) == c && bs[|EncodedChar(c)|..] == rest
  {
    var own := EncodedChar(c);
    var bs := own + rest;
    assert forall i :: 0 <= i < |own| ==> bs[i] == own[i];
    OwnLength(c);
    StableUnderMore(own, rest);
  }

  lemma TwoBytes(a: nat, b: nat)
    requires 2 <= a < 32 && b < 64
    ensures var bs: bytes := [0xC0 + a, 0x80 + b]; CharLength(bs) == 2 && Scalar(bs) == a * 64 + b
  {
  }

  lemma ThreeBytes(a: nat, b: nat, c: nat)
    requires a < 16 && b < 64 && c < 64
    requires (a == 0 ==> b >= 32) && (a == 13 ==> b < 32)
    ensures var bs: bytes := [0xE0 + a, 0x80 + b, 0x80 + c];
            CharLength(bs) == 3 && Scalar(bs) == a * 4096 + b * 64 + c
  {
  }

  lemma FourBytes(a: nat, b: nat, c: nat, d: nat)
    requires a <= 4 && b < 64 && c < 64 && d < 64
    requires (a == 0 ==> b >= 16) && (a == 4 ==> b < 16)
    ensures var bs: bytes := [0xF0 + a, 0x80 + b, 0x80 + c, 0x80 + d];
            CharLength(bs) == 4 && Scalar(bs) == a * 262144 + b * 4096 + c * 64 + d
  {
  }

  /** The groups of six bits of a number. */
  lemma SixBits(n: nat)
    ensures n == n / 64 * 64 + n % 64
    ensures n / 4096 == n / 64 / 64 && n / 262144 == n / 4096 / 64
  {
  }

  lemma OwnLength(c: char)
    ensures var own := EncodedChar(c);
            CharLength(own) == |own| && Scalar(own) == c as int
  {
    var n := c as int;
    SixBits(n);
    SixBits(n / 64);
    SixBits(n / 4096);
    if n < 0x80 {
    } else if n < 0x800 {
      TwoBytes(n / 64, n % 64);
    } else if n < 0x10000 {
      assert n / 4096 == 13 ==> n / 64 % 64 < 32;
      ThreeBytes(n / 4096, n / 64 % 64, n % 64);
    } else {
      FourBytes(n / 262144, n / 4096 % 64, n / 64 % 64, n % 64);
    }
  }

  /** Decoding gives back every text. */
  lemma {:induction false} DecodeEncode(s: string)
    ensures Decode(Encode(s)) == s
  {
    if s != "" {
      CharIsDecoded(s[0], Encode(s[1..]));
      DecodeEncode(s[1..]);
    }
  }

  lemma {:induction false} EncodeConcat(s: string, t: string)
    ensures Encode(s + t) == Encode(s) + Encode(t)
  {
    if s == "" {
      assert s + t == t;
    } else {
      EncodeConcat(s[1..], t);
      assert (s + t)[1..] == s[1..] + t;
      Regroup(EncodedChar(s[0]), Encode(s[1..]), Encode(t));
    }
  }

  /** The bytes of a character are the only ones that are read as it. */
  lemma CharIsEncoded(bs: bytes)
    requires CharLength(bs) > 0
    ensures EncodedChar(FirstChar(bs)) == bs[..CharLength(bs)]
  {
    var n := CharLength(bs);
    if n == 2 {
      TwoAreEncoded(bs);
    } else if n == 3 {
      ThreeAreEncoded(bs);
    } else if n == 4 {
      FourAreEncoded(bs);
    }
  }

  lemma TwoAreEncoded(bs: bytes)
    requires CharLength(bs) == 2
    ensures EncodedChar(FirstChar(bs)) == bs[..2]
  {
    SixBitsBack(bs[0] as int - 0xC0, Low(bs[1]));
  }

  lemma ThreeAreEncoded(bs: bytes)
    requires CharLength(bs) == 3
    ensures EncodedChar(FirstChar(bs)) == bs[..3]
  {
    ThreeGroups(bs[0] as int - 0xE0, Low(bs[1]), Low(bs[2]));
  }

  lemma FourAreEncoded(bs: bytes)
    requires CharLength(bs) == 4
    ensures EncodedChar(FirstChar(bs)) == bs[..4]
  {
    FourGroups(bs[0] as int - 0xF0, Low(bs[1]), Low(bs[2]), Low(bs[3]));
  }

  lemma SixBitsBack(a: nat, b: nat)
    requires b < 64
    ensures (a * 64 + b) / 64 == a && (a * 64 + b) % 64 == b
  {
  }

  lemma ThreeGroups(a: nat, b: nat, c: nat)
    requires b < 64 && c < 64
    ensures var n := a * 4096 + b * 64 + c;
            n / 4096 == a && n / 64 == a * 64 + b && n / 64 % 64 == b && n % 64 == c
  {
    var n := a * 4096 + b * 64 + c;
    SixBitsBack(a * 64 + b, c);
    SixBitsBack(a, b);
    SixBits(n);
  }

  lemma FourGroups(a: nat, b: nat, c: nat, d: nat)
    requires b < 64 && c < 64 && d < 64
    ensures var n := a * 262144 + b * 4096 + c * 64 + d;
            n / 262144 == a && n / 4096 % 64 == b && n / 64 % 64 == c && n % 64 == d
  {
    var n := a * 262144 + b * 4096 + c * 64 + d;
    SixBitsBack(a * 4096 + b * 64 + c, d);
    ThreeGroups(a, b, c);
    SixBits(n);
  }

  /** Valid UTF-8 is exactly what texts are encoded as. */
  lemma {:induction false} ValidIsEncoded(bs: bytes)
    requires Valid(bs)
    ensures Encode(Decode(bs)) == bs
    decreases |bs|
  {
    if bs != [] {
      var n := CharLength(bs);
      CharIsEncoded(bs);
      ValidIsEncoded(bs[n..]);
      DecodedFirst(bs);
      FirstOfText(FirstChar(bs), Decode(bs[n..]));
      Halves(bs, n);
    }
  }

  lemma DecodedFirst(bs: bytes)
    requires CharLength(bs) > 0
    ensures Decode(bs) == [FirstChar(bs)] + Decode(bs[CharLength(bs)..])
  {
  }

  lemma Halves(bs: bytes, n: nat)
    requires n <= |bs|
    ensures bs == bs[..n] + bs[n..]
  {
  }

  lemma FirstOfText(c: char, rest: string)
    ensures Encode([c] + rest) == EncodedChar(c) + Encode(rest)
  {
    assert ([c] + rest)[1..] == rest;
  }

  lemma {:induction false} EncodedIsValid(s: string)
    ensures Valid(Encode(s))
  {
    if s != "" {
      EncodedIsValid(s[1..]);
      CharIsDecoded(s[0], Encode(s[1..]));
    }
  }

  /** A byte that begins no character is left out, wherever it stands. */
  lemma {:induction false} BadByteIsLeftOut(s: string, b: byte, rest: bytes)
    requires 0x80 <= b < 0xC2 || b >= 0xF5
    ensures Decode(Encode(s) + ([b] + rest)) == s + Decode(rest)
  {
    if s == "" {
      assert Encode(s) + ([b] + rest) == [b] + rest;
      NoCharBegins(b, rest);
      assert s + Decode(rest) == Decode(rest);
    } else {
      var c, more := s[0], s[1..];
      BadByteIsLeftOut(more, b, rest);
      Regroup(EncodedChar(c), Encode(more), [b] + rest);
      DecodeChar(c, Encode(more) + ([b] + rest));
      Regroup([c], more, Decode(rest));
      assert [c] + more == s;
    }
  }

  lemma NoCharBegins(b: byte, rest: bytes)
    requires 0x80 <= b < 0xC2 || b >= 0xF5
    ensures Decode([b] + rest) == Decode(rest)
  {
    assert ([b] + rest)[0] == b && ([b] + rest)[1..] == rest;
    assert CharLength([b] + rest) == 0;
  }

  lemma DecodeChar(c: char, behind: bytes)
    ensures Decode(EncodedChar(c) + behind) == [c] + Decode(behind)
  {
    CharIsDecoded(c, behind);
  }

  /** One character of each length. */
  lemma SomeCharacters()
    ensures EncodedChar('A') == [0x41] && EncodedChar('\U{E9}') == [0xC3, 0xA9]
    ensures EncodedChar('\U{4E2D}') == [0xE4, 0xB8, 0xAD] && EncodedChar('\U{1F4CE}') == [0xF0, 0x9F, 0x93, 0x8E]
  {
  }
}
