/** Bytes, their bit operations and big-endian numbers. */
module Bytes {
  type byte = b: int | 0 <= b < 256
  type bytes = seq<byte>

  function Power2(k: nat): (p: nat)
    ensures p > 0
  {
    if k == 0 then 1 else 2 * Power2(k - 1)
  }

  /** Exclusive or of the lowest `k` bits, bit by bit. */
  function XorBits(a: nat, b: nat, k: nat): (r: nat)
    ensures r < Power2(k)
  {
    if k == 0 then 0 else 2 * XorBits(a / 2, b / 2, k - 1) + (a + b) % 2
  }

  lemma LowestBitTwice(a: nat, m: nat, r: nat, x: nat)
    requires r == 2 * x + (a + m) % 2
    ensures r / 2 == x && (r + m) % 2 == a % 2
  {
  }

  lemma {:induction false} XorBitsTwice(a: nat, m: nat, k: nat)
    requires a < Power2(k)
    ensures XorBits(XorBits(a, m, k), m, k) == a
  {
    if k > 0 {
      var r, x := XorBits(a, m, k), XorBits(a / 2, m / 2, k - 1);
      XorBitsTwice(a / 2, m / 2, k - 1);
      LowestBitTwice(a, m, r, x);
      assert XorBits(r, m, k) == 2 * XorBits(r / 2, m / 2, k - 1) + (r + m) % 2;
    }
  }

  /** `a ^ b`. */
  function Xor(a: byte, b: byte): byte {
    assert Power2(8) == 256;
    XorBits(a, b, 8)
  }

  /** Masking twice with the same byte gives the byte back. */
  lemma XorTwice(a: byte, m: byte)
    ensures Xor(Xor(a, m), m) == a
  {
    assert Power2(8) == 256;
    XorBitsTwice(a, m, 8);
  }

  /** Bit `i` of a number. */
  function Bit(n: nat, i: nat): nat {
    if i == 0 then n % 2 else Bit(n / 2, i - 1)
  }

  lemma {:induction false} BitMeans(n: nat, i: nat)
    ensures Bit(n, i) == n / Power2(i) % 2
  {
    if i == 0 {
      assert Power2(0) == 1;
    } else {
      BitMeans(n / 2, i - 1);
      HalfThenShift(n, i);
    }
  }

  /** Every bit of the result is set exactly if it is set in one of the two. */
  lemma {:induction false} XorBitsAt(a: nat, b: nat, k: nat, i: nat)
    requires i < k
    ensures Bit(XorBits(a, b, k), i) == (Bit(a, i) + Bit(b, i)) % 2
  {
    LowestBit(XorBits(a, b, k), XorBits(a / 2, b / 2, k - 1), a, b);
    if i > 0 {
      XorBitsAt(a / 2, b / 2, k - 1, i - 1);
    }
  }

  lemma LowestBit(r: nat, x: nat, a: nat, b: nat)
    requires r == 2 * x + (a + b) % 2
    ensures r / 2 == x && r % 2 == (a % 2 + b % 2) % 2
  {
  }

  lemma HalfThenShift(n: nat, i: nat)
    requires i > 0
    ensures n / Power2(i) == n / 2 / Power2(i - 1)
  {
    var p := Power2(i - 1);
    var q, r := n / 2 / p, n / 2 % p;
    assert n / 2 == q * p + r;
    var low := 2 * r + n % 2;
    assert n == q * (2 * p) + low && 0 <= low < 2 * p;
    Quotient(n, 2 * p, q, low);
  }

  lemma AtLeastOnce(e: nat, d: nat)
    requires e > 0
    ensures e * d >= d
  {
    assert e * d == (e - 1) * d + d;
  }

  /** Quotient and remainder are the only numbers that do. */
  lemma Quotient(n: nat, d: nat, q: nat, r: nat)
    requires d > 0 && n == q * d + r && r < d
    ensures n / d == q && n % d == r
  {
    SameQuotient(d, n / d, n % d, q, r);
  }

  lemma SameQuotient(d: nat, x: nat, s: nat, q: nat, r: nat)
    requires x * d + s == q * d + r && s < d && r < d
    ensures x == q
  {
    Gap(d, x, q);
    Gap(d, q, x);
  }

  lemma Gap(d: nat, x: nat, q: nat)
    ensures x > q ==> x * d >= q * d + d
  {
    if x > q {
      AtLeastOnce(x - q, d);
      assert (x - q) * d == x * d - q * d;
    }
  }

  lemma XorAt(a: byte, b: byte, i: nat)
    requires i < 8
    ensures Xor(a, b) / Power2(i) % 2 == (a / Power2(i) % 2 + b / Power2(i) % 2) % 2
  {
    XorBitsAt(a, b, 8, i);
    BitMeans(Xor(a, b), i);
    BitMeans(a, i);
    BitMeans(b, i);
  }

  function Power256(k: nat): (p: nat)
    ensures p > 0
  {
    if k == 0 then 1 else 256 * Power256(k - 1)
  }

  /** `int.from_bytes(bs, "big")`. */
  function FromBigEndian(bs: bytes): nat {
    if bs == [] then 0 else 256 * FromBigEndian(bs[..|bs| - 1]) + bs[|bs| - 1]
  }

  /** `n.to_bytes(width, "big")`. */
  function ToBigEndian(n: nat, width: nat): (bs: bytes)
    requires n < Power256(width)
    ensures |bs| == width
  {
    if width == 0 then [] else ToBigEndian(n / 256, width - 1) + [n % 256]
  }

  lemma {:induction false} BigEndianRoundTrip(n: nat, width: nat)
    requires n < Power256(width)
    ensures FromBigEndian(ToBigEndian(n, width)) == n
  {
    if width > 0 {
      BigEndianRoundTrip(n / 256, width - 1);
      var bs := ToBigEndian(n, width);
      assert bs[..width - 1] == ToBigEndian(n / 256, width - 1);
    }
  }

  /** The most significant byte comes first. */
  lemma {:induction false} BigEndianAt(n: nat, width: nat, i: nat)
    requires n < Power256(width) && i < width
    ensures ToBigEndian(n, width)[i] == n / Power256(width - 1 - i) % 256
  {
    if i < width - 1 {
      BigEndianAt(n / 256, width - 1, i);
      ShiftByte(n, width - 1 - i);
    } else {
      assert Power256(0) == 1;
    }
  }

  lemma ShiftByte(n: nat, i: nat)
    requires i > 0
    ensures n / Power256(i) == n / 256 / Power256(i - 1)
  {
    var p := Power256(i - 1);
    var q, r := n / 256 / p, n / 256 % p;
    assert n / 256 == q * p + r;
    var low := 256 * r + n % 256;
    assert n == q * (256 * p) + low && 0 <= low < 256 * p;
    Quotient(n, 256 * p, q, low);
  }
}
