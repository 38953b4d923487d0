/** Decoded JSON values, as Go programs see them, and 64-bit integers. */
module Json {
  import opened Wrappers

  datatype Json =
    | Null
    | Bool(b: bool)
    | Num(n: real)
    | Str(s: string)
    | Arr(items: seq<Json>)
    | Obj(fields: Fields)

  type Fields = map<string, Json>

  /** A missing key reads as null. */
  function Get(m: Fields, key: string): Json {
    if key in m then m[key] else Null
  }

  /** `str`: the text of a string, and nothing for any other value. */
  function AsText(v: Json): string {
    if v.Str? then v.s else ""
  }

  function TextOr(s: string, fallback: string): string {
    if s != "" then s else fallback
  }

  // ----- 64-bit integers -----

  const TWO_63 := 0x8000_0000_0000_0000
  const TWO_64 := 0x1_0000_0000_0000_0000

  type int64 = n: int | -TWO_63 <= n < TWO_63

  /** The representative of `n` modulo 2^64: what an overflowing operation leaves. */
  function Wrap(n: int): int64 {
    (n + TWO_63) % TWO_64 - TWO_63
  }

  function Truncated(r: real): int {
    if r >= 0.0 then r.Floor else -(-r).Floor
  }

  /** `int64(f)`; out of range the result is the most negative number, as on amd64. */
  function ToInt64(r: real): int64 {
    var n := Truncated(r);
    if -TWO_63 <= n < TWO_63 then n else -TWO_63
  }

  /** Within range, the fraction is cut off. */
  lemma ToInt64Truncates(r: real)
    requires -9223372036854775808.0 <= r < 9223372036854775808.0
    ensures r >= 0.0 ==> ToInt64(r) as real <= r < ToInt64(r) as real + 1.0
    ensures r < 0.0 ==> ToInt64(r) as real - 1.0 < r <= ToInt64(r) as real
  {
  }

  /** `num`: only numbers count. */
  function AsNumber(v: Json): Option<int64> {
    if v.Num? then Some(ToInt64(v.n)) else None
  }

  function NumberOr(v: Json, fallback: int64): int64 {
    if v.Num? then ToInt64(v.n) else fallback
  }
}
