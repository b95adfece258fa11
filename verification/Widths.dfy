/** The conversions of integers to the signed types of the program. */
module Widths {
  const U32: nat := 0x1_0000_0000
  const U64: nat := 0x1_0000_0000_0000_0000
  const SIGNED32: nat := 0x8000_0000
  const SIGNED64: nat := 0x8000_0000_0000_0000

  /** The conversion to int. */
  function Int32(n: int): int {
    var low := n % U32;
    if low < SIGNED32 then low else low - U32
  }

  /** The conversion to a signed 64-bit integer. */
  function Int64(n: int): int {
    var low := n % U64;
    if low < SIGNED64 then low else low - U64
  }

  predicate IsInt32(n: int) { 0 <= n + SIGNED32 < U32 }

  /** min_int: both arguments are narrowed. */
  function MinInt(a: int, b: int): int {
    if Int32(a) < Int32(b) then Int32(a) else Int32(b)
  }

  /** A sum that is narrowed step by step is the narrowed sum. */
  lemma Int32Sum(a: int, b: int)
    ensures Int32(Int32(a) + b) == Int32(a + b)
  {
    var k: int := if a % U32 < SIGNED32 then a / U32 else a / U32 + 1;
    assert a == Int32(a) + k * U32;
    SameMod(Int32(a) + b, k);
  }

  lemma SameMod(x: int, k: int)
    ensures (x + k * U32) % U32 == x % U32
  {
    var q, r := x / U32, x % U32;
    assert x + k * U32 == (q + k) * U32 + r;
  }

  /** The conversion keeps exactly the numbers below 2^31. */
  lemma Int32Keeps(n: nat)
    ensures Int32(n) == n <==> n < SIGNED32
    ensures Int32(n) <= n
  {
  }
}
