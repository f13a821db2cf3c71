/** Java's fixed-width signed integers: `int` (32 bits) and `long` (64 bits) arithmetic wraps
    around in two's complement, which is arithmetic modulo 2^32 or 2^64 read back into the signed
    range. */
module JavaInt {

  const TwoTo31: int := 0x8000_0000
  const TwoTo32: int := 0x1_0000_0000
  const TwoTo63: int := 0x8000_0000_0000_0000
  const TwoTo64: int := 0x1_0000_0000_0000_0000

  /** Java `int` arithmetic: the value in [-2^31, 2^31) congruent to x modulo 2^32. */
  function Int(x: int): (r: int)
    ensures -TwoTo31 <= r < TwoTo31
    ensures (x - r) % TwoTo32 == 0
  {
    var k := x % TwoTo32;
    if k >= TwoTo31 then k - TwoTo32 else k
  }

  /** Java `long` arithmetic: the value in [-2^63, 2^63) congruent to x modulo 2^64. */
  function Long(x: int): (r: int)
    ensures -TwoTo63 <= r < TwoTo63
    ensures (x - r) % TwoTo64 == 0
  {
    var k := x % TwoTo64;
    if k >= TwoTo63 then k - TwoTo64 else k
  }

  /** Adding a multiple of the modulus does not change the remainder. */
  lemma ModShift32(y: int, k: int)
    ensures (y + TwoTo32 * k) % TwoTo32 == y % TwoTo32
  {
  }

  lemma ModShift64(y: int, k: int)
    ensures (y + TwoTo64 * k) % TwoTo64 == y % TwoTo64
  {
  }

  /** Adding in `int` and wrapping is the same as wrapping the exact sum. */
  lemma IntAdd(a: int, b: int)
    ensures Int(Int(a) + Int(b)) == Int(a + b)
  {
    var ca := if a % TwoTo32 >= TwoTo31 then 1 else 0;
    var cb := if b % TwoTo32 >= TwoTo31 then 1 else 0;
    assert Int(a) == a - TwoTo32 * (a / TwoTo32 + ca);
    assert Int(b) == b - TwoTo32 * (b / TwoTo32 + cb);
    ModShift32(a + b, -(a / TwoTo32 + ca + b / TwoTo32 + cb));
  }

  /** Adding in `long` and wrapping is the same as wrapping the exact sum. */
  lemma LongAdd(a: int, b: int)
    ensures Long(Long(a) + Long(b)) == Long(a + b)
  {
    var ca := if a % TwoTo64 >= TwoTo63 then 1 else 0;
    var cb := if b % TwoTo64 >= TwoTo63 then 1 else 0;
    assert Long(a) == a - TwoTo64 * (a / TwoTo64 + ca);
    assert Long(b) == b - TwoTo64 * (b / TwoTo64 + cb);
    ModShift64(a + b, -(a / TwoTo64 + ca + b / TwoTo64 + cb));
  }

  /** A value in the `int` range is left alone. */
  lemma IntInRange(x: int)
    requires -TwoTo31 <= x < TwoTo31
    ensures Int(x) == x
  {
  }

  /** A value in the `long` range is left alone. */
  lemma LongInRange(x: int)
    requires -TwoTo63 <= x < TwoTo63
    ensures Long(x) == x
  {
  }
}
