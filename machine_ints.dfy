/**
 * The fixed-width unsigned integers of the tracker: `u8` for the rest-day
 * counters and `usize` for the completion counter, with the saturating
 * operations and the truncating cast the program applies to them.
 */
module MachineInts {

  const U8_MAX: int := 0xFF

  /** A 64-bit target is assumed for `usize`. */
  const USIZE_MAX: int := 0xFFFF_FFFF_FFFF_FFFF

  newtype u8 = x: int | 0 <= x <= 0xFF

  newtype usize = x: int | 0 <= x <= 0xFFFF_FFFF_FFFF_FFFF

  function Max(a: int, b: int): int { if a >= b then a else b }

  function Min(a: int, b: int): int { if a <= b then a else b }

  /** `u8::saturating_sub`: the difference, floored at zero instead of wrapping. */
  function SaturatingSub(a: u8, b: u8): (r: u8)
    ensures r as int == Max(0, a as int - b as int)
    ensures r <= a
    ensures r == 0 <==> a <= b
  {
    if a >= b then a - b else 0
  }

  /** `usize::saturating_add`: the sum, capped at `usize::MAX` instead of wrapping. */
  function SaturatingAdd(a: usize, b: usize): (r: usize)
    ensures r as int == Min(USIZE_MAX, a as int + b as int)
    ensures a <= r && b <= r
  {
    if a as int + b as int <= USIZE_MAX then a + b else USIZE_MAX as usize
  }

  /**
   * The cast `d as u8` of a signed 64-bit count: it keeps the low eight bits
   * of the two's-complement representation, i.e. the residue of `d` modulo
   * 256 (Dafny's `%` is Euclidean, so it is never negative). Nothing is
   * clamped: a negative count or one above 255 wraps around.
   */
  function TruncateToU8(d: int): (r: u8)
    ensures (d - r as int) % 256 == 0
    ensures 0 <= d <= U8_MAX ==> r as int == d
    ensures -256 <= d < 0 ==> r as int == d + 256
    ensures 256 <= d < 512 ==> r as int == d - 256
  {
    (d % 256) as u8
  }

  /** The cast depends only on the residue: counts 256 apart decay by the same amount. */
  lemma TruncatePeriodic(d: int, n: int)
    ensures TruncateToU8(d + 256 * n) == TruncateToU8(d)
  {
    var q, m := d / 256, d % 256;
    assert d + 256 * n == 256 * (q + n) + m;
    assert (d + 256 * n) % 256 == m;
  }
}
