/**
 * Unsigned 64-bit cycle counts, as the profiler stores them in `uint64_t`.
 * C arithmetic on `uint64_t` wraps modulo 2^64; Dafny integers do not, so
 * the two operations the profiler performs on cycle counts are written out.
 */
module Cycles {

  const TWO_64: int := 0x1_0000_0000_0000_0000

  newtype u64 = x: int | 0 <= x < 0x1_0000_0000_0000_0000

  /** UINT64_MAX, the renderer's initial ceiling. */
  const U64_MAX: u64 := 0xFFFF_FFFF_FFFF_FFFF

  /** `a - b` on uint64_t: the true difference, or the difference plus 2^64 when it is negative. */
  function WrapSub(a: u64, b: u64): (r: u64)
    ensures b <= a ==> r as int == a as int - b as int
    ensures a < b ==> r as int == a as int - b as int + TWO_64
  {
    ((a as int - b as int) % TWO_64) as u64
  }

  /** `a + b` on uint64_t: the true sum, or the sum less 2^64 when it overflows. */
  function WrapAdd(a: u64, b: u64): (r: u64)
    ensures a as int + b as int < TWO_64 ==> r as int == a as int + b as int
    ensures a as int + b as int >= TWO_64 ==> r as int == a as int + b as int - TWO_64
  {
    ((a as int + b as int) % TWO_64) as u64
  }

  /** Adding an elapsed interval to a total is the whole difference taken modulo 2^64. */
  lemma AddElapsed(total: u64, start: u64, now: u64)
    ensures WrapAdd(total, WrapSub(now, start)) as int == (total as int + now as int - start as int) % TWO_64
  {
  }
}
