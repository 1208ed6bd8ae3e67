/** The native integer of a 64-bit PHP build. */
module PhpInt {

  /** PHP_INT_MAX on a 64-bit platform. */
  const Max: int := 0x7FFF_FFFF_FFFF_FFFF

  /**
   * The integer PHP obtains when it casts a non-negative numeric string whose value is `n`:
   * values beyond PHP_INT_MAX are capped, as the engine does for numeric strings that
   * overflow.
   */
  function Saturate(n: nat): (r: int)
    ensures 0 <= r <= Max
    ensures n <= Max ==> r == n
    ensures n > Max ==> r == Max
  {
    if n <= Max then n else Max
  }
}
