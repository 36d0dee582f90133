/** Unsigned 64-bit words. */
module Machine {
  const SIZE_MAX: nat := 0xFFFF_FFFF_FFFF_FFFF

  /** `a - b`, which wraps around. */
  function Minus(a: nat, b: nat): nat {
    (a - b) % (SIZE_MAX + 1)
  }

  /** `x - 1`. */
  function Dec(x: nat): nat {
    if x == 0 then SIZE_MAX else x - 1
  }
}
