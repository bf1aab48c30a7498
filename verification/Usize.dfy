/** The saturating arithmetic of a 64-bit `usize`. */
module Usize {
  const USIZE_MAX: nat := 0xFFFF_FFFF_FFFF_FFFF

  /** No allocation is larger than this. */
  const ISIZE_MAX: nat := 0x7FFF_FFFF_FFFF_FFFF

  function Min(a: nat, b: nat): nat {
    if a < b then a else b
  }

  function SaturatingAdd(a: nat, b: nat): nat {
    Min(a + b, USIZE_MAX)
  }

  function SaturatingSub(a: nat, b: nat): nat {
    if a < b then 0 else a - b
  }

  function SaturatingMul(a: nat, b: nat): nat {
    Min(a * b, USIZE_MAX)
  }

  function Clamp(n: nat, low: nat, high: nat): nat
    requires low <= high
  {
    if n < low then low else Min(n, high)
  }
}
