/** The bit-trick and modulo macros of kbdus (kbdus/include-private/kbdus/utilities.h), on 64-bit unsigned values. */
module KernelUtilities {
  import opened CTypes
  import opened Bits

  /** `x & (x - 1)` with the unsigned wrap of `0 - 1`. */
  function ClearLowestBit(x: u64): (r: nat)
    ensures x == 0 ==> r == 0
    ensures x != 0 ==> (r == 0 <==> IsPow2(x))
  {
    if x != 0 then BitAndPredecessor(x); BitAnd(x, ToU64(x - 1))
    else BitAnd(x, ToU64(x - 1))
  }

  /** `kbdus_is_zero_or_power_of_two`: zero passes because `0 & 0xFFFF...` is zero. */
  function IsZeroOrPowerOfTwo(x: u64): (r: bool)
    ensures r <==> x == 0 || exists k: nat :: Pow2(k) == x
  {
    IsPow2Exponent(x);
    ClearLowestBit(x) == 0
  }

  /** `kbdus_is_power_of_two`: the same test, with zero excluded. */
  function IsPowerOfTwo(x: u64): (r: bool)
    ensures r <==> exists k: nat :: Pow2(k) == x
  {
    IsPow2Exponent(x);
    ClearLowestBit(x) == 0 && x != 0
  }

  /** `kbdus_is_zero_or_multiple_of`: always divides, so y must be non-zero. */
  function IsZeroOrMultipleOf(x: u64, y: u64): (r: bool)
    requires y != 0
    ensures r <==> Divides(y, x)
  {
    ModZeroIffDivides(x, y);
    x % y == 0
  }

  /** `kbdus_is_positive_multiple_of`. */
  function IsPositiveMultipleOf(x: u64, y: u64): (r: bool)
    requires y != 0
    ensures r <==> x != 0 && Divides(y, x)
  {
    ModZeroIffDivides(x, y);
    x % y == 0 && x != 0
  }
}
