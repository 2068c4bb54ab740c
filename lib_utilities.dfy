/** The arithmetic helpers of libbdus (libbdus/include-private/libbdus/utilities.h). */
module LibUtilities {
  import opened CTypes
  import opened Bits

  /** `bdus_min_`: the smaller argument. */
  function Min(x: int, y: int): (r: int)
    ensures r <= x && r <= y
    ensures r == x || r == y
  {
    if x < y then x else y
  }

  /** `bdus_max_`: the larger argument. */
  function Max(x: int, y: int): (r: int)
    ensures r >= x && r >= y
    ensures r == x || r == y
  {
    if x > y then x else y
  }

  /** `bdus_is_power_of_two_`: non-zero and `x & (x - 1)` is zero. */
  function IsPowerOfTwo(x: u64): (r: bool)
    ensures r <==> exists k: nat :: Pow2(k) == x
  {
    IsPow2Exponent(x);
    if x != 0 then BitAndPredecessor(x); BitAnd(x, x - 1) == 0 else false
  }

  /** `bdus_is_zero_or_power_of_two_`. */
  function IsZeroOrPowerOfTwo(x: u64): (r: bool)
    ensures r <==> x == 0 || exists k: nat :: Pow2(k) == x
  {
    IsPow2Exponent(x);
    if x == 0 then true else BitAndPredecessor(x); BitAnd(x, x - 1) == 0
  }

  /** `bdus_is_positive_multiple_of_`: y may only be zero when x is (no division happens then). */
  function IsPositiveMultipleOf(x: u64, y: u64): (r: bool)
    requires x == 0 || y != 0
    ensures r <==> x != 0 && Divides(y, x)
  {
    if x != 0 then ModZeroIffDivides(x, y); x % y == 0 else false
  }

  /** `bdus_is_zero_or_multiple_of_`. */
  function IsZeroOrMultipleOf(x: u64, y: u64): (r: bool)
    requires x == 0 || y != 0
    ensures r <==> x == 0 || Divides(y, x)
  {
    if x == 0 then true else ModZeroIffDivides(x, y); x % y == 0
  }
}
