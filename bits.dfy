/** Bitwise AND/OR on naturals and powers of two, the vocabulary of the C bit tricks. */
module Bits {

  function Pow2(k: nat): (r: nat)
    ensures r >= 1
  {
    if k == 0 then 1 else 2 * Pow2(k - 1)
  }

  /** x is 2^k for some k >= 0. */
  predicate IsPow2(x: nat)
  {
    x == 1 || (x >= 2 && x % 2 == 0 && IsPow2(x / 2))
  }

  /** Bitwise AND of the binary representations. */
  function BitAnd(x: nat, y: nat): nat
  {
    if x == 0 || y == 0 then 0
    else 2 * BitAnd(x / 2, y / 2) + (if x % 2 == 1 && y % 2 == 1 then 1 else 0)
  }

  /** Bitwise OR of the binary representations. */
  function BitOr(x: nat, y: nat): nat
  {
    if x == 0 then y
    else if y == 0 then x
    else 2 * BitOr(x / 2, y / 2) + (if x % 2 == 1 || y % 2 == 1 then 1 else 0)
  }

  lemma {:induction false} BitAndSelf(x: nat)
    ensures BitAnd(x, x) == x
  {
    if x != 0 {
      BitAndSelf(x / 2);
    }
  }

  /** The classic test: for x >= 1, x & (x - 1) clears the lowest set bit, so it is zero iff x has one bit. */
  lemma {:induction false} BitAndPredecessor(x: nat)
    requires x >= 1
    ensures BitAnd(x, x - 1) == 0 <==> IsPow2(x)
  {
    if x == 1 {
    } else if x % 2 == 1 {
      var m := x / 2;
      assert m >= 1;
      BitAndSelf(m);
      assert BitAnd(x, x - 1) == 2 * BitAnd(m, m);
      assert !IsPow2(x);
    } else {
      var m := x / 2;
      assert (x - 1) / 2 == m - 1 && (x - 1) % 2 == 1;
      BitAndPredecessor(m);
      assert BitAnd(x, x - 1) == 2 * BitAnd(m, m - 1);
    }
  }

  lemma {:induction false} Pow2IsPow2(k: nat)
    ensures IsPow2(Pow2(k))
  {
    if k > 0 {
      Pow2IsPow2(k - 1);
      assert Pow2(k) / 2 == Pow2(k - 1);
    }
  }

  lemma {:induction false} IsPow2HasExponent(x: nat)
    requires IsPow2(x)
    ensures exists k: nat :: Pow2(k) == x
  {
    if x == 1 {
      assert Pow2(0) == x;
    } else {
      IsPow2HasExponent(x / 2);
      var k: nat :| Pow2(k) == x / 2;
      assert Pow2(k + 1) == x;
    }
  }

  /** x is 2^k for some k: the recursive test and the exponent form agree. */
  lemma IsPow2Exponent(x: nat)
    ensures IsPow2(x) <==> exists k: nat :: Pow2(k) == x
  {
    if IsPow2(x) {
      IsPow2HasExponent(x);
    }
    if exists k: nat :: Pow2(k) == x {
      var k: nat :| Pow2(k) == x;
      Pow2IsPow2(k);
    }
  }

  /** d divides x. */
  ghost predicate Divides(d: nat, x: nat)
  {
    exists k: nat :: x == k * d
  }

  lemma ModZeroIffDivides(x: nat, d: nat)
    requires d > 0
    ensures x % d == 0 <==> Divides(d, x)
  {
    if x % d == 0 {
      assert x == (x / d) * d;
    }
    if Divides(d, x) {
      var k: nat :| x == k * d;
      DivModUnique(x, d, k, 0);
    }
  }

  /** Euclidean division is determined by its quotient and remainder. */
  lemma DivModUnique(y: int, d: int, q: int, r: int)
    requires d > 0 && y == q * d + r && 0 <= r < d
    ensures y % d == r && y / d == q
  {
    var q2, r2 := y / d, y % d;
    assert (q2 - q) * d == r - r2;
    MulStrict(q2 - q, d);
  }

  /** Reducing the left operand of a sum first does not change the sum's remainder. */
  lemma ModAddLeft(a: int, b: int, m: int)
    requires m > 0
    ensures (a % m + b) % m == (a + b) % m
  {
    var x := a % m + b;
    var q := a / m;
    assert a == q * m + a % m;
    assert a + b == x + q * m;
    assert x == (x / m) * m + x % m;
    assert (x / m + q) * m == (x / m) * m + q * m;
    DivModUnique(a + b, m, x / m + q, x % m);
  }

  lemma MulStrict(k: int, d: int)
    requires d > 0 && -d < k * d < d
    ensures k == 0
  {
    if k >= 1 {
      MulMono(k, d);
    } else if k <= -1 {
      MulMono(-k, d);
    }
  }

  lemma MulMono(k: int, d: int)
    requires k >= 1 && d > 0
    ensures k * d >= d
  {
  }

  /** Of two powers of two, the smaller divides the larger. */
  lemma {:induction false} Pow2Divides(a: nat, b: nat)
    requires IsPow2(a) && IsPow2(b) && a <= b
    ensures b % a == 0
  {
    var m := Pow2Quotient(a, b);
    DivModUnique(b, a, m, 0);
  }

  lemma {:induction false} Pow2Quotient(a: nat, b: nat) returns (m: nat)
    requires IsPow2(a) && IsPow2(b) && a <= b
    ensures b == m * a
  {
    if a == 1 {
      m := b;
    } else {
      assert b != 1;
      m := Pow2Quotient(a / 2, b / 2);
      assert b == 2 * (b / 2) && a == 2 * (a / 2);
      assert b == 2 * (m * (a / 2));
    }
  }

  /** OR with the mask 2^k - 1 sets the k low bits. */
  lemma BitOrLowMask(y: nat, k: nat)
    ensures BitOr(y, Pow2(k) - 1) == y - y % Pow2(k) + Pow2(k) - 1
  {
    Pow2IsPow2(k);
    BitOrPow2Mask(y, Pow2(k));
  }

  lemma {:induction false} BitOrPow2Mask(y: nat, p: nat)
    requires IsPow2(p)
    ensures BitOr(y, p - 1) == y - y % p + p - 1
    decreases p
  {
    if p == 1 {
    } else if y == 0 {
    } else {
      var h := p / 2;
      assert p == 2 * h && IsPow2(h);
      BitOrPow2Mask(y / 2, h);
      BitOrLowMaskStep(y, h);
    }
  }

  /** The inductive step of `BitOrLowMask`, from the mask p - 1 on y / 2 to the mask 2p - 1 on y. */
  lemma BitOrLowMaskStep(y: nat, p: nat)
    requires y > 0 && p >= 1
    requires BitOr(y / 2, p - 1) == y / 2 - (y / 2) % p + p - 1
    ensures BitOr(y, 2 * p - 1) == y - y % (2 * p) + 2 * p - 1
  {
    BitOrOddStep(y, p);
    ModHalf(y, p);
    DivModFacts(y, 2);
    LowMaskCombine(y, y / 2, y % 2, (y / 2) % p, y % (2 * p), p,
      BitOr(y / 2, p - 1), BitOr(y, 2 * p - 1));
  }

  lemma LowMaskCombine(y: int, h: int, yMod2: int, hModP: int, yModBig: int, p: int, inner: int, outer: int)
    requires y == 2 * h + yMod2 && yModBig == 2 * hModP + yMod2
    requires inner == h - hModP + p - 1 && outer == 2 * inner + 1
    ensures outer == y - yModBig + 2 * p - 1
  {
  }

  /** OR with an odd mask 2p - 1 sets the low bit and ORs the rest with p - 1. */
  lemma BitOrOddStep(y: nat, p: nat)
    requires y > 0 && p >= 1
    ensures BitOr(y, 2 * p - 1) == 2 * BitOr(y / 2, p - 1) + 1
  {
    DivModUnique(2 * p - 1, 2, p - 1, 1);
  }

  lemma DivModFacts(y: nat, d: nat)
    requires d > 0
    ensures y == (y / d) * d + y % d && y % d < d
  {
  }

  lemma MulSucc(q: int, d: int)
    ensures (q + 1) * d == q * d + d
  {
  }

  lemma ModHalf(y: nat, p: nat)
    requires p >= 1
    ensures y % (2 * p) == 2 * ((y / 2) % p) + y % 2
  {
    var q := (y / 2) / p;
    var r := (y / 2) % p;
    assert y / 2 == q * p + r;
    assert y == q * (2 * p) + (2 * r + y % 2);
    DivModUnique(y, 2 * p, q, 2 * r + y % 2);
  }

  /** `((x - 1) | (p - 1)) + 1` for x > 0 and p a power of two: the least multiple of p not below x. */
  function RoundUpPow2(x: nat, p: nat): (r: nat)
    requires x > 0 && IsPow2(p)
    ensures r % p == 0 && x <= r < x + p
  {
    RoundUpPow2Bounds(x, p);
    BitOr(x - 1, p - 1) + 1
  }

  lemma RoundUpPow2Bounds(x: nat, p: nat)
    requires x > 0 && IsPow2(p)
    ensures (BitOr(x - 1, p - 1) + 1) % p == 0
    ensures x <= BitOr(x - 1, p - 1) + 1 < x + p
  {
    IsPow2HasExponent(p);
    var k: nat :| Pow2(k) == p;
    var y := x - 1;
    BitOrLowMask(y, k);
    var q := y / p;
    DivModFacts(y, p);
    MulSucc(q, p);
    DivModUnique(BitOr(y, p - 1) + 1, p, q + 1, 0);
  }

  lemma {:induction false} Pow2Add(a: nat, b: nat)
    ensures Pow2(a + b) == Pow2(a) * Pow2(b)
  {
    if a > 0 {
      Pow2Add(a - 1, b);
    }
  }

  lemma {:induction false} Pow2Monotone(a: nat, b: nat)
    ensures a <= b ==> Pow2(a) <= Pow2(b)
  {
    if a < b {
      Pow2Monotone(a, b - 1);
    }
  }
}
