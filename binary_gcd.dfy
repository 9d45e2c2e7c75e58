/** Stein's binary greatest-common-divisor algorithm on unsigned 32-bit
    integers, proved against the mathematical gcd. */
module BinaryGcd {

  /** 2^32: one more than the largest `uint32_t`. */
  const TWO32: nat := 0x1_0000_0000

  /** An unsigned 32-bit integer (`uint32_t`). */
  type u32 = x: nat | x < TWO32

  function Pow2(n: nat): (r: nat)
    ensures r >= 1
  {
    if n == 0 then 1 else 2 * Pow2(n - 1)
  }

  /** `d` divides `n`: `n` is a whole multiple of `d`. */
  ghost predicate Divides(d: nat, n: nat) {
    exists k: nat :: n == d * k
  }

  /** `g` is a greatest common divisor of `a` and `b`: it divides both, and
      every common divisor divides it. */
  ghost predicate IsGcdOf(g: nat, a: nat, b: nat) {
    && Divides(g, a)
    && Divides(g, b)
    && forall d: nat :: Divides(d, a) && Divides(d, b) ==> Divides(d, g)
  }

  /** Reference definition of the gcd: Euclid's subtractive algorithm. */
  function Gcd(a: nat, b: nat): nat
    decreases a + b
  {
    if a == 0 then b
    else if b == 0 then a
    else if a <= b then Gcd(a, b - a)
    else Gcd(a - b, b)
  }

  // ---------------------------------------------------------------------
  // Arithmetic helpers

  lemma MulAtLeast(d: nat, x: nat)
    requires x >= 1
    ensures d * x >= d
  {
    var y := x - 1;
    assert d * x == d * y + d;
  }

  lemma MulMonotone(k: nat, a: nat, b: nat)
    requires a <= b
    ensures k * a <= k * b
    ensures k * b - k * a == k * (b - a)
  {
    assert k * b == k * a + k * (b - a);
  }

  /** Exact division: `(d * k) / d == k`. */
  lemma DivExact(d: nat, k: nat)
    requires d > 0
    ensures (d * k) / d == k && (d * k) % d == 0
  {
    var n := d * k;
    var q, r := n / d, n % d;
    assert n == d * q + r;
    assert d * (k - q) == r;
    if k - q >= 1 {
      MulAtLeast(d, k - q);
    } else if k - q <= -1 {
      MulAtLeast(d, q - k);
    }
  }

  lemma DividesSum(d: nat, a: nat, b: nat)
    requires Divides(d, a) && Divides(d, b)
    ensures Divides(d, a + b)
  {
    var ka: nat :| a == d * ka;
    var kb: nat :| b == d * kb;
    assert a + b == d * (ka + kb);
  }

  lemma DividesDiff(d: nat, a: nat, b: nat)
    requires Divides(d, a) && Divides(d, b) && b <= a
    ensures Divides(d, a - b)
  {
    var ka: nat :| a == d * ka;
    var kb: nat :| b == d * kb;
    if d == 0 {
      assert a - b == d * 0;
    } else {
      if ka < kb {
        MulMonotone(d, ka + 1, kb);
        assert false;
      }
      MulMonotone(d, kb, ka);
      assert a - b == d * (ka - kb);
    }
  }

  /** Two numbers that divide each other are equal. */
  lemma DividesAntisymmetric(x: nat, y: nat)
    requires Divides(x, y) && Divides(y, x)
    ensures x == y
  {
    var k: nat :| y == x * k;
    var j: nat :| x == y * j;
    if x != 0 {
      assert x == x * (k * j);
      assert k * j == 1;
      if k >= 2 {
        MulAtLeast(j, k);
        assert false;
      }
    }
  }

  /** Every divisor of an odd number is odd. */
  lemma DivisorOfOdd(d: nat, b: nat)
    requires Divides(d, b) && b % 2 == 1
    ensures d % 2 == 1
  {
    var k: nat :| b == d * k;
    if d % 2 == 0 {
      EvenTimes(d, k);
    }
  }

  lemma EvenTimes(x: nat, y: nat)
    requires x % 2 == 0
    ensures (x * y) % 2 == 0
  {
    var e := x / 2;
    assert x * y == 2 * (e * y);
  }

  lemma OddTimesOdd(x: nat, y: nat)
    requires x % 2 == 1 && y % 2 == 1
    ensures (x * y) % 2 == 1
  {
    var p := x / 2;
    assert x == 2 * p + 1;
    assert x * y == 2 * (p * y) + y;
  }

  /** An odd divisor of `2 * a` divides `a`. */
  lemma OddDivisorOfDouble(d: nat, a: nat)
    requires Divides(d, 2 * a) && d % 2 == 1
    ensures Divides(d, a)
  {
    var k: nat :| 2 * a == d * k;
    if k % 2 == 1 {
      OddTimesOdd(d, k);
      assert false;
    }
    var m := k / 2;
    assert k == 2 * m;
    assert d * k == 2 * (d * m);
    assert a == d * m;
  }

  // ---------------------------------------------------------------------
  // Properties of the reference gcd

  /** `Gcd(a, b)` divides both arguments. */
  lemma {:induction false} GcdDividesBoth(a: nat, b: nat)
    ensures Divides(Gcd(a, b), a) && Divides(Gcd(a, b), b)
    decreases a + b
  {
    var g := Gcd(a, b);
    if a == 0 {
      assert a == g * 0 && b == g * 1;
    } else if b == 0 {
      assert a == g * 1 && b == g * 0;
    } else if a <= b {
      GcdDividesBoth(a, b - a);
      DividesSum(g, a, b - a);
    } else {
      GcdDividesBoth(a - b, b);
      DividesSum(g, a - b, b);
    }
  }

  /** Every common divisor of `a` and `b` divides `Gcd(a, b)`. */
  lemma {:induction false} GcdGreatest(a: nat, b: nat, d: nat)
    requires Divides(d, a) && Divides(d, b)
    ensures Divides(d, Gcd(a, b))
    decreases a + b
  {
    if a == 0 || b == 0 {
    } else if a <= b {
      DividesDiff(d, b, a);
      GcdGreatest(a, b - a, d);
    } else {
      DividesDiff(d, a, b);
      GcdGreatest(a - b, b, d);
    }
  }

  /** `Gcd` is the greatest common divisor. */
  lemma GcdIsGreatestCommonDivisor(a: nat, b: nat)
    ensures IsGcdOf(Gcd(a, b), a, b)
  {
    GcdDividesBoth(a, b);
    forall d: nat | Divides(d, a) && Divides(d, b)
      ensures Divides(d, Gcd(a, b))
    {
      GcdGreatest(a, b, d);
    }
  }

  /** The greatest common divisor is unique: any `g` with its defining
      property is `Gcd(a, b)`. */
  lemma GcdUnique(g: nat, a: nat, b: nat)
    requires IsGcdOf(g, a, b)
    ensures g == Gcd(a, b)
  {
    GcdDividesBoth(a, b);
    GcdGreatest(a, b, g);
    DividesAntisymmetric(g, Gcd(a, b));
  }

  lemma {:induction false} GcdSymmetric(a: nat, b: nat)
    ensures Gcd(a, b) == Gcd(b, a)
    decreases a + b
  {
    if a == 0 || b == 0 || a == b {
    } else if a < b {
      GcdSymmetric(a, b - a);
    } else {
      GcdSymmetric(a - b, b);
    }
  }

  /** The gcd is zero only for `Gcd(0, 0)`, and never exceeds a nonzero
      argument. */
  lemma GcdBounds(a: nat, b: nat)
    ensures Gcd(a, b) == 0 <==> a == 0 && b == 0
    ensures a > 0 ==> Gcd(a, b) <= a
    ensures b > 0 ==> Gcd(a, b) <= b
  {
    var g := Gcd(a, b);
    GcdDividesBoth(a, b);
    var ka: nat :| a == g * ka;
    var kb: nat :| b == g * kb;
    if a > 0 {
      MulAtLeast(g, ka);
    }
    if b > 0 {
      MulAtLeast(g, kb);
    }
  }

  /** Scaling both arguments scales the gcd. */
  lemma {:induction false} GcdScale(k: nat, a: nat, b: nat)
    ensures Gcd(k * a, k * b) == k * Gcd(a, b)
    decreases a + b
  {
    if k == 0 || a == 0 || b == 0 {
    } else if a <= b {
      MulMonotone(k, a, b);
      MulAtLeast(k, a);
      GcdScale(k, a, b - a);
    } else {
      MulMonotone(k, b, a);
      MulAtLeast(k, b);
      GcdScale(k, a - b, b);
    }
  }

  /** A factor of two in one argument is not common when the other is odd. */
  lemma GcdDropTwo(a: nat, b: nat)
    requires b % 2 == 1
    ensures Gcd(2 * a, b) == Gcd(a, b)
  {
    var g := Gcd(a, b);
    GcdDividesBoth(a, b);
    var k: nat :| a == g * k;
    assert 2 * a == g * (2 * k);
    forall d: nat | Divides(d, 2 * a) && Divides(d, b)
      ensures Divides(d, g)
    {
      DivisorOfOdd(d, b);
      OddDivisorOfDouble(d, a);
      GcdGreatest(a, b, d);
    }
    GcdUnique(g, 2 * a, b);
  }

  /** Dividing a numerator and a positive denominator by their gcd leaves a
      fraction in lowest terms. */
  lemma GcdReduced(a: nat, b: nat)
    requires b > 0
    ensures Gcd(a, b) > 0
    ensures a == Gcd(a, b) * (a / Gcd(a, b)) && b == Gcd(a, b) * (b / Gcd(a, b))
    ensures Gcd(a / Gcd(a, b), b / Gcd(a, b)) == 1
  {
    var g := Gcd(a, b);
    GcdBounds(a, b);
    GcdDividesBoth(a, b);
    var ka: nat :| a == g * ka;
    var kb: nat :| b == g * kb;
    DivExact(g, ka);
    DivExact(g, kb);
    GcdScale(g, ka, kb);
    UnitFactor(g, Gcd(ka, kb));
  }

  lemma UnitFactor(g: nat, x: nat)
    requires g > 0 && g * x == g
    ensures x == 1
  {
    if x == 0 {
    } else if x > 1 {
      MulMonotone(g, 2, x);
    }
  }

  lemma Pow2Wide(n: nat)
    requires n >= 32
    ensures Pow2(n) >= TWO32
  {
    if n > 32 {
      Pow2Wide(n - 1);
    } else {
      assert Pow2(4) == 16;
      assert Pow2(8) == 256;
      assert Pow2(12) == 4096;
      assert Pow2(16) == 65536;
      assert Pow2(20) == 1048576;
      assert Pow2(24) == 16777216;
      assert Pow2(28) == 268435456;
      assert Pow2(32) == TWO32;
    }
  }

  /** One pass of the shift loop: halving two even operands moves a factor
      two of their gcd into `shift`. */
  lemma HalveBoth(u0: nat, u: nat, v: nat, shift: nat)
    requires u % 2 == 0 && v % 2 == 0 && u > 0
    requires u0 == Pow2(shift) * u
    ensures u / 2 > 0
    ensures u0 == Pow2(shift + 1) * (u / 2)
    ensures Pow2(shift) * Gcd(u, v) == Pow2(shift + 1) * Gcd(u / 2, v / 2)
  {
    var h, k := u / 2, v / 2;
    assert u == 2 * h && v == 2 * k;
    GcdScale(2, h, k);
    var p := Pow2(shift);
    assert Pow2(shift + 1) == 2 * p;
    Regroup(p, h);
    Regroup(p, Gcd(h, k));
  }

  lemma Regroup(p: nat, x: nat)
    ensures p * (2 * x) == (2 * p) * x
  {
  }

  /** The shift loop cannot run 32 times: `u0 == 2^shift * u` with `u >= 1`. */
  lemma ShiftBound(u0: u32, u: nat, shift: nat)
    requires u >= 1 && u0 == Pow2(shift) * u
    ensures shift < 32
  {
    if shift >= 32 {
      Pow2Wide(shift);
      MulAtLeast(Pow2(shift), u);
    }
  }

  /** A factor of two in the second argument is not common when the first
      is odd. */
  lemma DropTwoRight(u: nat, v: nat)
    requires u % 2 == 1 && v % 2 == 0
    ensures Gcd(u, v / 2) == Gcd(u, v)
  {
    GcdDropTwo(v / 2, u);
    GcdSymmetric(u, v);
    GcdSymmetric(v / 2, u);
  }

  /** Shifting the odd part back never wraps: the result is the gcd, which
      is at most the nonzero argument `u0`. */
  lemma RestoreShift(u0: u32, v0: u32, u: nat, shift: nat)
    requires u0 > 0
    requires Gcd(u0, v0) == Pow2(shift) * u
    ensures (Pow2(shift) * u) % TWO32 == Gcd(u0, v0) > 0
  {
    GcdBounds(u0, v0);
  }

  /** `binary_gcd(u, v)`: Stein's algorithm as written in C on `uint32_t`.
      `(u | v) & 1 == 0` is "both even", `x >>= 1` is `x / 2`, and the final
      `u << shift` is multiplication by 2^shift modulo 2^32 (shown never to
      wrap). */
  method BinaryGcd(u0: u32, v0: u32) returns (r: u32)
    ensures r == Gcd(u0, v0)
    ensures u0 == 0 ==> r == v0
    ensures v0 == 0 ==> r == u0
    ensures u0 > 0 || v0 > 0 ==> r > 0
  {
    if u0 == 0 {
      return v0;
    }
    if v0 == 0 {
      return u0;
    }
    var u: u32, v: u32 := u0, v0;

    // Count in shift the powers of two that u and v share.
    var shift: u32 := 0;
    while u % 2 == 0 && v % 2 == 0
      invariant u > 0 && v > 0
      invariant u0 == Pow2(shift) * u
      invariant shift < 32
      invariant Gcd(u0, v0) == Pow2(shift) * Gcd(u, v)
      decreases u
    {
      HalveBoth(u0, u, v, shift);
      ShiftBound(u0, u / 2, shift + 1);
      u := u / 2;
      v := v / 2;
      shift := shift + 1;
    }

    // The odd part of the gcd, which the remaining loops preserve.
    ghost var oddPart := Gcd(u, v);

    while u % 2 == 0
      invariant u > 0 && v > 0
      invariant v % 2 == 1 || u % 2 == 1
      invariant Gcd(u, v) == oddPart
      decreases u
    {
      GcdDropTwo(u / 2, v);
      u := u / 2;
    }

    // The main loop keeps u odd.
    var temp: u32 := 0;
    while true
      invariant u % 2 == 1 && v > 0
      invariant Gcd(u, v) == oddPart
      decreases u + v
    {
      // With u odd, the twos in v are not shared.
      while v % 2 == 0
        invariant v > 0
        invariant Gcd(u, v) == oddPart
        decreases v
      {
        DropTwoRight(u, v);
        v := v / 2;
      }

      // Both odd: order them so that u <= v, then subtract.
      if u > v {
        GcdSymmetric(u, v);
        temp := v;
        v := u;
        u := temp;
      }
      v := v - u;
      if v == 0 {
        break;
      }
    }

    // Multiply the shared powers of two back in.
    assert Gcd(u, v) == u;
    RestoreShift(u0, v0, u, shift);
    r := (Pow2(shift) * u) % TWO32;
  }
}
