/** Machine-width constants and the exact integer arithmetic the geometry is built on. */
module Arith {
  /** Number of `usize` values on the modelled 64-bit target. */
  const USIZE_LIMIT: nat := 0x1_0000_0000_0000_0000
  /** The number of a 64-bit word. */
  type Word64 = w: nat | w < USIZE_LIMIT
  const U32_LIMIT: nat := 0x1_0000_0000
  const U128_LIMIT: nat := USIZE_LIMIT * USIZE_LIMIT

  function Pow2(n: nat): (r: nat)
    ensures r >= 1
  {
    if n == 0 then 1 else 2 * Pow2(n - 1)
  }

  lemma {:induction false} Pow2Adds(a: nat, b: nat)
    ensures Pow2(a + b) == Pow2(a) * Pow2(b)
  {
    if a > 0 {
      Pow2Adds(a - 1, b);
      assert Pow2(a + b) == 2 * Pow2(a - 1 + b);
    }
  }

  lemma {:induction false} Pow2Grows(a: nat, b: nat)
    requires a <= b
    ensures Pow2(a) <= Pow2(b)
    ensures a < b ==> 2 * Pow2(a) <= Pow2(b)
    decreases b
  {
    if a < b {
      Pow2Grows(a, b - 1);
    }
  }

  lemma Pow2Of64()
    ensures Pow2(64) == USIZE_LIMIT
  {
    assert Pow2(8) == 256;
    Pow2Adds(8, 8);
    Pow2Adds(16, 16);
    Pow2Adds(32, 32);
  }

  function FloorDiv(a: nat, b: nat): nat
    requires b > 0
  {
    a / b
  }

  function CeilDiv(a: nat, b: nat): nat
    requires b > 0
  {
    a / b + (if a % b == 0 then 0 else 1)
  }

  lemma {:induction false} MulAtMost(b: nat, x: int, y: int)
    requires x <= y
    ensures b * x <= b * y
    ensures x < y ==> b * x + b <= b * y
    decreases y - x
  {
    if x < y {
      MulAtMost(b, x, y - 1);
      assert b * y == b * (y - 1) + b;
    }
  }

  /** `count * width` as repeated addition: the slots of `count` buckets of `width` slots. */
  function Times(count: nat, width: nat): nat
  {
    if count == 0 then 0 else Times(count - 1, width) + width
  }

  lemma {:induction false} TimesIsProduct(count: nat, width: nat)
    ensures Times(count, width) == count * width
  {
    if count > 0 {
      TimesIsProduct(count - 1, width);
      assert count * width == (count - 1) * width + width;
    }
  }

  /** Buckets do not overlap: a later bucket starts at or after an earlier one's end. */
  lemma {:induction false} TimesOrdered(a: nat, b: nat, width: nat)
    requires a < b
    ensures Times(a, width) + width <= Times(b, width)
    decreases b
  {
    if a + 1 < b {
      TimesOrdered(a, b - 1, width);
    }
  }

  lemma {:induction false} TimesAdds(a: nat, b: nat, width: nat)
    ensures Times(a + b, width) == Times(a, width) + Times(b, width)
    decreases b
  {
    if b > 0 {
      TimesAdds(a, b - 1, width);
    }
  }

  lemma SameQuotient(b: nat, q: int, r: int, q': int, r': int)
    requires b * q + r == b * q' + r'
    requires 0 <= r < b && 0 <= r' < b
    ensures q == q' && r == r'
  {
    if q < q' {
      MulAtMost(b, q, q');
    } else if q' < q {
      MulAtMost(b, q', q);
    }
  }

  /** The quotient and the remainder are the only pair with `a == b * q + r` and `r < b`. */
  lemma QuotientIs(a: int, b: nat, q: int, r: int)
    requires b > 0 && a == b * q + r && 0 <= r < b
    ensures a / b == q && a % b == r
  {
    SameQuotient(b, q, r, a / b, a % b);
  }

  /** A quotient is at least `q` exactly when the dividend covers `q` divisors. */
  lemma QuotientAtLeast(a: int, b: nat, q: int)
    requires b > 0
    ensures a / b >= q <==> a >= b * q
  {
    var e, r := a / b, a % b;
    assert a == b * e + r;
    if e >= q {
      MulAtMost(b, q, e);
    } else {
      MulAtMost(b, e, q);
    }
  }

  lemma QuotientShrinks(a: nat, p: nat, q: nat)
    requires 1 <= p <= q
    ensures a / q <= a / p
  {
    var e := a / q;
    assert a == q * e + a % q;
    MulAtMost(e, p, q);
    assert e * p == p * e && e * q == q * e;
    QuotientAtLeast(a, p, e);
  }

  /** The rounded-up quotient is at most `q` exactly when `q` divisors cover the dividend. */
  lemma CeilDivAtMost(a: nat, b: nat, q: nat)
    requires b > 0
    ensures CeilDiv(a, b) <= q <==> a <= b * q
  {
    var e, r := a / b, a % b;
    assert a == b * e + r;
    if e >= q {
      MulAtMost(b, q, e);
    } else {
      MulAtMost(b, e, q);
    }
  }

  lemma MultipleMod(k: int, b: nat)
    requires b > 0
    ensures (k * b) % b == 0 && (k * b) / b == k
  {
    QuotientIs(k * b, b, k, 0);
  }

  predicate Divides(d: nat, x: int)
    requires d > 0
  {
    x % d == 0
  }

  lemma Distribute(m: nat, q: nat, r: nat, k: nat)
    ensures (m * q + r) * k == r * k + (q * k) * m == m * k * q + r * k
  {
    assert (m * q + r) * k == (m * q) * k + r * k;
    assert (m * q) * k == m * k * q == (q * k) * m;
  }

  /** Adding a multiple of the modulus leaves a residue alone. */
  lemma AddMultipleMod(a: int, k: int, b: nat)
    requires b > 0
    ensures (a + k * b) % b == a % b
  {
    var e, r := a / b, a % b;
    assert a == b * e + r;
    assert b * (e + k) == b * e + k * b;
    QuotientIs(a + k * b, b, e + k, r);
  }

  lemma HalfOfLimit()
    ensures Pow2(64) == 2 * Pow2(63)
  {
  }

  // ---- Binary length and logarithms (`leading_zeros` arithmetic) ----

  /** `BITS - leading_zeros(x)`: the binary length of `x`. */
  function BitLen(x: nat): nat
  {
    if x == 0 then 0 else 1 + BitLen(x / 2)
  }

  /** Binary length is the exponent of the power-of-two interval holding `x`. */
  lemma {:induction false} BitLenBounds(x: nat)
    ensures x < Pow2(BitLen(x))
    ensures x > 0 ==> BitLen(x) > 0 && Pow2(BitLen(x) - 1) <= x
  {
    if x > 0 {
      BitLenBounds(x / 2);
    }
  }

  /** `ceil_log2` as the source computes it. */
  function CeilLog2(value: nat): nat
  {
    if value <= 1 then 0 else BitLen(value - 1)
  }

  /** It is the least exponent whose power of two reaches the value. */
  lemma {:induction false} CeilLog2IsLeast(value: nat, k: nat)
    requires value >= 1
    ensures CeilLog2(value) <= k <==> value <= Pow2(k)
  {
    if value > 1 {
      var b := BitLen(value - 1);
      BitLenBounds(value - 1);
      if b <= k {
        Pow2Grows(b, k);
      } else {
        Pow2Grows(k, b - 1);
      }
    }
  }

  lemma CeilLog2Monotone(a: nat, b: nat)
    requires a <= b
    ensures CeilLog2(a) <= CeilLog2(b)
  {
    if a >= 1 {
      CeilLog2IsLeast(b, CeilLog2(b));
      CeilLog2IsLeast(a, CeilLog2(b));
    }
  }

  function CeilThreeQuarters(value: nat): nat
  {
    value - value / 4
  }

  function SaturatingAdd(a: nat, b: nat): nat
  {
    if a + b < USIZE_LIMIT then a + b else USIZE_LIMIT - 1
  }

  function Larger(a: nat, b: nat): nat
  {
    if a >= b then a else b
  }
}
