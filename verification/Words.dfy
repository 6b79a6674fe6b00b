/** 64-bit words and the numbers they stand for, digit by digit. */
module Words {
  import opened Arith

  function Half(v: bv64): bv64
  {
    v >> 1
  }

  function Low(v: bv64): (r: nat)
    ensures r <= 1
  {
    if v & 1 == 1 then 1 else 0
  }

  lemma LowZero()
    ensures Low(0) == 0
  {
  }

  lemma HalfLess(v: bv64)
    requires v != 0
    ensures Half(v) < v && (Half(v) == 0 ==> Low(v) == 1)
  {
  }

  /** The number a word stands for. */
  function Val(v: bv64): (n: nat)
    ensures v != 0 ==> n > 0
    decreases v
  {
    if v == 0 then 0 else HalfLess(v); 2 * Val(Half(v)) + Low(v)
  }

  lemma ValStep(w: bv64)
    requires w != 0
    ensures Val(w) == 2 * Val(Half(w)) + Low(w) > 0
  {
    hide Half, Low;
  }

  lemma ValShift(w: bv64)
    requires w != 0
    ensures Val(w) == 2 * Val(w >> 1) + Low(w) > 0
  {
    ValStep(w);
  }

  lemma ValZero()
    ensures Val(0) == 0
  {
  }

  lemma HalfZero()
    ensures Half(0) == 0
  {
  }

  // ---- How large a word's number is ----

  /** A word without its lowest `n` digits. */
  function Down(v: bv64, n: nat): bv64
  {
    if n == 0 then v else Half(Down(v, n - 1))
  }

  lemma {:induction false} DownAdds(v: bv64, a: nat, b: nat)
    ensures Down(v, a + b) == Down(Down(v, a), b)
    decreases b
  {
    hide Half;
    if b > 0 {
      DownAdds(v, a, b - 1);
    }
  }

  lemma ValHalf(v: bv64)
    ensures 2 * Val(Half(v)) <= Val(v) <= 2 * Val(Half(v)) + 1
  {
    hide Half, Low, Val;
    if v == 0 {
      HalfZero();
      ValZero();
    } else {
      ValStep(v);
    }
  }

  lemma {:induction false} ValDown(v: bv64, n: nat)
    ensures Pow2(n) * Val(Down(v, n)) <= Val(v) < Pow2(n) * (Val(Down(v, n)) + 1)
    decreases n
  {
    hide Half, Val;
    if n > 0 {
      ValDown(v, n - 1);
      ValHalf(Down(v, n - 1));
      DownProduct(Pow2(n - 1), Val(Down(v, n - 1)), Val(Down(v, n)), Val(v));
    }
  }

  lemma DownProduct(p: nat, x: nat, h: nat, v: nat)
    requires p * x <= v < p * (x + 1) && 2 * h <= x <= 2 * h + 1
    ensures 2 * p * h <= v < 2 * p * (h + 1)
  {
    MulAtMost(p, 2 * h, x);
    MulAtMost(p, x + 1, 2 * h + 2);
    assert p * (2 * h) == 2 * p * h && p * (2 * h + 2) == 2 * p * (h + 1);
  }

  function Shr(v: bv64, k: bv7): bv64
    requires k <= 64
  {
    v >> k
  }

  lemma HalfShr(v: bv64, k: bv7)
    requires k < 8
    ensures Half(Shr(v, k)) == Shr(v, k + 1)
  {
  }

  lemma ShrZero(v: bv64)
    ensures Shr(v, 0) == v
  {
  }

  lemma Down7(v: bv64)
    ensures Down(v, 7) == Shr(v, 7)
  {
    hide Half, Shr;
    ShrZero(v);
    HalfShr(v, 0);
    HalfShr(v, 1);
    HalfShr(v, 2);
    HalfShr(v, 3);
    HalfShr(v, 4);
    HalfShr(v, 5);
    HalfShr(v, 6);
    assert Down(v, 1) == Shr(v, 1);
    assert Down(v, 2) == Shr(v, 2);
    assert Down(v, 3) == Shr(v, 3);
    assert Down(v, 4) == Shr(v, 4);
    assert Down(v, 5) == Shr(v, 5);
    assert Down(v, 6) == Shr(v, 6);
  }

  lemma Down8(v: bv64)
    ensures Down(v, 8) == Shr(v, 8)
  {
    hide Half, Shr;
    Down7(v);
    HalfShr(v, 7);
  }

  lemma ShiftsAdd(v: bv64)
    ensures Shr(Shr(v, 8), 8) == Shr(v, 16)
    ensures Shr(Shr(v, 16), 16) == Shr(v, 32)
    ensures Shr(Shr(v, 32), 32) == 0
  {
  }

  lemma Down16(v: bv64)
    ensures Down(v, 16) == Shr(v, 16)
  {
    hide Half, Shr, Down;
    DownAdds(v, 8, 8);
    Down8(v);
    Down8(Shr(v, 8));
    ShiftsAdd(v);
  }

  lemma Down32(v: bv64)
    ensures Down(v, 32) == Shr(v, 32)
  {
    hide Half, Shr, Down;
    DownAdds(v, 16, 16);
    Down16(v);
    Down16(Shr(v, 16));
    ShiftsAdd(v);
  }

  lemma Down64(v: bv64)
    ensures Down(v, 64) == 0
  {
    hide Half, Shr, Down;
    DownAdds(v, 32, 32);
    Down32(v);
    Down32(Shr(v, 32));
    ShiftsAdd(v);
  }

  lemma TopBit(v: bv64)
    requires Half(v) == 0
    ensures v == 0 || v == 1
  {
  }

  lemma ValOne()
    ensures Val(1) == 1
  {
    assert Half(1) == 0 && Low(1) == 1;
  }

  /** Numbers of words are below `2^64`, and at least `2^63` when the top digit is set. */
  lemma ValRange(v: bv64)
    ensures Val(v) < USIZE_LIMIT
    ensures 2 * Val(v) < USIZE_LIMIT ==> Down(v, 63) == 0
  {
    hide Half, Val;
    Pow2Of64();
    ValZero();
    ValOne();
    Down64(v);
    ValDown(v, 64);
    ValDown(v, 63);
    assert Down(v, 64) == Half(Down(v, 63));
    TopBit(Down(v, 63));
    assert Pow2(64) == 2 * Pow2(63);
  }

  // ---- Back from numbers ----

  function Digit(n: nat): (b: bv64)
    ensures b <= 1
  {
    if n % 2 == 1 then 1 else 0
  }

  /** The word with the given digits; digits past the 64th fall off. */
  function FromNat(n: nat): bv64
  {
    if n == 0 then 0 else Append(FromNat(n / 2), Digit(n))
  }

  function Append(m: bv64, b: bv64): bv64
  {
    (m << 1) | b
  }

  lemma Appended(m: bv64, b: bv64)
    requires m <= 0x7fff_ffff_ffff_ffff && b <= 1
    ensures Half(Append(m, b)) == m && Append(m, b) & 1 == b && (Append(m, b) == 0 <==> m == 0 && b == 0)
  {
  }

  lemma DigitLow(n: nat, w: bv64)
    requires w & 1 == Digit(n)
    ensures Low(w) == n % 2
  {
  }

  /** Below `2^64` a number is recovered from its word. */
  lemma {:induction false} ValOfFromNat(n: nat)
    requires n < USIZE_LIMIT
    ensures Val(FromNat(n)) == n
    decreases n
  {
    hide Val, Low, Digit, Half, Append;
    if n == 0 {
      ValZero();
    } else {
      var m := FromNat(n / 2);
      ValOfFromNat(n / 2);
      ValRange(m);
      TopClear(m);
      Appended(m, Digit(n));
      AppendedValue(m, n, FromNat(n));
    }
  }

  lemma ZeroDigit(n: nat)
    ensures Digit(n) == 0 ==> n % 2 == 0
  {
  }

  lemma TopClear(m: bv64)
    requires Down(m, 63) == 0
    ensures m <= 0x7fff_ffff_ffff_ffff
  {
    Down63(m);
    ShiftTop(m);
  }

  lemma ShiftTop(m: bv64)
    requires Shr(m, 63) == 0
    ensures m <= 0x7fff_ffff_ffff_ffff
  {
  }

  lemma ShiftsTo63(v: bv64)
    ensures Shr(Shr(v, 32), 16) == Shr(v, 48)
    ensures Shr(Shr(v, 48), 8) == Shr(v, 56)
    ensures Shr(Shr(v, 56), 7) == Shr(v, 63)
  {
  }

  lemma Down63(v: bv64)
    ensures Down(v, 63) == Shr(v, 63)
  {
    hide Half, Shr, Down;
    ShiftsTo63(v);
    Down32(v);
    DownAdds(v, 32, 16);
    Down16(Shr(v, 32));
    DownAdds(v, 48, 8);
    Down8(Shr(v, 48));
    DownAdds(v, 56, 7);
    Down7(Shr(v, 56));
  }

  lemma AppendedValue(m: bv64, n: nat, w: bv64)
    requires n > 0 && Val(m) == n / 2 && Half(w) == m && w & 1 == Digit(n) && (w == 0 <==> m == 0 && Digit(n) == 0)
    ensures Val(w) == n
  {
    hide Val, Low, Half;
    DigitLow(n, w);
    ValZero();
    if w != 0 {
      ValStep(w);
    } else {
      ZeroDigit(n);
    }
  }

  /** Distinct words have distinct numbers. */
  lemma {:induction false} ValInjective(v: bv64, w: bv64)
    requires Val(v) == Val(w)
    ensures v == w
    decreases Val(v)
  {
    hide Val, Low, Half;
    ValZero();
    if v != 0 && w != 0 {
      ValStep(v);
      ValStep(w);
      SplitDigits(Val(Half(v)), Low(v), Val(Half(w)), Low(w));
      ValInjective(Half(v), Half(w));
      SameWord(v, w);
    } else if v != 0 {
      ValStep(v);
    } else if w != 0 {
      ValStep(w);
    }
  }

  lemma SplitDigits(a: nat, b: nat, a': nat, b': nat)
    requires 2 * a + b == 2 * a' + b' && b <= 1 && b' <= 1
    ensures a == a' && b == b'
  {
  }

  lemma SameWord(v: bv64, w: bv64)
    requires Half(v) == Half(w) && Low(v) == Low(w)
    ensures v == w
  {
  }

  // ---- Wrapping multiplication ----

  /** `wrapping_mul` by a constant. */
  function WrappingMul(v: bv64, c: nat): bv64
  {
    FromNat(Val(v) * c % USIZE_LIMIT)
  }

  /** A factor may be reduced before multiplying. */
  lemma ReduceFactor(x: nat, k: nat, m: nat)
    requires m > 0
    ensures (x % m) * k % m == x * k % m
  {
    var q, r := x / m, x % m;
    assert x == m * q + r;
    Distribute(m, q, r, k);
    AddMultipleMod(r * k, q * k, m);
  }

  /** Multiplying by a constant and then by its inverse modulo `m` changes nothing. */
  lemma ModInverse(a: nat, c: nat, ci: nat, m: nat)
    requires m > 1 && a < m && c * ci % m == 1
    ensures (a * c % m) * ci % m == a
  {
    ReduceFactor(a * c, ci, m);
    ReduceFactor(c * ci, a, m);
    Regroup(a, c, ci);
    SmallMod(a, m);
  }

  lemma Regroup(a: nat, c: nat, ci: nat)
    ensures a * c * ci == c * ci * a
  {
  }

  lemma SmallMod(a: nat, m: nat)
    requires a < m
    ensures a % m == a
  {
    QuotientIs(a, m, 0, a);
  }

  /** An odd multiplier, inverted modulo `2^64`, never sends two words to one, and reaches every word. */
  lemma WrappingMulInverts(v: bv64, c: nat, ci: nat)
    requires c * ci % USIZE_LIMIT == 1
    ensures WrappingMul(WrappingMul(v, c), ci) == v
  {
    hide Val, FromNat;
    ValRange(v);
    ModInverse(Val(v), c, ci, USIZE_LIMIT);
    ValOfFromNat(Val(v) * c % USIZE_LIMIT);
    ValOfFromNat(Val(v));
    ValInjective(FromNat(Val(v)), v);
  }
}
