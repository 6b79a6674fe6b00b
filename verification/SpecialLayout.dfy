/** Size of Funnel's special array and the exact plan of one table: the largest special length
    that leaves whole ordinary buckets on one side and whole fallback buckets on the other. */
module SpecialLayout {
  import opened Arith
  import opened Wrappers
  import opened BucketCounts

  // ---- Powers of two as the source divides by them ----

  function CeilDivPow2(value: nat, exponent: nat): nat
  {
    if value == 0 then 0
    else if exponent >= 128 then 1
    else CeilDiv(value, Pow2(exponent))
  }

  function FloorThreeDivPow2(value: nat, exponent: nat): nat
  {
    if exponent >= 128 then 0 else FloorDiv(3 * value, Pow2(exponent))
  }

  function FloorDivPow2(value: nat, exponent: nat): nat
  {
    if exponent >= 64 then 0 else FloorDiv(value, Pow2(exponent))
  }

  /** The wide-exponent shortcuts change nothing for a `usize`. */
  lemma ShortcutsAreExact(value: nat, exponent: nat)
    requires value < USIZE_LIMIT
    ensures FloorDivPow2(value, exponent) == value / Pow2(exponent)
    ensures FloorThreeDivPow2(value, exponent) == 3 * value / Pow2(exponent)
    ensures CeilDivPow2(value, exponent) == CeilDiv(value, Pow2(exponent))
  {
    Pow2Of64();
    var p := Pow2(exponent);
    if value == 0 {
      QuotientIs(0, p, 0, 0);
    }
    if exponent >= 64 {
      Pow2Grows(64, exponent);
      QuotientIs(value, p, 0, value);
    }
    if exponent >= 128 {
      FourTimesLimit(exponent);
      QuotientIs(3 * value, p, 0, 3 * value);
    }
  }

  lemma FourTimesLimit(exponent: nat)
    requires exponent >= 66
    ensures Pow2(exponent) >= 4 * USIZE_LIMIT
  {
    Pow2Of64();
    Pow2Adds(2, 64);
    assert Pow2(2) == 4;
    Pow2Grows(66, exponent);
  }

  /** `max(1, ceil(log2(ceil(log2(n)))))`. */
  function LogLogCeiling(n: nat): (r: nat)
    ensures r >= 1
  {
    var loglog := CeilLog2(CeilLog2(n));
    if loglog == 0 then 1 else loglog
  }

  lemma LogLogMonotone(a: nat, b: nat)
    requires a <= b
    ensures LogLogCeiling(a) <= LogLogCeiling(b)
  {
    CeilLog2Monotone(a, b);
    CeilLog2Monotone(CeilLog2(a), CeilLog2(b));
  }

  // ---- Compatible special lengths ----

  /** `special` slots can serve as the special array of an `n`-slot table: it lies in the
      paper's interval, the remaining slots are whole ordinary buckets with at least one per
      level, and its lower half is a positive number of whole fallback buckets. */
  predicate Compatible(n: nat, lower: nat, upper: nat, alpha: nat, beta: nat, width: nat, special: nat)
    requires beta > 0 && width > 0
  {
    && lower <= special <= upper && special <= n
    && (n - special) % beta == 0 && (n - special) / beta >= alpha
    && special / 2 >= width && (special / 2) % width == 0
  }

  /** A divisor of two numbers divides any combination of them. */
  lemma DividesSum(d: nat, x: nat, q: nat, y: nat)
    requires d > 0 && Divides(d, x) && Divides(d, y)
    ensures Divides(d, x * q + y)
  {
    var k, m := x / d, y / d;
    assert x == d * k && y == d * m;
    assert x * q == d * (k * q);
    assert d * (k * q + m) == d * (k * q) + d * m;
    QuotientIs(x * q + y, d, k * q + m, 0);
  }

  /** Euclid's loop; the search needs only that the result divides both numbers. */
  method GreatestCommonDivisor(a: nat, b: nat) returns (g: nat)
    requires a > 0 && b > 0
    ensures g > 0 && Divides(g, a) && Divides(g, b)
    ensures forall d: nat :: d > 0 && Divides(d, a) && Divides(d, b) ==> d <= g
  {
    var left, right := a, b;
    while right != 0
      invariant left > 0
      invariant forall d: nat :: d > 0 ==> (Divides(d, left) && Divides(d, right) <==> Divides(d, a) && Divides(d, b))
      decreases right
    {
      var remainder := left % right;
      forall d: nat | d > 0
        ensures Divides(d, left) && Divides(d, right) <==> Divides(d, right) && Divides(d, remainder)
      {
        EuclidStep(d, left, right);
      }
      left, right := right, remainder;
    }
    g := left;
    QuotientIs(g, g, 1, 0);
    QuotientIs(0, g, 0, 0);
    assert Divides(g, left) && Divides(g, right);
    forall d: nat | d > 0 && Divides(d, a) && Divides(d, b) ensures d <= g {
      DivisorAtMost(d, g);
    }
  }

  lemma DivisorAtMost(d: nat, x: nat)
    requires d > 0 && x > 0 && Divides(d, x)
    ensures d <= x
  {
    var k := x / d;
    assert x == d * k;
    if k >= 1 { MulAtMost(d, 1, k); }
  }

  lemma EuclidStep(d: nat, left: nat, right: nat)
    requires d > 0 && right > 0
    ensures Divides(d, left) && Divides(d, right) <==> Divides(d, right) && Divides(d, left % right)
  {
    var q, r := left / right, left % right;
    assert left == right * q + r;
    if Divides(d, right) && Divides(d, r) {
      DividesSum(d, right, q, r);
    }
    if Divides(d, right) && Divides(d, left) {
      var k, m := right / d, left / d;
      assert right == d * k && left == d * m;
      assert right * q == d * (k * q);
      assert d * (m - k * q) == d * m - d * (k * q);
      QuotientIs(r, d, m - k * q, 0);
    }
  }

  // ---- The residue cycle ----

  /** The special array beside `main` ordinary slots has whole fallback buckets. */
  predicate Fits(n: nat, width: nat, main: nat)
    requires width > 0
  {
    main <= n && (n - main) / 2 % width == 0
  }

  /** Divisibility of the fallback half by `width` repeats after `cycle` main lengths, because
      `beta` is even and so each step shortens that half by exactly `beta / 2`. */
  lemma ResidueCycle(n: nat, main: nat, beta: nat, width: nat, g: nat, cycle: nat)
    requires beta > 0 && beta % 2 == 0 && width > 0
    requires g > 0 && Divides(g, beta) && Divides(g, 2 * width) && cycle == 2 * width / g
    requires Fits(n, width, main + cycle * beta)
    ensures Fits(n, width, main)
  {
    var half, m := beta / 2, beta / g;
    assert 2 * half == beta && beta == g * m && 2 * width == g * cycle;
    assert 2 * (cycle * half) == cycle * beta;
    assert cycle * beta == cycle * (g * m) == (g * cycle) * m == 2 * (width * m);
    assert width * m == m * width;
    AddMultipleMod((n - (main + cycle * beta)) / 2, m, width);
  }

  /** If none of the first `cycle` main lengths fits, no later one does. */
  lemma {:induction false} NoFitBeyondCycle(n: nat, main: nat, beta: nat, width: nat, g: nat, cycle: nat, bound: nat,
                                            j: nat)
    requires beta > 0 && beta % 2 == 0 && width > 0
    requires g > 0 && Divides(g, beta) && Divides(g, 2 * width) && cycle == 2 * width / g
    requires forall k: nat :: k < cycle && Nth(main, beta, k) <= bound ==> !Fits(n, width, Nth(main, beta, k))
    requires Nth(main, beta, j) <= bound
    ensures !Fits(n, width, Nth(main, beta, j))
    decreases j
  {
    assert cycle >= 1 by {
      DivisorAtMost(g, 2 * width);
      QuotientAtLeast(2 * width, g, 1);
    }
    if j >= cycle {
      var before := Nth(main, beta, j - cycle);
      assert Nth(main, beta, j) == before + cycle * beta by {
        assert j * beta == (j - cycle) * beta + cycle * beta;
      }
      assert cycle * beta >= 0;
      NoFitBeyondCycle(n, main, beta, width, g, cycle, bound, j - cycle);
      if Fits(n, width, Nth(main, beta, j)) {
        ResidueCycle(n, before, beta, width, g, cycle);
      }
    }
  }

  /** The `j`-th main length the search tries. */
  function Nth(main: nat, beta: nat, j: nat): nat
  {
    main + j * beta
  }

  // ---- The search ----

  /** A main length the search accepts. */
  predicate Accepted(n: nat, beta: nat, width: nat, minimumMain: nat, maximumMain: nat, main: nat)
    requires beta > 0 && width > 0
  {
    minimumMain <= main <= maximumMain && Divides(beta, main) && Fits(n, width, main)
  }

  /** Every accepted main length is met by some step of an unbounded search. */
  lemma AcceptedIsTried(n: nat, beta: nat, width: nat, minimumMain: nat, maximumMain: nat, main: nat) returns (j: nat)
    requires beta > 0 && width > 0 && Accepted(n, beta, width, minimumMain, maximumMain, main)
    ensures main == Nth(CeilDiv(minimumMain, beta) * beta, beta, j)
  {
    var first, q := CeilDiv(minimumMain, beta), main / beta;
    assert main == beta * q;
    CeilDivAtMost(minimumMain, beta, q);
    j := q - first;
    assert beta * q == first * beta + j * beta;
  }

  lemma NthIsMultiple(minimumMain: nat, beta: nat, j: nat)
    requires beta > 0
    ensures var main := Nth(CeilDiv(minimumMain, beta) * beta, beta, j); main >= minimumMain && Divides(beta, main)
  {
    var first := CeilDiv(minimumMain, beta);
    CeilDivAtMost(minimumMain, beta, first);
    assert first * beta + j * beta == (first + j) * beta;
    MultipleMod(first + j, beta);
    assert j * beta >= 0;
  }

  lemma FirstFitIsLeast(n: nat, beta: nat, width: nat, minimumMain: nat, maximumMain: nat, i: nat)
    requires beta > 0 && width > 0
    requires var start := CeilDiv(minimumMain, beta) * beta;
             && (forall k: nat :: k < i && Nth(start, beta, k) <= maximumMain ==> !Fits(n, width, Nth(start, beta, k)))
             && Nth(start, beta, i) <= maximumMain && Fits(n, width, Nth(start, beta, i))
    ensures var main := Nth(CeilDiv(minimumMain, beta) * beta, beta, i);
            && Accepted(n, beta, width, minimumMain, maximumMain, main)
            && forall other: nat :: Accepted(n, beta, width, minimumMain, maximumMain, other) ==> main <= other
  {
    var start := CeilDiv(minimumMain, beta) * beta;
    NthIsMultiple(minimumMain, beta, i);
    forall other: nat | Accepted(n, beta, width, minimumMain, maximumMain, other) ensures Nth(start, beta, i) <= other {
      var j := AcceptedIsTried(n, beta, width, minimumMain, maximumMain, other);
      if j >= i {
        MulAtMost(beta, i, j);
      }
    }
  }

  lemma NoFitInCycle(n: nat, beta: nat, width: nat, g: nat, cycle: nat, minimumMain: nat, maximumMain: nat, i: nat)
    requires beta > 0 && beta % 2 == 0 && width > 0
    requires g > 0 && Divides(g, beta) && Divides(g, 2 * width) && cycle == 2 * width / g
    requires var start := CeilDiv(minimumMain, beta) * beta;
             && (forall k: nat :: k < i && Nth(start, beta, k) <= maximumMain ==> !Fits(n, width, Nth(start, beta, k)))
             && (i >= cycle || Nth(start, beta, i) > maximumMain)
    ensures forall main: nat :: !Accepted(n, beta, width, minimumMain, maximumMain, main)
  {
    var start := CeilDiv(minimumMain, beta) * beta;
    forall k: nat | k < cycle && Nth(start, beta, k) <= maximumMain ensures !Fits(n, width, Nth(start, beta, k)) {
      if k >= i { MulAtMost(beta, i, k); }
    }
    forall main: nat ensures !Accepted(n, beta, width, minimumMain, maximumMain, main) {
      if Accepted(n, beta, width, minimumMain, maximumMain, main) {
        var j := AcceptedIsTried(n, beta, width, minimumMain, maximumMain, main);
        NoFitBeyondCycle(n, start, beta, width, g, cycle, maximumMain, j);
      }
    }
  }

  /** The bounded search: the least accepted main length, found within one residue cycle. */
  method SearchResidueCycle(n: nat, beta: nat, width: nat, minimumMain: nat, maximumMain: nat) returns (r: Option<nat>)
    requires beta > 0 && beta % 2 == 0 && width > 0 && maximumMain + 2 * width <= n < USIZE_LIMIT
    ensures r.Some? ==> Accepted(n, beta, width, minimumMain, maximumMain, r.value)
    ensures forall main: nat :: Accepted(n, beta, width, minimumMain, maximumMain, main)
              ==> r.Some? && r.value <= main
  {
    var start := CeilDiv(minimumMain, beta) * beta;
    var g := GreatestCommonDivisor(beta, 2 * width);
    var cycle := 2 * width / g;
    var main, i := start, 0;
    while i < cycle
      invariant i <= cycle && main == Nth(start, beta, i)
      invariant forall k: nat :: k < i && Nth(start, beta, k) <= maximumMain ==> !Fits(n, width, Nth(start, beta, k))
    {
      if main > maximumMain {
        break;
      }
      var fallback := (n - main) / 2;
      if fallback >= width && fallback % width == 0 {
        FirstFitIsLeast(n, beta, width, minimumMain, maximumMain, i);
        return Some(main);
      }
      assert Nth(start, beta, i + 1) == main + beta;
      i := i + 1;
      if main + beta >= USIZE_LIMIT {
        main := main + beta;
        break;
      }
      main := main + beta;
    }
    NoFitInCycle(n, beta, width, g, cycle, minimumMain, maximumMain, i);
    return None;
  }

  ghost predicate LargestLayout(n: nat, lower: nat, upper: nat, alpha: nat, beta: nat, width: nat, special: nat)
    requires beta > 0 && width > 0
  {
    && Compatible(n, lower, upper, alpha, beta, width, special)
    && forall other: nat :: Compatible(n, lower, upper, alpha, beta, width, other) ==> other <= special
  }

  /** A compatible special length leaves an accepted main length, and the other way round. */
  lemma CompatibleIsAccepted(n: nat, lower: nat, upper: nat, alpha: nat, beta: nat, width: nat, special: nat)
    requires beta > 0 && width > 0 && alpha * beta <= n
    ensures var least := if lower >= 2 * width then lower else 2 * width;
            var most := if upper <= n - alpha * beta then upper else n - alpha * beta;
            Compatible(n, lower, upper, alpha, beta, width, special) <==>
              least <= special <= most && Accepted(n, beta, width, n - most, n - special, n - special)
  {
    if special <= n {
      QuotientAtLeast(n - special, beta, alpha);
      assert beta * alpha == alpha * beta;
      assert n - (n - special) == special;
    }
  }

  /** Largest special length that fits, with the first ordinary bucket count it leads to; `None`
      exactly when no length in the interval is compatible. */
  method LargestCompatibleSpecialLayout(n: nat, lower: nat, upper: nat, alpha: nat, beta: nat, width: nat)
      returns (r: Option<(nat, nat)>)
    requires n < USIZE_LIMIT && 2 * width < USIZE_LIMIT
    requires alpha >= 1 && beta > 0 && beta % 2 == 0 && width > 0
    ensures r.None? ==> forall special: nat :: !Compatible(n, lower, upper, alpha, beta, width, special)
    ensures r.Some? ==> LargestLayout(n, lower, upper, alpha, beta, width, r.value.0)
                        && NearestFirst((n - r.value.0) / beta, alpha, r.value.1)
  {
    var minimumMainLen := alpha * beta;
    if minimumMainLen >= USIZE_LIMIT || minimumMainLen > n {
      TooFewSlots(n, lower, upper, alpha, beta, width);
      return None;
    }
    var minimumSpecialLen := if lower >= 2 * width then lower else 2 * width;
    var maximumSpecialLen := if upper <= n - minimumMainLen then upper else n - minimumMainLen;
    if minimumSpecialLen > maximumSpecialLen {
      NoneAccepted(n, lower, upper, alpha, beta, width, minimumSpecialLen, maximumSpecialLen,
                   n - maximumSpecialLen, n - minimumSpecialLen);
      return None;
    }
    var minimumMain, maximumMain := n - maximumSpecialLen, n - minimumSpecialLen;
    if CeilDiv(minimumMain, beta) > maximumMain / beta {
      NoMultipleBetween(n, minimumMain, maximumMain, beta, width);
      NoneAccepted(n, lower, upper, alpha, beta, width, minimumSpecialLen, maximumSpecialLen, minimumMain, maximumMain);
      return None;
    }
    var main := SearchResidueCycle(n, beta, width, minimumMain, maximumMain);
    if main.None? {
      NoneAccepted(n, lower, upper, alpha, beta, width, minimumSpecialLen, maximumSpecialLen, minimumMain, maximumMain);
      return None;
    }
    LeastAccepted(n, lower, upper, alpha, beta, width, minimumSpecialLen, maximumSpecialLen,
                  minimumMain, maximumMain, main.value);
    var first := NearestFeasibleFirstCount(main.value / beta, alpha);
    r := None;
    if first.Some? {
      r := Some((n - main.value, first.value));
    }
  }

  lemma TooFewSlots(n: nat, lower: nat, upper: nat, alpha: nat, beta: nat, width: nat)
    requires beta > 0 && width > 0 && alpha * beta > n
    ensures forall special: nat :: !Compatible(n, lower, upper, alpha, beta, width, special)
  {
    forall special: nat ensures !Compatible(n, lower, upper, alpha, beta, width, special) {
      if special <= n { QuotientAtLeast(n - special, beta, alpha); }
    }
  }

  /** The special lengths the search admits, in the form it computes them. */
  ghost predicate SearchInterval(n: nat, lower: nat, upper: nat, alpha: nat, beta: nat, width: nat,
                                 least: nat, most: nat, low: int, high: int)
  {
    && low == n - most && high == n - least
    && beta > 0 && width > 0 && alpha * beta <= n
    && least == (if lower >= 2 * width then lower else 2 * width)
    && most == (if upper <= n - alpha * beta then upper else n - alpha * beta)
  }

  lemma NoneAccepted(n: nat, lower: nat, upper: nat, alpha: nat, beta: nat, width: nat,
                     least: nat, most: nat, low: nat, high: int)
    requires SearchInterval(n, lower, upper, alpha, beta, width, least, most, low, high)
    requires least <= most ==> high >= 0 && forall main: nat :: !Accepted(n, beta, width, low, high, main)
    ensures forall special: nat :: !Compatible(n, lower, upper, alpha, beta, width, special)
  {
    forall special: nat ensures !Compatible(n, lower, upper, alpha, beta, width, special) {
      CompatibleIsAccepted(n, lower, upper, alpha, beta, width, special);
      if Compatible(n, lower, upper, alpha, beta, width, special) {
        assert Accepted(n, beta, width, low, high, n - special);
      }
    }
  }

  lemma LeastAccepted(n: nat, lower: nat, upper: nat, alpha: nat, beta: nat, width: nat,
                      least: nat, most: nat, low: nat, high: nat, main: nat)
    requires SearchInterval(n, lower, upper, alpha, beta, width, least, most, low, high) && least <= most
    requires Accepted(n, beta, width, low, high, main)
    requires forall other: nat :: Accepted(n, beta, width, low, high, other) ==> main <= other
    ensures LargestLayout(n, lower, upper, alpha, beta, width, n - main)
    ensures main / beta >= alpha
  {
    assert Accepted(n, beta, width, low, main, main);
    CompatibleIsAccepted(n, lower, upper, alpha, beta, width, n - main);
    forall other: nat | Compatible(n, lower, upper, alpha, beta, width, other) ensures other <= n - main {
      CompatibleIsAccepted(n, lower, upper, alpha, beta, width, other);
      assert Accepted(n, beta, width, low, high, n - other);
    }
  }

  lemma NoMultipleBetween(n: nat, low: nat, high: nat, beta: nat, width: nat)
    requires beta > 0 && width > 0 && CeilDiv(low, beta) > high / beta
    ensures forall main: nat :: !Accepted(n, beta, width, low, high, main)
  {
    forall main: nat ensures !Accepted(n, beta, width, low, high, main) {
      if Accepted(n, beta, width, low, high, main) {
        var q := main / beta;
        assert main == beta * q;
        CeilDivAtMost(low, beta, q);
        QuotientAtLeast(high, beta, q);
      }
    }
  }
}
