/** Capacity and reserve-fraction arithmetic shared by both tables. */
module Capacity {
  import opened Arith
  import opened Wrappers
  import opened SpecialLayout
  import opened Controls

  /** Live entries an `n`-slot table accepts at reserve fraction `1 / 2^d`. */
  function MaxInsertions(n: nat, d: nat): nat
  {
    n - FloorDivPow2(n, d)
  }

  lemma QuotientGrowsSlower(n: nat, m: nat, p: nat)
    requires n <= m && p >= 1
    ensures 0 <= m / p - n / p <= m - n
  {
    var a, b := n / p, m / p;
    assert n == p * a + n % p && m == p * b + m % p;
    QuotientAtLeast(m, p, a);
    if b - a > m - n {
      MulAtMost(b - a - 1, 1, p);
    }
  }

  /** `None` when the slot count is not representable. */
  method ExactCapacityFor(needed: nat, d: nat) returns (r: Option<nat>)
    requires needed < USIZE_LIMIT && d >= 1
    ensures r.Some? ==> r.value < USIZE_LIMIT
                        && forall n: nat :: n < USIZE_LIMIT ==> (MaxInsertions(n, d) >= needed <==> n >= r.value)
    ensures r.None? ==> forall n: nat :: n < USIZE_LIMIT ==> MaxInsertions(n, d) < needed
  {
    if needed == 0 {
      return Some(0);
    }
    if d >= 64 {
      return Some(needed);
    }
    var slots := needed + (needed - 1) / (Pow2(d) - 1);
    CapacityInverse(needed, d, slots);
    return if slots >= USIZE_LIMIT then None else Some(slots);
  }

  /** The closed form inverts `n - floor(n / 2^d) >= needed` exactly. */
  lemma CapacityInverse(needed: nat, d: nat, slots: nat)
    requires needed >= 1 && 1 <= d < 64 && Pow2(d) >= 2
    requires slots == needed + (needed - 1) / (Pow2(d) - 1)
    ensures forall n: nat :: n < USIZE_LIMIT ==> (MaxInsertions(n, d) >= needed <==> n >= slots)
  {
    var p := Pow2(d);
    var a, b := (needed - 1) / (p - 1), (needed - 1) % (p - 1);
    assert needed - 1 == (p - 1) * a + b;
    assert p * a == (p - 1) * a + a;
    QuotientIs(slots, p, a, b + 1);
    QuotientIs(slots - 1, p, a, b);
    forall n: nat | n < USIZE_LIMIT ensures MaxInsertions(n, d) >= needed <==> n >= slots {
      if n >= slots {
        QuotientGrowsSlower(slots, n, p);
      } else {
        QuotientGrowsSlower(n, slots - 1, p);
      }
    }
  }

  function DoubledFrom(start: nat, k: nat): nat
  {
    start * Pow2(k)
  }

  /** `slots` is the least doubling of `start` whose insertion limit reaches `needed`. */
  ghost predicate LeastDoubling(start: nat, needed: nat, d: nat, slots: nat)
  {
    && MaxInsertions(slots, d) >= needed && (exists k: nat :: slots == DoubledFrom(start, k))
    && forall k: nat :: MaxInsertions(DoubledFrom(start, k), d) >= needed ==> slots <= DoubledFrom(start, k)
  }

  lemma FirstIsLeast(start: nat, needed: nat, d: nat, doublings: nat)
    requires MaxInsertions(start * Pow2(doublings), d) >= needed
    requires forall j: nat :: j < doublings ==> MaxInsertions(start * Pow2(j), d) < needed
    ensures LeastDoubling(start, needed, d, start * Pow2(doublings))
  {
    hide MaxInsertions;
    var slots := DoubledFrom(start, doublings);
    forall k: nat | MaxInsertions(DoubledFrom(start, k), d) >= needed
      ensures slots <= DoubledFrom(start, k)
    {
      assert MaxInsertions(start * Pow2(k), d) >= needed;
      assert k >= doublings;
      Pow2Grows(doublings, k);
      MulAtMost(start, Pow2(doublings), Pow2(k));
    }
  }

  lemma BelowLimit(start: nat, k: nat, doublings: nat)
    requires DoubledFrom(start, k) < USIZE_LIMIT <= start * Pow2(doublings)
    ensures k < doublings
  {
    if k >= doublings {
      Pow2Grows(doublings, k);
      MulAtMost(start, Pow2(doublings), Pow2(k));
    }
  }

  lemma DoublesOnce(start: nat, p: nat)
    ensures start * (2 * p) == start * p * 2
  {
  }

  /** `capacity_for`: the first doubling of `start` whose insertion limit reaches `needed`. */
  method CapacityFor(start: nat, needed: nat, d: nat) returns (r: Option<nat>, ghost doublings: nat)
    requires 1 <= start < USIZE_LIMIT && needed < USIZE_LIMIT
    ensures forall j: nat :: j < doublings ==> MaxInsertions(start * Pow2(j), d) < needed
    ensures r.Some? ==> r.value < USIZE_LIMIT && LeastDoubling(start, needed, d, r.value)
    ensures r.None? ==> forall k: nat :: DoubledFrom(start, k) < USIZE_LIMIT ==>
                                           MaxInsertions(DoubledFrom(start, k), d) < needed
    ensures r.Some? ==> r.value == start * Pow2(doublings)
    ensures r.None? ==> start * Pow2(doublings) >= USIZE_LIMIT
  {
    var cap := start;
    doublings := 0;
    while MaxInsertions(cap, d) < needed
      invariant cap == start * Pow2(doublings) && 1 <= cap < USIZE_LIMIT
      invariant forall j: nat :: j < doublings ==> MaxInsertions(start * Pow2(j), d) < needed
      decreases USIZE_LIMIT - cap
    {
      doublings := doublings + 1;
      DoublesOnce(start, Pow2(doublings - 1));
      if cap * 2 >= USIZE_LIMIT {
        forall k: nat | DoubledFrom(start, k) < USIZE_LIMIT
          ensures MaxInsertions(DoubledFrom(start, k), d) < needed
        {
          BelowLimit(start, k, doublings);
        }
        return None, doublings;
      }
      cap := cap * 2;
    }
    FirstIsLeast(start, needed, d, doublings);
    return Some(cap), doublings;
  }

  /** `tombstone_cleanup_threshold`: between half and three quarters of the slots. */
  function CleanupThreshold(capacity: nat): nat
  {
    var half := capacity / 2;
    var threeQuarters := (if 3 * capacity < USIZE_LIMIT then 3 * capacity else USIZE_LIMIT - 1) / 4;
    var hysteresis := if half + 4 * GROUP < USIZE_LIMIT then half + 4 * GROUP else USIZE_LIMIT - 1;
    var least := if hysteresis <= threeQuarters then hysteresis else threeQuarters;
    if least >= half then least else half
  }

  /** The threshold is the largest count within four groups of half the slots and within three quarters of
      them (a product that saturates), or half if that is larger. */
  lemma CleanupThresholdBounds(capacity: nat)
    requires capacity < USIZE_LIMIT
    ensures capacity / 2 <= CleanupThreshold(capacity) <= 3 * capacity / 4
    ensures forall x: nat :: x <= capacity / 2 + 4 * GROUP && 4 * x <= 3 * capacity && 4 * x < USIZE_LIMIT ==>
                               x <= CleanupThreshold(capacity)
    ensures var t := CleanupThreshold(capacity);
            || t == capacity / 2
            || (t <= capacity / 2 + 4 * GROUP && 4 * t <= 3 * capacity && 4 * t < USIZE_LIMIT)
  {
  }
}
