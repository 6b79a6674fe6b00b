/** Capacity shape and batch schedule of one Elastic allocation. */
module ElasticGeometry {
  import opened Arith
  import opened Wrappers
  import opened BucketCounts
  import opened SpecialLayout
  import opened ElasticPlan
  import opened Capacity

  const MAX_ELASTIC_SLOTS: nat := U32_LIMIT
  const INITIAL_CAPACITY: nat := 8

  datatype Geometry = Geometry(slots: nat, maxInsertions: nat, caps: seq<nat>, quotas: seq<nat>)

  /** The paper's geometry for `n` slots; empty tables have no levels. */
  ghost predicate IsGeometry(g: Geometry, d: nat)
  {
    && g.slots <= MAX_ELASTIC_SLOTS && d >= 1
    && (g.slots == 0 ==> g == Geometry(0, 0, [], []))
    && (g.slots == 1 ==> g == Geometry(1, 1, [1], [1]))
    && (g.slots >= 2 ==>
          && g.maxInsertions == MaxInsertions(g.slots, d)
          && g.caps == LevelLengthsOf(g.slots)
          && QuotasDefined(None, g.caps, d) && g.quotas == Quotas(None, g.caps, g.maxInsertions, d))
  }

  /** At most 32 levels, which use up the slots exactly. */
  lemma GeometryFits(g: Geometry, d: nat)
    requires IsGeometry(g, d)
    ensures |g.caps| == |g.quotas| <= 32 && Sum(g.caps) == g.slots && AllPositive(g.caps)
    ensures g.maxInsertions <= g.slots && Sum(g.quotas) == g.maxInsertions && (g.slots > 0 ==> |g.caps| >= 1)
  {
    if g.slots == 1 {
      assert g.caps[1..] == [] && Sum([]) == 0;
    } else if g.slots >= 2 {
      LevelGeometry(g.slots);
      QuotasSpendBudget(g.slots, d, g.maxInsertions);
      CeilLog2IsLeast(g.slots, 32);
      Pow2Of32();
    }
  }

  lemma Pow2Of32()
    ensures Pow2(32) == U32_LIMIT
  {
    assert Pow2(8) == 256;
    Pow2Adds(8, 8);
    Pow2Adds(16, 16);
  }

  /** Collects the level lengths. */
  method CollectLevels(n: nat) returns (caps: seq<nat>)
    ensures caps == LevelLengthsOf(n)
  {
    var lengths := new LevelLengths(n, CeilLog2(n));
    ghost var all := lengths.Pending();
    caps := [];
    while true
      invariant fresh(lengths) && all == caps + lengths.Pending()
      decreases |all| - |caps|
    {
      ghost var before, pending := caps, lengths.Pending();
      var next := lengths.Next();
      if next.None? {
        assert pending == [];
        break;
      }
      LevelsDrop(pending, lengths.Pending(), before, next.value);
      caps := caps + [next.value];
    }
  }

  lemma LevelsDrop(pending: seq<nat>, rest: seq<nat>, before: seq<nat>, next: nat)
    requires pending != [] && rest == pending[1..] && next == pending[0]
    ensures before + pending == before + [next] + rest
  {
  }

  /** Collects the batch quotas. */
  method CollectQuotas(n: nat, budget: nat, d: nat) returns (quotas: seq<nat>)
    requires QuotasDefined(None, LevelLengthsOf(n), d)
    ensures quotas == Quotas(None, LevelLengthsOf(n), budget, d)
  {
    var iter := new BatchQuotas(n, CeilLog2(n), budget, d);
    ghost var all := iter.Pending();
    quotas := [];
    while true
      invariant fresh(iter) && fresh(iter.levels) && iter.Defined() && all == quotas + iter.Pending()
      decreases |all| - |quotas|
    {
      ghost var before, pending := quotas, iter.Pending();
      var next := iter.Next();
      if next.None? {
        assert pending == [];
        break;
      }
      LevelsDrop(pending, iter.Pending(), before, next.value);
      quotas := quotas + [next.value];
    }
  }

  /** `for_slots`: `None` exactly past the largest table. */
  method ForSlots(slots: nat, d: nat) returns (r: Option<Geometry>)
    requires d >= 1
    ensures r.None? <==> slots > MAX_ELASTIC_SLOTS
    ensures r.Some? ==> r.value.slots == slots && IsGeometry(r.value, d)
  {
    if slots > MAX_ELASTIC_SLOTS {
      return None;
    }
    if slots == 0 {
      return Some(Geometry(0, 0, [], []));
    }
    if slots == 1 {
      return Some(Geometry(1, 1, [1], [1]));
    }
    LengthsAreDefined(slots, d);
    var maxInsertions := MaxInsertions(slots, d);
    var caps := CollectLevels(slots);
    var quotas := CollectQuotas(slots, maxInsertions, d);
    return Some(Geometry(slots, maxInsertions, caps, quotas));
  }

  /** The `k`-th doubling of the first allocation. */
  function Doubled(k: nat): nat
  {
    INITIAL_CAPACITY * Pow2(k)
  }

  /** `for_insert_budget`: a geometry with room for the request. */
  method ForInsertBudget(requested: nat, d: nat) returns (r: Option<Geometry>)
    requires requested < USIZE_LIMIT && d >= 1
    ensures r.Some? ==> IsGeometry(r.value, d) && r.value.maxInsertions >= requested && r.value.slots != 1
    ensures r.Some? ==> if requested == 0 then r.value.slots == 0
                        else LeastDoubling(INITIAL_CAPACITY, requested, d, r.value.slots)
    ensures r.None? ==> requested > 0 && forall k: nat :: Doubled(k) <= MAX_ELASTIC_SLOTS ==>
                                                            MaxInsertions(Doubled(k), d) < requested
  {
    var slots := Some(0);
    ghost var doublings := 0;
    if requested > 0 {
      slots, doublings := CapacityFor(INITIAL_CAPACITY, requested, d);
      forall k: nat | k >= doublings ensures Doubled(k) >= Doubled(doublings) {
        Pow2Grows(doublings, k);
        MulAtMost(INITIAL_CAPACITY, Pow2(doublings), Pow2(k));
      }
      if slots.None? {
        return None;
      }
      MulAtMost(INITIAL_CAPACITY, 1, Pow2(doublings));
    }
    r := ForSlots(slots.value, d);
  }

  /** Doubling a table of at least two slots raises its insertion limit. */
  lemma DoublingGrows(n: nat, d: nat)
    requires 2 <= n && 2 * n < USIZE_LIMIT && d >= 1
    ensures MaxInsertions(2 * n, d) > MaxInsertions(n, d)
  {
    ShortcutsAreExact(n, d);
    ShortcutsAreExact(2 * n, d);
    Pow2Grows(1, d);
    assert Pow2(1) == 2;
    DoubledQuotient(n, Pow2(d));
  }

  lemma DoubledQuotient(n: nat, p: nat)
    requires p >= 2 && n >= 2
    ensures 2 * n / p - n / p < n
  {
    var a, b := n / p, 2 * n / p;
    assert n == p * a + n % p && 2 * n == p * b + 2 * n % p;
    if b - a >= n {
      MulAtMost(p, a + n, b);
      assert p * (a + n) == p * a + p * n;
      MulAtMost(n, 2, p);
    }
  }

  /** Every non-empty geometry accepts at least one entry. */
  lemma InitialAccepts(d: nat)
    requires d >= 1
    ensures MaxInsertions(INITIAL_CAPACITY, d) >= 4
  {
    ShortcutsAreExact(INITIAL_CAPACITY, d);
    Pow2Grows(1, d);
    assert Pow2(1) == 2;
    QuotientShrinks(INITIAL_CAPACITY, 2, Pow2(d));
  }
}
