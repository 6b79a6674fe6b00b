/** Elastic geometry: halving level lengths and the capped insertion-batch quotas. */
module ElasticPlan {
  import opened Arith
  import opened Wrappers
  import opened BucketCounts
  import opened SpecialLayout

  // ---- Level lengths ----

  function Lengths(slots: nat, levels: nat): seq<nat>
    decreases levels
  {
    if levels == 0 then []
    else if levels == 1 then [slots]
    else
      var length := slots / 2 + slots % 2;
      [length] + Lengths(slots - length, levels - 1)
  }

  predicate NearHalf(current: nat, next: nat)
  {
    2 * next <= current + 2 && current <= 2 * next + 2
  }

  /** Adjacent lengths are within one of halving. */
  ghost predicate Halving(lengths: seq<nat>)
  {
    forall i, j :: 0 <= i < j < |lengths| && j == i + 1 ==> NearHalf(lengths[i], lengths[j])
  }

  predicate AllPositive(lengths: seq<nat>)
  {
    forall i :: 0 <= i < |lengths| ==> lengths[i] >= 1
  }

  lemma HalfInterval(slots: nat, levels: nat)
    requires levels >= 2 && Pow2(levels - 1) <= slots <= Pow2(levels)
    ensures Pow2(levels - 2) <= slots / 2 <= Pow2(levels - 1)
    ensures Lengths(slots, levels) == [slots - slots / 2] + Lengths(slots / 2, levels - 1)
    ensures slots >= 2
    ensures levels == 2 ==> slots <= 4
  {
    if levels == 2 {
      assert Pow2(2) == 4;
    }
  }

  lemma {:induction false} LengthsSum(slots: nat, levels: nat)
    requires levels >= 1
    ensures |Lengths(slots, levels)| == levels && Sum(Lengths(slots, levels)) == slots
    ensures Lengths(slots, levels)[0] == if levels == 1 then slots else slots - slots / 2
    decreases levels
  {
    if levels == 1 {
      assert Lengths(slots, levels)[1..] == [];
    } else {
      LengthsSum(slots / 2, levels - 1);
      assert slots - (slots / 2 + slots % 2) == slots / 2;
      assert Lengths(slots, levels)[1..] == Lengths(slots / 2, levels - 1);
    }
  }

  /** Halving `slots` from within its power-of-two interval leaves one or two for the last level. */
  lemma {:induction false} LengthsFrom(slots: nat, levels: nat)
    requires levels >= 1 && Pow2(levels - 1) <= slots <= Pow2(levels)
    ensures |Lengths(slots, levels)| == levels
    ensures AllPositive(Lengths(slots, levels)) && Halving(Lengths(slots, levels))
    ensures Lengths(slots, levels)[levels - 1] <= 2
    decreases levels
  {
    hide AllPositive, Halving, NearHalf, Lengths;
    LengthsSum(slots, levels);
    if levels == 1 {
      LastLength(slots);
    } else {
      HalfInterval(slots, levels);
      LengthsFrom(slots / 2, levels - 1);
      LengthsSum(slots / 2, levels - 1);
      var rest := Lengths(slots / 2, levels - 1);
      FirstNear(slots, rest[0], levels);
      NearHalfCons(slots - slots / 2, rest, Lengths(slots, levels));
    }
  }

  lemma LastLength(slots: nat)
    requires slots >= 1
    ensures AllPositive(Lengths(slots, 1)) && Halving(Lengths(slots, 1)) && Lengths(slots, 1) == [slots]
  {
  }

  lemma FirstNear(slots: nat, next: nat, levels: nat)
    requires next == (if levels == 2 then slots / 2 else slots / 2 - slots / 2 / 2)
    requires slots >= 2 && (levels == 2 ==> slots <= 4)
    ensures NearHalf(slots - slots / 2, next)
  {
  }

  lemma NearHalfCons(first: nat, rest: seq<nat>, l: seq<nat>)
    requires l == [first] + rest
    requires first >= 1 && AllPositive(rest) && Halving(rest) && |rest| >= 1 && NearHalf(first, rest[0])
    ensures AllPositive(l) && Halving(l) && l[|l| - 1] == rest[|rest| - 1]
  {
    forall i, j | 0 <= i < j < |l| && j == i + 1 ensures NearHalf(l[i], l[j]) {
      if i > 0 {
        assert NearHalf(rest[i - 1], rest[j - 1]);
      }
    }
  }

  /** The level lengths of an `n`-slot table. */
  function LevelLengthsOf(n: nat): seq<nat>
  {
    Lengths(n, CeilLog2(n))
  }

  /** `ceil(log2(n))` positive levels that sum to `n`, each within one of half the previous. */
  lemma LevelGeometry(n: nat)
    requires n >= 2
    ensures var l := LevelLengthsOf(n);
            |l| == CeilLog2(n) >= 1 && Sum(l) == n && AllPositive(l) && Halving(l) && l[|l| - 1] <= 2
  {
    hide Lengths, CeilLog2;
    var k := CeilLog2(n);
    CeilLog2IsLeast(n, k);
    CeilLog2IsLeast(n, k - 1);
    LengthsSum(n, k);
    LengthsFrom(n, k);
  }

  class LevelLengths {
    var remainingSlots: nat
    var remainingLevels: nat

    constructor (slots: nat, levels: nat)
      ensures remainingSlots == slots && remainingLevels == levels
    {
      remainingSlots, remainingLevels := slots, levels;
    }

    function Pending(): seq<nat>
      reads this
    {
      Lengths(remainingSlots, remainingLevels)
    }

    method Next() returns (r: Option<nat>)
      modifies this
      ensures old(Pending()) == [] ==> r.None? && Pending() == []
      ensures old(Pending()) != [] ==> r == Some(old(Pending())[0]) && Pending() == old(Pending())[1..]
    {
      if remainingLevels == 0 {
        return None;
      }
      var length := if remainingLevels == 1 then remainingSlots else remainingSlots / 2 + remainingSlots % 2;
      remainingSlots := remainingSlots - length;
      remainingLevels := remainingLevels - 1;
      return Some(length);
    }
  }

  // ---- Batch quotas ----

  /** `floor(delta * level / 2)`: the slots a batch leaves free in its current level. */
  function HalfReserved(level: nat, d: nat): nat
  {
    FloorDivPow2(level, d + 1)
  }

  /** Neither subtraction of the quota formula can underflow. */
  lemma QuotaNeverUnderflows(level: nat, d: nat)
    requires level < USIZE_LIMIT && d >= 1
    ensures HalfReserved(level, d) + CeilThreeQuarters(level) <= level
  {
    ShortcutsAreExact(level, d + 1);
    var p := Pow2(d + 1);
    Pow2Grows(2, d + 1);
    assert Pow2(2) == 4;
    QuotientShrinks(level, 4, p);
  }

  /** A batch's uncapped quota: what fills `previous` to its reserve plus what fills `level` to
      three quarters. */
  function RawQuota(previous: Option<nat>, level: nat, d: nat): int
  {
    match previous
    case None => CeilThreeQuarters(level)
    case Some(p) => p - HalfReserved(p, d) - CeilThreeQuarters(p) + CeilThreeQuarters(level)
  }

  predicate QuotasDefined(previous: Option<nat>, lengths: seq<nat>, d: nat)
  {
    && d >= 1 && (previous.Some? ==> previous.value < USIZE_LIMIT)
    && forall i :: 0 <= i < |lengths| ==> lengths[i] < USIZE_LIMIT
  }

  lemma RawQuotaNonNegative(previous: Option<nat>, level: nat, d: nat)
    requires d >= 1 && (previous.Some? ==> previous.value < USIZE_LIMIT)
    ensures RawQuota(previous, level, d) >= 0
  {
    if previous.Some? {
      QuotaNeverUnderflows(previous.value, d);
    }
  }

  function Quotas(previous: Option<nat>, lengths: seq<nat>, budget: nat, d: nat): seq<nat>
    requires QuotasDefined(previous, lengths, d)
    decreases |lengths|
  {
    if lengths == [] then []
    else
      RawQuotaNonNegative(previous, lengths[0], d);
      var raw := RawQuota(previous, lengths[0], d);
      var quota := if raw <= budget then raw else budget;
      [quota] + Quotas(Some(lengths[0]), lengths[1..], budget - quota, d)
  }

  function RawTotal(previous: Option<nat>, lengths: seq<nat>, d: nat): nat
    requires QuotasDefined(previous, lengths, d)
    decreases |lengths|
  {
    if lengths == [] then 0
    else
      RawQuotaNonNegative(previous, lengths[0], d);
      RawQuota(previous, lengths[0], d) + RawTotal(Some(lengths[0]), lengths[1..], d)
  }

  /** Capping in order spends exactly the smaller of the budget and the uncapped total. */
  lemma {:induction false} QuotasSum(previous: Option<nat>, lengths: seq<nat>, budget: nat, d: nat)
    requires QuotasDefined(previous, lengths, d)
    ensures var q := Quotas(previous, lengths, budget, d);
            |q| == |lengths|
            && Sum(q) == if RawTotal(previous, lengths, d) <= budget then RawTotal(previous, lengths, d) else budget
    decreases |lengths|
  {
    if lengths != [] {
      RawQuotaNonNegative(previous, lengths[0], d);
      var raw := RawQuota(previous, lengths[0], d);
      var quota := if raw <= budget then raw else budget;
      QuotasSum(Some(lengths[0]), lengths[1..], budget - quota, d);
      var q := Quotas(previous, lengths, budget, d);
      assert q[1..] == Quotas(Some(lengths[0]), lengths[1..], budget - quota, d);
    }
  }

  lemma QuotientsAdd(a: nat, b: nat, p: nat)
    requires p >= 1
    ensures a / p + b / p <= (a + b) / p
  {
    assert p * (a / p + b / p) == p * (a / p) + p * (b / p);
    QuotientAtLeast(a + b, p, a / p + b / p);
  }

  /** The uncapped quotas from `previous` on cover all its slots and the later ones, up to the
      reserve. */
  lemma {:induction false} RawCovers(previous: nat, lengths: seq<nat>, d: nat)
    requires QuotasDefined(Some(previous), lengths, d)
    requires previous + Sum(lengths) < USIZE_LIMIT
    requires (if lengths == [] then previous else lengths[|lengths| - 1]) <= 2
    ensures CeilThreeQuarters(previous) + RawTotal(Some(previous), lengths, d)
            >= previous + Sum(lengths) - HalfReserved(previous + Sum(lengths), d)
    decreases |lengths|
  {
    var p := Pow2(d + 1);
    ShortcutsAreExact(previous + Sum(lengths), d + 1);
    if lengths == [] {
      QuotientAtLeast(previous, p, 0);
    } else {
      var rest := lengths[0] + Sum(lengths[1..]);
      RawCovers(lengths[0], lengths[1..], d);
      ShortcutsAreExact(previous, d + 1);
      ShortcutsAreExact(rest, d + 1);
      QuotientsAdd(previous, rest, p);
    }
  }

  lemma {:induction false} ElementsBelowSum(lengths: seq<nat>, i: nat)
    requires i < |lengths|
    ensures lengths[i] <= Sum(lengths)
    decreases |lengths|
  {
    if i > 0 {
      ElementsBelowSum(lengths[1..], i - 1);
    }
  }

  lemma LengthsAreDefined(n: nat, d: nat)
    requires 2 <= n < USIZE_LIMIT && d >= 1
    ensures QuotasDefined(None, LevelLengthsOf(n), d)
  {
    LevelGeometry(n);
    forall i | 0 <= i < |LevelLengthsOf(n)| ensures LevelLengthsOf(n)[i] < USIZE_LIMIT {
      ElementsBelowSum(LevelLengthsOf(n), i);
    }
  }

  lemma RawCoversAll(lengths: seq<nat>, d: nat)
    requires QuotasDefined(None, lengths, d) && |lengths| >= 1
    requires Sum(lengths) < USIZE_LIMIT && lengths[|lengths| - 1] <= 2
    ensures RawTotal(None, lengths, d) >= Sum(lengths) - HalfReserved(Sum(lengths), d)
  {
    var rest := lengths[1..];
    if rest != [] {
      assert rest[|rest| - 1] == lengths[|lengths| - 1];
    }
    RawCovers(lengths[0], rest, d);
  }

  /** The batch quotas number one per level and sum to exactly `n - floor(delta * n)`. */
  lemma QuotasSpendBudget(n: nat, d: nat, budget: nat)
    requires 2 <= n < USIZE_LIMIT && d >= 1 && budget == n - FloorDivPow2(n, d)
    ensures QuotasDefined(None, LevelLengthsOf(n), d)
    ensures var q := Quotas(None, LevelLengthsOf(n), budget, d);
            |q| == CeilLog2(n) && Sum(q) == budget
  {
    var l := LevelLengthsOf(n);
    LevelGeometry(n);
    LengthsAreDefined(n, d);
    RawCoversAll(l, d);
    HalfReservedLess(n, d);
    QuotasSum(None, l, budget, d);
  }

  lemma HalfReservedLess(n: nat, d: nat)
    requires n < USIZE_LIMIT
    ensures HalfReserved(n, d) <= FloorDivPow2(n, d)
  {
    ShortcutsAreExact(n, d);
    ShortcutsAreExact(n, d + 1);
    Pow2Grows(d, d + 1);
    QuotientShrinks(n, Pow2(d), Pow2(d + 1));
  }

  class BatchQuotas {
    const levels: LevelLengths
    var previousLevel: Option<nat>
    var remainingInsertions: nat
    const d: nat

    constructor (slots: nat, levelCount: nat, budget: nat, d: nat)
      ensures fresh(levels) && levels.remainingSlots == slots && levels.remainingLevels == levelCount
      ensures previousLevel == None && remainingInsertions == budget && this.d == d
    {
      levels := new LevelLengths(slots, levelCount);
      previousLevel := None;
      remainingInsertions := budget;
      this.d := d;
    }

    ghost predicate Defined()
      reads this, levels
    {
      QuotasDefined(previousLevel, levels.Pending(), d)
    }

    ghost function Pending(): seq<nat>
      reads this, levels
      requires Defined()
    {
      Quotas(previousLevel, levels.Pending(), remainingInsertions, d)
    }

    method Next() returns (r: Option<nat>)
      requires Defined()
      modifies this, levels
      ensures Defined()
      ensures old(Pending()) == [] ==> r.None? && Pending() == []
      ensures old(Pending()) != [] ==> r == Some(old(Pending())[0]) && Pending() == old(Pending())[1..]
    {
      var level := levels.Next();
      if level.None? {
        return None;
      }
      RawQuotaNonNegative(previousLevel, level.value, d);
      var rawQuota: nat := match previousLevel
        case Some(p) => p - HalfReserved(p, d) - CeilThreeQuarters(p) + CeilThreeQuarters(level.value)
        case None => CeilThreeQuarters(level.value);
      previousLevel := level;
      var quota := if rawQuota <= remainingInsertions then rawQuota else remainingInsertions;
      remainingInsertions := remainingInsertions - quota;
      return Some(quota);
    }
  }
}
