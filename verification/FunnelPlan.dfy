/** Funnel table geometry: the exact plan for a slot count, the shape laid out from it, and the
    least slot count that holds a requested number of entries. */
module FunnelPlan {
  import opened Arith
  import opened Wrappers
  import opened BucketCounts
  import opened SpecialLayout
  import opened Capacity

  // ---- The plan ----

  function Alpha(d: nat): nat { 4 * d + 10 }

  function Beta(d: nat): nat { 2 * d }

  /** Slots of the smallest ordinary area: one bucket on every level. */
  function LeastMain(d: nat): nat { Times(Alpha(d), Beta(d)) }

  function SpecialLower(n: nat, d: nat): nat { CeilDivPow2(n, d + 1) }

  function SpecialUpper(n: nat, d: nat): nat { FloorThreeDivPow2(n, d + 2) }

  function FallbackWidth(n: nat): (r: nat)
    ensures r >= 2
  {
    2 * LogLogCeiling(n)
  }

  predicate CompatibleSpecial(n: nat, d: nat, special: nat)
    requires d >= 1
  {
    Compatible(n, SpecialLower(n, d), SpecialUpper(n, d), Alpha(d), Beta(d), FallbackWidth(n), special)
  }

  /** `loglog` is `max(1, ceil(log2(ceil(log2(n)))))`: the least positive number whose double power reaches
      `n`. */
  ghost predicate IsLogLog(n: nat, loglog: nat)
  {
    loglog >= 1 && n <= Pow2(Pow2(loglog)) && (loglog > 1 ==> n > Pow2(Pow2(loglog - 1)))
  }

  /** `slots` slots are whole buckets of `width`, at least `least` of them. */
  ghost predicate Whole(slots: int, width: nat, least: nat)
  {
    exists buckets: nat :: buckets >= least && slots == width * buckets
  }

  /** `special` slots lie between `n / 2^(d+1)` and `3n / 2^(d+2)`, leave at least `4d + 10` ordinary buckets of
      `2d` slots and nothing over, and halve into whole fallback buckets of twice the iterated logarithm. */
  ghost predicate PaperSpecial(n: nat, d: nat, special: nat)
  {
    && n <= special * Pow2(d + 1) && special * Pow2(d + 2) <= 3 * n
    && Whole(n - special, 2 * d, 4 * d + 10)
    && exists loglog: nat :: IsLogLog(n, loglog) && Whole(special / 2, 2 * loglog, 1)
  }

  /** The paper's finite layout exists for `n` slots. */
  ghost predicate Plannable(n: nat, d: nat)
  {
    n >= 2 && d >= 3 && exists special: nat :: PaperSpecial(n, d, special)
  }

  lemma LogLogIs(n: nat, loglog: nat)
    requires n >= 2
    ensures IsLogLog(n, loglog) <==> loglog == LogLogCeiling(n)
  {
    hide CeilLog2;
    CeilLog2IsLeast(n, 0);
    var log, least := CeilLog2(n), LogLogCeiling(n);
    forall l: nat ensures n <= Pow2(Pow2(l)) <==> CeilLog2(log) <= l {
      CeilLog2IsLeast(n, Pow2(l));
      CeilLog2IsLeast(log, l);
    }
  }

  /** Both ends of the interval, as the source divides for them, bound exactly the paper's lengths. */
  lemma IntervalIs(n: nat, d: nat, special: nat)
    requires n < USIZE_LIMIT
    ensures SpecialLower(n, d) <= special <==> n <= special * Pow2(d + 1)
    ensures special <= SpecialUpper(n, d) <==> special * Pow2(d + 2) <= 3 * n
  {
    hide Pow2;
    ShortcutsAreExact(n, d + 1);
    ShortcutsAreExact(n, d + 2);
    CeilDivAtMost(n, Pow2(d + 1), special);
    QuotientAtLeast(3 * n, Pow2(d + 2), special);
  }

  /** Whole buckets are a quotient without remainder. */
  lemma WholeIs(slots: int, width: nat, least: nat)
    requires width > 0
    ensures Whole(slots, width, least) <==> slots % width == 0 && slots / width >= least
  {
    if slots % width == 0 && slots / width >= least {
      assert slots == width * (slots / width);
    }
    if Whole(slots, width, least) {
      var k: nat :| k >= least && slots == width * k;
      QuotientIs(slots, width, k, 0);
    }
  }

  /** The lengths the search accepts are exactly the paper's. */
  lemma CompatibleIsPaper(n: nat, d: nat, special: nat)
    requires 2 <= n < USIZE_LIMIT && d >= 3
    ensures CompatibleSpecial(n, d, special) <==> PaperSpecial(n, d, special)
  {
    hide Pow2, SpecialLower, SpecialUpper, IsLogLog, LogLogCeiling, Whole;
    var loglog, width := LogLogCeiling(n), FallbackWidth(n);
    IntervalIs(n, d, special);
    LogLogIs(n, loglog);
    WholeIs(special / 2, width, 1);
    QuotientAtLeast(special / 2, width, 1);
    WholeIs(n - special, 2 * d, 4 * d + 10);
    QuotientAtLeast(n - special, 2 * d, 4 * d + 10);
    if PaperSpecial(n, d, special) {
      var l: nat :| IsLogLog(n, l) && Whole(special / 2, 2 * l, 1);
      LogLogIs(n, l);
    }
  }

  /** A slot count has a layout iff the search accepts some length. */
  lemma PlannableIs(n: nat, d: nat)
    requires n < USIZE_LIMIT
    ensures Plannable(n, d) <==> n >= 2 && d >= 3 && exists special: nat :: CompatibleSpecial(n, d, special)
  {
    hide CompatibleSpecial, PaperSpecial;
    if n >= 2 && d >= 3 {
      forall special: nat ensures CompatibleSpecial(n, d, special) <==> PaperSpecial(n, d, special) {
        CompatibleIsPaper(n, d, special);
      }
    }
  }

  /** A plan in the paper's numbers: the largest special length, and the widths and counts it goes with. */
  ghost predicate PlanInNumbers(n: nat, d: nat, plan: Plan)
  {
    && plan.alpha == 4 * d + 10 && plan.beta == 2 * d && IsLogLog(n, plan.loglog) && plan.width == 2 * plan.loglog
    && PaperSpecial(n, d, plan.special)
    && forall special: nat :: PaperSpecial(n, d, special) ==> special <= plan.special
  }

  lemma PlanNumbers(n: nat, d: nat, plan: Plan)
    requires n < USIZE_LIMIT && IsPlan(n, d, plan)
    ensures PlanInNumbers(n, d, plan)
  {
    hide PaperSpecial, NearestFirst, IsLogLog, LogLogCeiling, Compatible;
    LogLogIs(n, plan.loglog);
    forall special: nat ensures CompatibleSpecial(n, d, special) <==> PaperSpecial(n, d, special) {
      CompatibleIsPaper(n, d, special);
    }
    assert CompatibleSpecial(n, d, plan.special);
    forall special: nat | PaperSpecial(n, d, special) ensures special <= plan.special {
      assert CompatibleSpecial(n, d, special);
    }
  }

  datatype Plan = Plan(alpha: nat, beta: nat, loglog: nat, width: nat, special: nat, first: nat)

  datatype PlanError = NTooSmall | ExponentZero | ExponentBelowMinimum | NoCompatibleSpecialLayout

  ghost predicate IsPlan(n: nat, d: nat, plan: Plan)
  {
    && n >= 2 && d >= 3
    && plan.alpha == Alpha(d) && plan.beta == Beta(d)
    && plan.loglog == LogLogCeiling(n) && plan.width == FallbackWidth(n)
    && LargestLayout(n, SpecialLower(n, d), SpecialUpper(n, d), Alpha(d), Beta(d), FallbackWidth(n), plan.special)
    && NearestFirst((n - plan.special) / plan.beta, plan.alpha, plan.first)
  }

  method MakePlan(n: nat, d: nat) returns (r: Result<Plan, PlanError>)
    requires n < USIZE_LIMIT && d < U32_LIMIT
    ensures r.Ok? <==> Plannable(n, d)
    ensures r.Ok? ==> IsPlan(n, d, r.value) && PlanInNumbers(n, d, r.value)
    ensures r.Err? && r.error.NTooSmall? <==> n < 2
    ensures r.Err? && r.error.ExponentZero? <==> n >= 2 && d == 0
    ensures r.Err? && r.error.ExponentBelowMinimum? <==> n >= 2 && 1 <= d < 3
  {
    hide CompatibleSpecial, LogLogCeiling, NearestFirst, LargestLayout, Compatible, Plannable, IsPlan, PlanInNumbers;
    if n < 2 {
      NotPlannable(n, d);
      return Err(NTooSmall);
    }
    if d == 0 {
      NotPlannable(n, d);
      return Err(ExponentZero);
    }
    if d < 3 {
      NotPlannable(n, d);
      return Err(ExponentBelowMinimum);
    }
    LogLogMonotone(n, USIZE_LIMIT);
    LogLogOfLimit();
    var loglog := LogLogCeiling(n);
    var layout := LargestCompatibleSpecialLayout(n, SpecialLower(n, d), SpecialUpper(n, d), Alpha(d), Beta(d),
                                                 FallbackWidth(n));
    if layout.None? {
      NotPlannable(n, d);
      return Err(NoCompatibleSpecialLayout);
    }
    LayoutIsPlan(n, d, layout.value.0, layout.value.1);
    PlanNumbers(n, d, Plan(Alpha(d), Beta(d), loglog, FallbackWidth(n), layout.value.0, layout.value.1));
    return Ok(Plan(Alpha(d), Beta(d), loglog, FallbackWidth(n), layout.value.0, layout.value.1));
  }

  lemma NotPlannable(n: nat, d: nat)
    requires n < USIZE_LIMIT
    ensures n < 2 || d < 3 ==> !Plannable(n, d)
    ensures n >= 2 && d >= 3 && (forall special: nat ::
                                   !Compatible(n, SpecialLower(n, d), SpecialUpper(n, d), Alpha(d), Beta(d),
                                               FallbackWidth(n), special))
            ==> !Plannable(n, d)
  {
    hide Compatible, PaperSpecial;
    PlannableIs(n, d);
  }

  lemma LayoutIsPlan(n: nat, d: nat, special: nat, first: nat)
    requires 2 <= n < USIZE_LIMIT && d >= 3
    requires LargestLayout(n, SpecialLower(n, d), SpecialUpper(n, d), Alpha(d), Beta(d), FallbackWidth(n), special)
    requires NearestFirst((n - special) / Beta(d), Alpha(d), first)
    ensures Plannable(n, d) && IsPlan(n, d, Plan(Alpha(d), Beta(d), LogLogCeiling(n), FallbackWidth(n), special, first))
  {
    hide LogLogCeiling, NearestFirst, Plannable;
    assert CompatibleSpecial(n, d, special);
    PlannableIs(n, d);
  }

  lemma LogLogOfLimit()
    ensures LogLogCeiling(USIZE_LIMIT) == 6
  {
    hide CeilLog2;
    LogOfLimit();
    LogOf64();
  }

  lemma LogOfLimit()
    ensures CeilLog2(USIZE_LIMIT) == 64
  {
    hide CeilLog2, Pow2;
    Pow2Of64();
    HalfOfLimit();
    CeilLog2IsLeast(USIZE_LIMIT, 64);
    CeilLog2IsLeast(USIZE_LIMIT, 63);
  }

  lemma LogOf64()
    ensures CeilLog2(64) == 6
  {
    hide CeilLog2;
    assert Pow2(5) == 32 && Pow2(6) == 64;
    CeilLog2IsLeast(64, 6);
    CeilLog2IsLeast(64, 5);
  }

  // ---- The least slot count whose special array can hold two fallback buckets ----

  /** Least `n` for which `floor(3n / 2^(d+2))` reaches two buckets of the width `at` needs. */
  function Required(at: nat, d: nat): nat
  {
    CeilDiv(4 * LogLogCeiling(at) * Pow2(d + 2), 3)
  }

  lemma RequiredMonotone(a: nat, b: nat, d: nat)
    requires a <= b
    ensures Required(a, d) <= Required(b, d)
  {
    LogLogMonotone(a, b);
    MulAtMost(Pow2(d + 2), 4 * LogLogCeiling(a), 4 * LogLogCeiling(b));
    CeilDivAtMost(4 * LogLogCeiling(a) * Pow2(d + 2), 3, Required(b, d));
    CeilDivAtMost(4 * LogLogCeiling(b) * Pow2(d + 2), 3, Required(b, d));
  }

  /** Meeting the requirement is necessary for a plan, because the special array holds at least
      two fallback buckets. */
  lemma PlannableMeetsRequired(n: nat, d: nat)
    requires n < USIZE_LIMIT && Plannable(n, d)
    ensures Required(n, d) <= n
    ensures n >= LeastMain(d) + 2
  {
    hide Plannable;
    PlannableIs(n, d);
    var special: nat :| CompatibleSpecial(n, d, special);
    SpecialHoldsTwoBuckets(n, d, special);
    SpecialFitsCeiling(n, d, special, 4 * LogLogCeiling(n));
  }

  lemma SpecialHoldsTwoBuckets(n: nat, d: nat, special: nat)
    requires d >= 3 && CompatibleSpecial(n, d, special)
    ensures special >= 4 * LogLogCeiling(n) && special <= SpecialUpper(n, d)
    ensures n >= LeastMain(d) + special
  {
    QuotientAtLeast(n - special, Beta(d), Alpha(d));
    TimesIsProduct(Alpha(d), Beta(d));
    assert Beta(d) * Alpha(d) == Alpha(d) * Beta(d);
  }

  lemma SpecialFitsCeiling(n: nat, d: nat, special: nat, least: nat)
    requires n < USIZE_LIMIT && least <= special <= SpecialUpper(n, d)
    ensures CeilDiv(least * Pow2(d + 2), 3) <= n
  {
    ShortcutsAreExact(n, d + 2);
    CeilingArithmetic(n, Pow2(d + 2), special, least);
  }

  lemma CeilingArithmetic(n: nat, p: nat, special: nat, least: nat)
    requires p >= 1 && least <= special <= 3 * n / p
    ensures CeilDiv(least * p, 3) <= n
  {
    QuotientAtLeast(3 * n, p, special);
    MulAtMost(p, least, special);
    assert least * p == p * least;
    CeilDivAtMost(least * p, 3, n);
  }

  /** The least fixed point at or above `from`; `None` when no representable count has one. */
  method FunnelMinimumSlots(d: nat, from: nat) returns (r: Option<nat>)
    requires from < USIZE_LIMIT && d < U32_LIMIT
    ensures r.Some? ==> from <= r.value < USIZE_LIMIT && Required(r.value, d) <= r.value
                        && forall m: nat :: from <= m && Required(m, d) <= m ==> r.value <= m
    ensures r.None? ==> forall m: nat :: from <= m < USIZE_LIMIT ==> Required(m, d) > m
  {
    var n := from;
    while true
      invariant from <= n < USIZE_LIMIT
      invariant forall m: nat :: from <= m && Required(m, d) <= m ==> n <= m
      decreases USIZE_LIMIT - n
    {
      forall m: nat | from <= m && Required(m, d) <= m ensures Required(n, d) <= m {
        RequiredMonotone(n, m, d);
      }
      if d + 2 >= U32_LIMIT || d + 2 >= 128 {
        RequiredHuge(n, d);
        return None;
      }
      var product := 4 * LogLogCeiling(n) * Pow2(d + 2);
      if product >= U128_LIMIT {
        CeilDivAtMost(product, 3, USIZE_LIMIT);
        return None;
      }
      var required := CeilDiv(product, 3);
      if required >= USIZE_LIMIT {
        return None;
      }
      if required <= n {
        return Some(n);
      }
      n := required;
    }
  }

  lemma RequiredHuge(n: nat, d: nat)
    requires d + 2 >= 128
    ensures Required(n, d) >= USIZE_LIMIT
  {
    FourTimesLimit(d + 2);
    MulAtMost(Pow2(d + 2), 4, 4 * LogLogCeiling(n));
    CeilDivAtMost(4 * LogLogCeiling(n) * Pow2(d + 2), 3, USIZE_LIMIT);
  }

  // ---- The laid-out shape ----

  datatype LevelShape = LevelShape(offset: nat, buckets: nat)

  /** Where every bucket of one Funnel table lives. */
  datatype FunnelShape = FunnelShape(
    n: nat, maxInsertions: nat, levels: seq<LevelShape>, beta: nat, loglog: nat,
    primaryOffset: nat, primaryLen: nat,
    fallbackOffset: nat, fallbackWidth: nat, fallbackBuckets: nat)

  const EMPTY_SHAPE := FunnelShape(0, 0, [], 0, 0, 0, 0, 0, 0, 0)

  /** Ordinary levels tile the front of the table in order, the primary array follows, and whole
      fallback buckets fill the rest. */
  ghost predicate ValidShape(s: FunnelShape)
  {
    if s.n == 0 then s == EMPTY_SHAPE
    else
      && s.maxInsertions <= s.n < USIZE_LIMIT
      && |s.levels| >= 16 && s.beta >= 1 && 1 <= s.loglog < 256
      && TiledLevels(s.levels, s.beta, s.primaryOffset)
      && s.primaryLen >= 1 && s.fallbackOffset == s.primaryOffset + s.primaryLen
      && s.fallbackWidth == 2 * s.loglog && s.fallbackBuckets >= 1
      && s.n == s.fallbackOffset + Times(s.fallbackBuckets, s.fallbackWidth)
  }

  /** Levels are non-empty and contiguous from slot zero to `end`. */
  ghost predicate TiledLevels(levels: seq<LevelShape>, beta: nat, end: nat)
  {
    && (forall i :: 0 <= i < |levels| ==> levels[i].buckets >= 1)
    && (forall i {:trigger LevelEnd(levels, i, end)} :: 0 <= i < |levels| ==>
          levels[i].offset + Times(levels[i].buckets, beta) == LevelEnd(levels, i, end))
    && (if |levels| == 0 then end == 0 else levels[0].offset == 0)
  }

  function LevelEnd(levels: seq<LevelShape>, i: nat, end: nat): nat
    requires i < |levels|
  {
    if i + 1 < |levels| then levels[i + 1].offset else end
  }

  /** Appending the next level where the last one ended keeps the tiling. */
  lemma TileAppend(levels: seq<LevelShape>, beta: nat, end: nat, buckets: nat)
    requires TiledLevels(levels, beta, end) && buckets >= 1
    ensures TiledLevels(levels + [LevelShape(end, buckets)], beta, end + Times(buckets, beta))
  {
    var more, stop := levels + [LevelShape(end, buckets)], end + Times(buckets, beta);
    forall i | 0 <= i < |more| ensures more[i].offset + Times(more[i].buckets, beta) == LevelEnd(more, i, stop) {
      if i < |levels| {
        assert levels[i].offset + Times(levels[i].buckets, beta) == LevelEnd(levels, i, end);
      }
    }
  }

  /** The levels carry exactly the greedy counts of the plan's first count. */
  ghost predicate CountsOf(levels: seq<LevelShape>, counts: seq<nat>)
  {
    |levels| == |counts| && forall i :: 0 <= i < |levels| ==> levels[i].buckets == counts[i]
  }

  ghost predicate LaidOut(n: nat, d: nat, s: FunnelShape)
  {
    && ValidShape(s) && s.n == n
    && (n > 0 ==> s.maxInsertions == MaxInsertions(n, d) && exists plan :: IsPlan(n, d, plan) && FollowsPlan(s, plan))
  }

  ghost predicate FollowsPlan(s: FunnelShape, plan: Plan)
  {
    && s.beta == plan.beta > 0 && s.loglog == plan.loglog
    && s.primaryLen == plan.special / 2 + plan.special % 2
    && plan.special <= s.n && plan.alpha >= 1
    && LevelsFollow(s.levels, plan.first, plan.alpha, (s.n - plan.special) / plan.beta)
  }

  ghost predicate LevelsFollow(levels: seq<LevelShape>, first: nat, alpha: nat, total: nat)
    requires alpha >= 1
  {
    Feasible(first, alpha, total) && CountsOf(levels, Greedy(first, alpha, total))
  }

  lemma NoTiles(beta: nat)
    ensures TiledLevels([], beta, 0)
  {
  }

  lemma GreedyFacts(first: nat, alpha: nat, total: nat)
    requires alpha >= 1 && Feasible(first, alpha, total)
    ensures var p := Greedy(first, alpha, total);
            |p| == alpha && Sum(p) == total && first >= 1 && forall i :: 0 <= i < |p| ==> p[i] >= 1
  {
    GreedyIsPath(first, alpha, total);
  }

  /** Lays out the ordinary levels; the counts use up the main slots exactly, so none of the
      source's overflow errors can occur. */
  method LayLevels(first: nat, alpha: nat, beta: nat, total: nat) returns (levels: seq<LevelShape>, offset: nat)
    requires total < USIZE_LIMIT && alpha >= 1 && Feasible(first, alpha, total)
    ensures offset == Times(total, beta) && TiledLevels(levels, beta, offset)
    ensures LevelsFollow(levels, first, alpha, total) && |levels| == alpha
  {
    hide Greedy, Feasible, TiledLevels, Path;
    ghost var all := Greedy(first, alpha, total);
    GreedyFacts(first, alpha, total);
    var counts := new FunnelBucketCounts(first, total, alpha);
    levels, offset := [], 0;
    NoTiles(beta);
    while counts.nextCount.Some?
      invariant |levels| <= |all|
      invariant counts.nextCount.Some? ==> counts.OnTrack() && counts.nextCount.value >= 1
      invariant counts.Pending() == all[|levels|..]
      invariant counts.remainingLevels == |all| - |levels| && counts.remainingSum < USIZE_LIMIT
      invariant counts.nextCount.None? ==> counts.remainingLevels == 0
      invariant TiledLevels(levels, beta, offset)
      invariant forall i :: 0 <= i < |levels| ==> levels[i].buckets == all[i]
      modifies counts
      decreases counts.remainingLevels
    {
      var count := counts.Next();
      assert count.value == all[|levels|];
      TileAppend(levels, beta, offset, count.value);
      levels := levels + [LevelShape(offset, count.value)];
      offset := offset + Times(count.value, beta);
    }
    TiledEnd(levels, beta, offset, all);
  }

  lemma WholeMain(slots: nat, width: nat)
    requires width > 0 && slots % width == 0
    ensures Times(slots / width, width) == slots
  {
    TimesIsProduct(slots / width, width);
  }

  /** Tiled levels end where their bucket counts say they do. */
  lemma {:induction false} TiledEnd(levels: seq<LevelShape>, beta: nat, end: nat, counts: seq<nat>)
    requires TiledLevels(levels, beta, end) && CountsOf(levels, counts)
    ensures end == Times(Sum(counts), beta)
    decreases |levels|
  {
    if |levels| > 0 {
      hide Times, TiledLevels;
      var k := |levels| - 1;
      DropLastTile(levels, beta, end);
      TiledEnd(levels[..k], beta, levels[k].offset, counts[..k]);
      SumSnoc(counts[..k], counts[k]);
      assert counts == counts[..k] + [counts[k]];
      TimesAdds(Sum(counts[..k]), counts[k], beta);
    }
  }

  lemma DropLastTile(levels: seq<LevelShape>, beta: nat, end: nat)
    requires TiledLevels(levels, beta, end) && |levels| > 0
    ensures var k := |levels| - 1;
            TiledLevels(levels[..k], beta, levels[k].offset)
            && end == levels[k].offset + Times(levels[k].buckets, beta)
  {
    var k := |levels| - 1;
    var init, stop := levels[..k], levels[k].offset;
    forall i | 0 <= i < k ensures init[i].offset + Times(init[i].buckets, beta) == LevelEnd(init, i, stop) {
      assert levels[i].offset + Times(levels[i].buckets, beta) == LevelEnd(levels, i, end);
    }
    assert levels[k].offset + Times(levels[k].buckets, beta) == LevelEnd(levels, k, end);
  }

  /** What a plan hands to the layout: a feasible total that spans the main slots, and a
      fallback half of whole buckets. */
  lemma PlanTiles(n: nat, d: nat, plan: Plan)
    requires n < USIZE_LIMIT && IsPlan(n, d, plan)
    ensures plan.special <= n && plan.beta > 0 && plan.width > 0 && plan.alpha >= 22 && plan.special >= 4
    ensures var total := (n - plan.special) / plan.beta;
            Feasible(plan.first, plan.alpha, total) && Times(total, plan.beta) == n - plan.special
              && total < USIZE_LIMIT
    ensures var buckets := plan.special / 2 / plan.width;
            buckets >= 1 && Times(buckets, plan.width) == plan.special / 2
    ensures 1 <= plan.loglog < 256 && plan.width == 2 * plan.loglog
  {
    hide Compatible, Feasible, LogLogCeiling, SpecialLower, SpecialUpper;
    LogLogMonotone(n, USIZE_LIMIT);
    LogLogOfLimit();
    CompatibleTiles(n, plan.alpha, plan.beta, plan.width, plan.special,
                    SpecialLower(n, d), SpecialUpper(n, d));
  }

  lemma CompatibleTiles(n: nat, alpha: nat, beta: nat, width: nat, special: nat, lower: nat, upper: nat)
    requires n < USIZE_LIMIT && beta > 0 && width >= 2 && Compatible(n, lower, upper, alpha, beta, width, special)
    ensures special <= n && special >= 4
    ensures var total := (n - special) / beta; Times(total, beta) == n - special && total < USIZE_LIMIT
    ensures var buckets := special / 2 / width; buckets >= 1 && Times(buckets, width) == special / 2
  {
    WholeMain(n - special, beta);
    WholeBuckets(special / 2, width);
    QuotientShrinks(n - special, 1, beta);
  }

  function ShapeOf(n: nat, maxInsertions: nat, p: Plan, buckets: nat, levels: seq<LevelShape>, offset: nat): FunnelShape
  {
    var primaryLen := p.special / 2 + p.special % 2;
    FunnelShape(n, maxInsertions, levels, p.beta, p.loglog, offset, primaryLen, offset + primaryLen, p.width, buckets)
  }

  lemma ShapeIsValid(n: nat, m: nat, p: Plan, buckets: nat, levels: seq<LevelShape>, offset: nat)
    requires m <= n && 2 <= n < USIZE_LIMIT && p.beta > 0
    requires TiledLevels(levels, p.beta, offset) && |levels| >= 22 && p.special >= 4 && offset == n - p.special
    requires Times(buckets, p.width) == p.special / 2 && buckets >= 1 && 1 <= p.loglog < 256 && p.width == 2 * p.loglog
    ensures ValidShape(ShapeOf(n, m, p, buckets, levels, offset))
  {
  }

  lemma ShapeIsLaidOut(n: nat, d: nat, p: Plan, total: nat, buckets: nat, levels: seq<LevelShape>, offset: nat)
    requires 2 <= n < USIZE_LIMIT && IsPlan(n, d, p) && p.special <= n && p.beta > 0
    requires total == (n - p.special) / p.beta && p.alpha >= 22 && p.special >= 4
    requires offset == n - p.special && TiledLevels(levels, p.beta, offset) && |levels| == p.alpha
    requires LevelsFollow(levels, p.first, p.alpha, total)
    requires Times(buckets, p.width) == p.special / 2 && buckets >= 1 && 1 <= p.loglog < 256 && p.width == 2 * p.loglog
    ensures LaidOut(n, d, ShapeOf(n, MaxInsertions(n, d), p, buckets, levels, offset))
  {
    hide IsPlan, LevelsFollow, FloorDivPow2, Times, TiledLevels;
    ShapeIsValid(n, MaxInsertions(n, d), p, buckets, levels, offset);
    assert FollowsPlan(ShapeOf(n, MaxInsertions(n, d), p, buckets, levels, offset), p);
  }

  /** `from_slots`: fails exactly when the finite layout does not exist. */
  method FromSlots(n: nat, d: nat) returns (r: Option<FunnelShape>)
    requires n < USIZE_LIMIT && d < U32_LIMIT
    ensures r.Some? <==> n == 0 || Plannable(n, d)
    ensures r.Some? ==> LaidOut(n, d, r.value)
  {
    if n == 0 {
      return Some(EMPTY_SHAPE);
    }
    var plan := MakePlan(n, d);
    if plan.Err? {
      return None;
    }
    hide Plannable, IsPlan, FloorDivPow2, Times, LaidOut, LevelsFollow, Feasible;
    var p := plan.value;
    PlanTiles(n, d, p);
    var total, buckets := (n - p.special) / p.beta, p.special / 2 / p.width;
    var levels, offset := LayLevels(p.first, p.alpha, p.beta, total);
    ShapeIsLaidOut(n, d, p, total, buckets, levels, offset);
    return Some(ShapeOf(n, MaxInsertions(n, d), p, buckets, levels, offset));
  }

  lemma WholeBuckets(slots: nat, width: nat)
    requires width > 0 && slots >= width && slots % width == 0
    ensures Times(slots / width, width) == slots && slots / width >= 1
  {
    TimesIsProduct(slots / width, width);
    QuotientAtLeast(slots, width, 1);
  }

  ghost predicate Sufficient(n: nat, d: nat, requested: nat)
  {
    (n == 0 || Plannable(n, d)) && MaxInsertions(n, d) >= requested
  }

  /** The least slot count with a valid geometry and a sufficient insertion budget. Each jump
      skips only counts that fail one of the two. */
  method ForInsertBudget(requested: nat, d: nat) returns (r: Option<FunnelShape>)
    requires requested < USIZE_LIMIT && d < U32_LIMIT
    ensures r.Some? ==> LaidOut(r.value.n, d, r.value) && Sufficient(r.value.n, d, requested)
                        && forall m: nat :: Sufficient(m, d, requested) && m < USIZE_LIMIT ==> r.value.n <= m
    ensures r.None? ==> forall m: nat :: m < USIZE_LIMIT ==> !Sufficient(m, d, requested)
  {
    if requested == 0 {
      return Some(EMPTY_SHAPE);
    }
    if d < 3 || d >= 64 {
      NothingHolds(d, requested);
      return None;
    }
    var from := BudgetFloor(requested, d);
    if from.None? {
      return None;
    }
    var minimum := FixedPointFloor(requested, d, from.value);
    if minimum.None? {
      return None;
    }
    r := FirstHolding(minimum.value, d, requested);
  }

  /** First two jumps: the capacity inverse and the least ordinary area. */
  method BudgetFloor(requested: nat, d: nat) returns (r: Option<nat>)
    requires 1 <= requested < USIZE_LIMIT && 3 <= d < 64
    ensures r.Some? ==> 2 <= r.value < USIZE_LIMIT
    ensures forall m: nat :: m < USIZE_LIMIT && Sufficient(m, d, requested) ==> r.Some? && r.value <= m
  {
    var budget := ExactCapacityFor(requested, d);
    if budget.None? {
      return None;
    }
    var start := StartOf(budget.value, LeastMain(d));
    LeastMainSmall(d);
    HoldersReach(d, requested, budget.value, start);
    return Some(start);
  }

  /** Third jump: the least fixed point of the special-array bound. */
  method FixedPointFloor(requested: nat, d: nat, from: nat) returns (r: Option<nat>)
    requires 1 <= requested < USIZE_LIMIT && 3 <= d < 64 && 2 <= from < USIZE_LIMIT
    requires forall m: nat :: m < USIZE_LIMIT && Sufficient(m, d, requested) ==> from <= m
    ensures r.Some? ==> 2 <= r.value < USIZE_LIMIT
    ensures forall m: nat :: m < USIZE_LIMIT && Sufficient(m, d, requested) ==> r.Some? && r.value <= m
  {
    forall m: nat | m < USIZE_LIMIT && Sufficient(m, d, requested) ensures Required(m, d) <= m {
      PlannableMeetsRequired(m, d);
    }
    r := FunnelMinimumSlots(d, from);
  }

  /** The larger of the capacity inverse, two slots, and two more than the least ordinary area. */
  function StartOf(budget: nat, leastMain: nat): nat
  {
    var n := if budget >= 2 then budget else 2;
    if n >= leastMain + 2 then n else leastMain + 2
  }

  lemma HoldersReach(d: nat, requested: nat, budget: nat, start: nat)
    requires requested >= 1 && start == StartOf(budget, LeastMain(d))
    requires forall n: nat :: n < USIZE_LIMIT ==> (MaxInsertions(n, d) >= requested <==> n >= budget)
    ensures forall m: nat :: m < USIZE_LIMIT && Sufficient(m, d, requested) ==> start <= m
  {
    forall m: nat | m < USIZE_LIMIT && Sufficient(m, d, requested)
      ensures start <= m
    {
      PlannableMeetsRequired(m, d);
    }
  }

  lemma NothingHolds(d: nat, requested: nat)
    requires requested >= 1 && (d < 3 || d >= 64)
    ensures forall m: nat :: m < USIZE_LIMIT ==> !Sufficient(m, d, requested)
  {
    forall m: nat | m < USIZE_LIMIT ensures !Sufficient(m, d, requested) {
      if d >= 64 && Plannable(m, d) { NothingFitsWide(m, d); }
    }
  }

  lemma LeastMainSmall(d: nat)
    requires d < 64
    ensures LeastMain(d) < 0x1_0000
  {
    TimesIsProduct(Alpha(d), Beta(d));
    MulAtMost(Alpha(d), Beta(d), 126);
  }

  /** The closing loop of the budget search. */
  method FirstHolding(from: nat, d: nat, requested: nat) returns (r: Option<FunnelShape>)
    requires 2 <= from < USIZE_LIMIT && d < U32_LIMIT
    requires forall m: nat :: m < USIZE_LIMIT && Sufficient(m, d, requested) ==> from <= m
    ensures r.Some? ==> LaidOut(r.value.n, d, r.value) && Sufficient(r.value.n, d, requested)
                        && forall m: nat :: Sufficient(m, d, requested) && m < USIZE_LIMIT ==> r.value.n <= m
    ensures r.None? ==> forall m: nat :: m < USIZE_LIMIT ==> !Sufficient(m, d, requested)
  {
    var n := from;
    while true
      invariant 2 <= n < USIZE_LIMIT
      invariant forall m: nat :: m < USIZE_LIMIT && Sufficient(m, d, requested) ==> n <= m
      decreases USIZE_LIMIT - n
    {
      var shape := FromSlots(n, d);
      if shape.Some? && shape.value.maxInsertions >= requested {
        return shape;
      }
      assert !Sufficient(n, d, requested);
      if n + 1 >= USIZE_LIMIT {
        return None;
      }
      n := n + 1;
    }
  }

  /** Past 64 bits of reserve the special interval of a `usize` is empty. */
  lemma NothingFitsWide(n: nat, d: nat)
    requires n < USIZE_LIMIT && d >= 64
    ensures !Plannable(n, d)
  {
    hide Plannable;
    PlannableIs(n, d);
    if Plannable(n, d) {
      var special: nat :| CompatibleSpecial(n, d, special);
      SpecialHoldsTwoBuckets(n, d, special);
      ShortcutsAreExact(n, d + 2);
      FourTimesLimit(d + 2);
      QuotientIs(3 * n, Pow2(d + 2), 0, 3 * n);
    }
  }
}
