/** Ordinary Funnel bucket counts: a total is split over the levels so that each count is
    about three quarters of the previous one. Feasibility is decided by two path-sum oracles,
    the first count by two binary searches, and the rest greedily. */
module BucketCounts {
  import opened Arith
  import opened Wrappers

  // ---- The adjacency rule ----

  /** `next = 3 * current / 4 +/- 1` over the reals, in exact integers. */
  predicate Step(current: nat, next: nat)
  {
    1 <= next <= current && -4 <= 4 * next - 3 * current <= 4
  }

  function MinNext(current: nat): (r: nat)
    requires current >= 1
  {
    var minimum := CeilThreeQuarters(current) - 1;
    if minimum == 0 then 1 else minimum
  }

  function MaxNext(current: nat): nat
  {
    var ceilQuarter := current / 4 + (if current % 4 == 0 then 0 else 1);
    var maximum := current - ceilQuarter + 1;
    if maximum > current then current else maximum
  }

  /** The two closed forms bound exactly the counts the rule allows. */
  lemma StepIsRange(current: nat, next: nat)
    requires current >= 1
    ensures Step(current, next) <==> MinNext(current) <= next <= MaxNext(current)
    ensures 1 <= MinNext(current) <= MaxNext(current) <= current
  {
  }

  // ---- Paths and their sums ----

  ghost predicate Path(p: seq<nat>)
  {
    && (|p| > 0 ==> p[0] >= 1)
    && forall i, j :: 0 <= i < j < |p| && j == i + 1 ==> Step(p[i], p[j])
  }

  function Sum(p: seq<nat>): nat
  {
    if p == [] then 0 else p[0] + Sum(p[1..])
  }

  lemma {:induction false} SumSnoc(p: seq<nat>, last: nat)
    ensures Sum(p + [last]) == Sum(p) + last
  {
    if p == [] {
      assert (p + [last])[1..] == [];
    } else {
      assert (p + [last])[1..] == p[1..] + [last];
      SumSnoc(p[1..], last);
    }
  }

  function MinSum(current: nat, levels: nat): nat
    requires current >= 1
    decreases levels
  {
    if levels == 0 then 0 else current + MinSum(MinNext(current), levels - 1)
  }

  function MaxSum(current: nat, levels: nat): nat
    decreases levels
  {
    if levels == 0 then 0 else current + MaxSum(MaxNext(current), levels - 1)
  }

  /** Some path of `levels` counts that starts at `first` sums to `total`. */
  predicate Feasible(first: nat, levels: nat, total: nat)
  {
    first >= 1 && MinSum(first, levels) <= total <= MaxSum(first, levels)
  }

  lemma {:induction false} MinSumMonotone(a: nat, b: nat, levels: nat)
    requires 1 <= a <= b
    ensures MinSum(a, levels) <= MinSum(b, levels)
    decreases levels
  {
    if levels > 0 {
      MinSumMonotone(MinNext(a), MinNext(b), levels - 1);
    }
  }

  lemma {:induction false} MaxSumMonotone(a: nat, b: nat, levels: nat)
    requires a <= b
    ensures MaxSum(a, levels) <= MaxSum(b, levels)
    decreases levels
  {
    if levels > 0 {
      MaxSumMonotone(MaxNext(a), MaxNext(b), levels - 1);
    }
  }

  lemma {:induction false} MinSumBelowMax(a: nat, b: nat, levels: nat)
    requires 1 <= a <= b
    ensures MinSum(a, levels) <= MaxSum(b, levels)
    decreases levels
  {
    if levels > 0 {
      StepIsRange(a, MinNext(a));
      MinSumBelowMax(MinNext(a), MaxNext(b), levels - 1);
    }
  }

  lemma {:induction false} OnesSum(levels: nat)
    ensures MinSum(1, levels) == MaxSum(1, levels) == levels
  {
    if levels > 0 {
      OnesSum(levels - 1);
    }
  }

  /** Every level costs at least one bucket, so a path outweighs its first count. */
  lemma {:induction false} MinSumAtLeast(first: nat, levels: nat)
    requires first >= 1 && levels >= 1
    ensures MinSum(first, levels) >= first + levels - 1
    ensures MaxSum(first, levels) >= first + levels - 1
  {
    MinSumMonotone(1, MinNext(first), levels - 1);
    MaxSumMonotone(1, MaxNext(first), levels - 1);
    OnesSum(levels - 1);
  }

  /** The sum intervals of consecutive first counts leave no gap between them. */
  lemma IntervalsTouch(first: nat, levels: nat)
    requires first >= 1
    ensures MinSum(first + 1, levels) <= MaxSum(first, levels) + 1
  {
    if levels > 0 {
      var a, b := MinNext(first + 1), MaxNext(first);
      assert a <= b;
      MinSumBelowMax(a, b, levels - 1);
    }
  }

  lemma PathTail(p: seq<nat>)
    requires Path(p) && |p| > 1
    ensures Step(p[0], p[1]) && Path(p[1..])
  {
    var rest := p[1..];
    forall i, j | 0 <= i < j < |rest| && j == i + 1 ensures Step(rest[i], rest[j]) {
      assert Step(p[i + 1], p[j + 1]);
    }
  }

  lemma PathStart(p: seq<nat>)
    requires Path(p) && |p| > 0
    ensures p[0] >= 1
  {
  }

  /** Any path stays between the two extreme paths of its first count. */
  lemma {:induction false} PathSumBounds(p: seq<nat>)
    requires Path(p) && |p| > 0
    ensures Feasible(p[0], |p|, Sum(p))
  {
    hide Path, Step;
    PathStart(p);
    if |p| == 1 {
      assert p[1..] == [];
    } else {
      var rest := p[1..];
      PathTail(p);
      StepIsRange(p[0], p[1]);
      PathSumBounds(rest);
      MinSumMonotone(MinNext(p[0]), rest[0], |rest|);
      MaxSumMonotone(rest[0], MaxNext(p[0]), |rest|);
    }
  }

  // ---- Gap-free cover: from every reachable total to a feasible count ----

  /** Between two counts whose intervals bracket a total, some count is feasible for it. */
  lemma {:induction false} CoverBetween(lo: nat, hi: nat, levels: nat, total: nat) returns (first: nat)
    requires 1 <= lo <= hi
    requires MinSum(lo, levels) <= total <= MaxSum(hi, levels)
    ensures lo <= first <= hi && Feasible(first, levels, total)
    decreases hi - lo
  {
    if total <= MaxSum(lo, levels) {
      first := lo;
    } else {
      assert lo < hi;
      IntervalsTouch(lo, levels);
      first := CoverBetween(lo + 1, hi, levels, total);
    }
  }

  /** Every total with at least one bucket per level has a feasible first count, and no
      smaller total has one. */
  lemma FeasibleTotals(levels: nat, total: nat)
    requires levels >= 1
    ensures total >= levels <==> exists first :: Feasible(first, levels, total)
  {
    if total >= levels {
      OnesSum(levels);
      MinSumAtLeast(total, levels);
      var first := CoverBetween(1, total, levels, total);
    } else if exists first :: Feasible(first, levels, total) {
      var first :| Feasible(first, levels, total);
      MinSumAtLeast(first, levels);
    }
  }

  // ---- The path-sum oracles ----

  method MinimumPathSumAtMost(first: nat, levelCount: nat, target: nat) returns (r: bool)
    requires first >= 1 && target < USIZE_LIMIT
    ensures r <==> MinSum(first, levelCount) <= target
  {
    var sum: nat, current: nat, left: nat := 0, first, levelCount;
    while left > 0
      invariant left <= levelCount && current >= 1 && sum <= target
      invariant MinSum(first, levelCount) == sum + MinSum(current, left)
    {
      if sum + current >= USIZE_LIMIT || sum + current > target {
        return false;
      }
      sum := sum + current;
      current := MinNext(current);
      left := left - 1;
    }
    return true;
  }

  /** Over zero levels the source answers `false` whatever the target. */
  method MaximumPathSumAtLeast(first: nat, levelCount: nat, target: nat) returns (r: bool)
    requires target < USIZE_LIMIT
    ensures r <==> levelCount > 0 && MaxSum(first, levelCount) >= target
  {
    var sum: nat, current: nat, left: nat := 0, first, levelCount;
    while left > 0
      invariant left <= levelCount
      invariant left < levelCount ==> sum < target
      invariant MaxSum(first, levelCount) == sum + MaxSum(current, left)
    {
      if sum + current >= USIZE_LIMIT {
        return true;
      }
      sum := sum + current;
      if sum >= target {
        return true;
      }
      current := MaxNext(current);
      left := left - 1;
    }
    return false;
  }

  // ---- The greedy continuation ----

  /** The largest allowed successor from which the rest of the total is still reachable. */
  ghost predicate LargestNext(current: nat, rest: nat, levels: nat, next: nat)
  {
    && Step(current, next) && Feasible(next, levels, rest)
    && forall other: nat :: Step(current, other) && Feasible(other, levels, rest) ==> other <= next
  }

  method SelectLargestFeasibleNext(current: nat, remainingSum: nat, remainingLevels: nat)
      returns (r: Option<nat>)
    requires current >= 1 && remainingLevels >= 1 && remainingSum < USIZE_LIMIT
    ensures r.Some? ==> LargestNext(current, remainingSum, remainingLevels, r.value)
    ensures r.None? ==> forall next: nat :: Step(current, next) ==> !Feasible(next, remainingLevels, remainingSum)
  {
    var minimum, candidate := MinNext(current), MaxNext(current);
    StepIsRange(current, minimum);
    while candidate >= minimum
      invariant minimum - 1 <= candidate <= MaxNext(current)
      invariant forall other: nat :: Step(current, other) && Feasible(other, remainingLevels, remainingSum)
                  ==> other <= candidate
    {
      var atMost := MinimumPathSumAtMost(candidate, remainingLevels, remainingSum);
      var atLeast := MaximumPathSumAtLeast(candidate, remainingLevels, remainingSum);
      if atMost && atLeast {
        return Some(candidate);
      }
      forall other: nat | Step(current, other) && Feasible(other, remainingLevels, remainingSum)
        ensures other <= candidate - 1
      {
        StepIsRange(current, other);
      }
      candidate := candidate - 1;
    }
    forall next: nat | Step(current, next) ensures !Feasible(next, remainingLevels, remainingSum) {
      StepIsRange(current, next);
    }
    return None;
  }

  lemma {:induction false} LargestBelow(current: nat, rest: nat, levels: nat, some: nat) returns (next: nat)
    requires Step(current, some) && Feasible(some, levels, rest)
    ensures LargestNext(current, rest, levels, next)
    decreases current - some
  {
    next := some;
    if other: nat :| Step(current, other) && Feasible(other, levels, rest) && other > some {
      next := LargestBelow(current, rest, levels, other);
    }
  }

  /** A feasible count always has a successor feasible for what remains. */
  lemma SuccessorExists(current: nat, levels: nat, rest: nat) returns (next: nat)
    requires levels >= 1 && Feasible(current, levels + 1, current + rest)
    ensures LargestNext(current, rest, levels, next)
  {
    var lo, hi := MinNext(current), MaxNext(current);
    StepIsRange(current, lo);
    var some := CoverBetween(lo, hi, levels, rest);
    StepIsRange(current, some);
    next := LargestBelow(current, rest, levels, some);
  }

  ghost function GreedyNext(current: nat, levels: nat, rest: nat): (next: nat)
    requires levels >= 1 && Feasible(current, levels + 1, current + rest)
    ensures LargestNext(current, rest, levels, next)
  {
    assert exists next: nat :: LargestNext(current, rest, levels, next) by {
      var next := SuccessorExists(current, levels, rest);
    }
    var next: nat :| LargestNext(current, rest, levels, next);
    next
  }

  /** The counts the iterator yields from a feasible first count. */
  ghost function Greedy(first: nat, levels: nat, total: nat): seq<nat>
    requires levels >= 1 && Feasible(first, levels, total)
    decreases levels
  {
    if levels == 1 then [first]
    else [first] + Greedy(GreedyNext(first, levels - 1, total - first), levels - 1, total - first)
  }

  /** The greedy counts are exactly `levels` positive, non-increasing counts obeying the
      three-quarters rule and summing to the total. */
  lemma {:induction false} GreedyIsPath(first: nat, levels: nat, total: nat)
    requires levels >= 1 && Feasible(first, levels, total)
    ensures var p := Greedy(first, levels, total);
            |p| == levels && p[0] == first && Path(p) && Sum(p) == total
    decreases levels
  {
    var p := Greedy(first, levels, total);
    if levels == 1 {
      assert p[1..] == [];
    } else {
      hide MinSum, MaxSum;
      var next := GreedyNext(first, levels - 1, total - first);
      var rest := Greedy(next, levels - 1, total - first);
      assert p == [first] + rest && p[1..] == rest;
      GreedyIsPath(next, levels - 1, total - first);
      forall i, j | 0 <= i < j < |p| && j == i + 1 ensures Step(p[i], p[j]) {
        if i > 0 {
          assert Step(rest[i - 1], rest[j - 1]);
        }
      }
    }
  }

  /** Lexicographic order on sequences of equal length. */
  predicate LexAtMost(p: seq<nat>, q: seq<nat>)
    requires |p| == |q|
  {
    p == [] || p[0] < q[0] || (p[0] == q[0] && LexAtMost(p[1..], q[1..]))
  }

  /** Among all paths with the same first count, length and sum, the greedy one is
      lexicographically largest. */
  lemma {:induction false} GreedyIsLargest(first: nat, levels: nat, total: nat, p: seq<nat>)
    requires levels >= 1 && Feasible(first, levels, total)
    requires |p| == levels && Path(p) && p[0] == first && Sum(p) == total
    ensures |Greedy(first, levels, total)| == levels
    ensures LexAtMost(p, Greedy(first, levels, total))
    decreases levels
  {
    hide MinSum, MaxSum;
    GreedyIsPath(first, levels, total);
    if levels > 1 {
      var next, restP := GreedyNext(first, levels - 1, total - first), p[1..];
      PathTail(p);
      PathSumBounds(restP);
      GreedyIsPath(next, levels - 1, total - first);
      if restP[0] == next {
        GreedyIsLargest(next, levels - 1, total - first, restP);
      }
      assert Greedy(first, levels, total)[1..] == Greedy(next, levels - 1, total - first);
    }
  }

  lemma LargestNextUnique(current: nat, rest: nat, levels: nat, a: nat, b: nat)
    requires LargestNext(current, rest, levels, a) && LargestNext(current, rest, levels, b)
    ensures a == b
  {
  }

  /** What follows a greedy count is the greedy continuation of its largest successor. */
  lemma GreedyContinues(current: nat, levels: nat, rest: nat, next: Option<nat>)
    requires levels >= 1 && Feasible(current, levels + 1, current + rest)
    requires next.Some? ==> LargestNext(current, rest, levels, next.value)
    requires next.None? ==> forall v: nat :: Step(current, v) ==> !Feasible(v, levels, rest)
    ensures next.Some? && Feasible(next.value, levels, rest)
    ensures Greedy(current, levels + 1, current + rest) == [current] + Greedy(next.value, levels, rest)
  {
    var greedy := GreedyNext(current, levels, rest);
    LargestNextUnique(current, rest, levels, next.value, greedy);
  }

  lemma NextPositive(current: nat, rest: nat, levels: nat, next: nat)
    requires LargestNext(current, rest, levels, next)
    ensures next >= 1
  {
  }

  /** An on-track count fits the remaining sum, and uses it up on the last level. */
  lemma TrackStart(count: nat, levels: nat, sum: nat)
    requires levels >= 1 && Feasible(count, levels, sum)
    ensures count <= sum && |Greedy(count, levels, sum)| >= 1 && Greedy(count, levels, sum)[0] == count
    ensures levels == 1 ==> sum == count && Greedy(count, levels, sum)[1..] == []
  {
    MinSumAtLeast(count, levels);
    GreedyIsPath(count, levels, sum);
  }

  /** The rest of an on-track iteration is on track. */
  lemma TrackContinues(count: nat, levels: nat, sum: nat, next: Option<nat>)
    requires levels >= 2 && Feasible(count, levels, sum) && count <= sum
    requires next.Some? ==> LargestNext(count, sum - count, levels - 1, next.value)
    requires next.None? ==> forall v: nat :: Step(count, v) ==> !Feasible(v, levels - 1, sum - count)
    ensures next.Some? && Feasible(next.value, levels - 1, sum - count)
    ensures Greedy(count, levels, sum)[1..] == Greedy(next.value, levels - 1, sum - count)
  {
    hide MinSum, MaxSum, Step, Greedy, Feasible, LargestNext;
    GreedyContinues(count, levels - 1, sum - count, next);
  }

  // ---- The iterator ----

  /** Produces the ordinary bucket counts one level at a time. */
  class FunnelBucketCounts {
    var nextCount: Option<nat>
    var remainingSum: nat
    var remainingLevels: nat

    constructor (first: nat, sum: nat, levels: nat)
      ensures nextCount == Some(first) && remainingSum == sum && remainingLevels == levels
    {
      nextCount, remainingSum, remainingLevels := Some(first), sum, levels;
    }

    /** The pending count can be completed to the remaining sum. */
    ghost predicate OnTrack()
      reads this
    {
      nextCount.Some? && remainingLevels >= 1 && Feasible(nextCount.value, remainingLevels, remainingSum)
    }

    /** Everything an on-track iterator still has to yield. */
    ghost function Pending(): seq<nat>
      reads this
    {
      if OnTrack() then Greedy(nextCount.value, remainingLevels, remainingSum) else []
    }

    method Next() returns (r: Option<nat>)
      requires nextCount.Some? ==> nextCount.value >= 1
      requires remainingSum < USIZE_LIMIT
      modifies this
      ensures nextCount.Some? ==> nextCount.value >= 1
      ensures old(OnTrack()) ==>
                && r == Some(old(Pending())[0]) && Pending() == old(Pending())[1..]
                && remainingSum == old(remainingSum) - r.value
                && remainingLevels == old(remainingLevels) - 1
                && (remainingLevels == 0 ==> nextCount.None? && remainingSum == 0)
                && (remainingLevels > 0 ==> OnTrack())
      ensures old(nextCount).None? ==> r.None?
      ensures r.None? ==> nextCount.None? && remainingSum == old(remainingSum)
                          && remainingLevels == old(remainingLevels)
      ensures r.Some? <==> old(nextCount.Some? && nextCount.value <= remainingSum && remainingLevels >= 1)
      ensures r.Some? ==> r == old(nextCount)
    {
      hide MinSum, MaxSum, Step, Greedy, Feasible, LargestNext, Path;
      if nextCount.None? {
        return None;
      }
      var count := nextCount.value;
      ghost var onTrack := OnTrack();
      if onTrack {
        TrackStart(count, remainingLevels, remainingSum);
      }
      if remainingSum < count || remainingLevels == 0 {
        nextCount := None;
        return None;
      }
      var next := None;
      if remainingLevels > 1 {
        next := SelectLargestFeasibleNext(count, remainingSum - count, remainingLevels - 1);
        if next.Some? {
          NextPositive(count, remainingSum - count, remainingLevels - 1, next.value);
        }
        if onTrack {
          TrackContinues(count, remainingLevels, remainingSum, next);
        }
      }
      nextCount, remainingSum, remainingLevels := next, remainingSum - count, remainingLevels - 1;
      return Some(count);
    }
  }

  // ---- The first count ----

  function Distance(first: nat, total: nat): nat
  {
    if 4 * first >= total then 4 * first - total else total - 4 * first
  }

  /** `first` is the feasible count nearest `total / 4`, the smaller one on an exact tie. */
  ghost predicate NearestFirst(total: nat, levels: nat, first: nat)
  {
    && Feasible(first, levels, total)
    && forall other: nat :: Feasible(other, levels, total) && other != first ==>
         || Distance(first, total) < Distance(other, total)
         || (Distance(first, total) == Distance(other, total) && first < other)
  }

  /** First count whose greatest path sum reaches the target: the lower end of the feasible range. */
  method LowestFirst(maximumFirst: nat, levelCount: nat, total: nat) returns (first: nat)
    requires maximumFirst >= 1 && levelCount >= 1 && total < USIZE_LIMIT
    requires MaxSum(maximumFirst, levelCount) >= total
    ensures 1 <= first <= maximumFirst
    ensures forall c: nat :: c >= 1 ==> (MaxSum(c, levelCount) >= total <==> c >= first)
  {
    var left, right := 1, maximumFirst;
    while left < right
      invariant 1 <= left <= right <= maximumFirst
      invariant MaxSum(right, levelCount) >= total
      invariant left > 1 ==> MaxSum(left - 1, levelCount) < total
    {
      var middle := left + (right - left) / 2;
      var atLeast := MaximumPathSumAtLeast(middle, levelCount, total);
      if atLeast {
        right := middle;
      } else {
        left := middle + 1;
      }
    }
    first := left;
    forall c: nat | c >= 1 ensures MaxSum(c, levelCount) >= total <==> c >= first {
      if c >= first {
        MaxSumMonotone(first, c, levelCount);
      } else {
        MaxSumMonotone(c, first - 1, levelCount);
      }
    }
  }

  predicate AboveTotal(first: nat, levels: nat, total: nat)
  {
    first >= 1 && MinSum(first, levels) > total
  }

  /** Last count whose least path sum stays within the target: the upper end of the feasible range. */
  method HighestFirst(maximumFirst: nat, levelCount: nat, total: nat) returns (first: nat)
    requires maximumFirst >= 1 && levelCount >= 1 && total < USIZE_LIMIT
    requires MinSum(1, levelCount) <= total
    ensures 1 <= first <= maximumFirst
    ensures forall c: nat :: 1 <= c <= maximumFirst ==> (MinSum(c, levelCount) <= total <==> c <= first)
  {
    var left, right := 1, maximumFirst;
    while left < right
      invariant 1 <= left <= right <= maximumFirst
      invariant MinSum(left, levelCount) <= total
      invariant right < maximumFirst ==> AboveTotal(right + 1, levelCount, total)
    {
      var middle := left + (right - left) / 2 + 1;
      var atMost := MinimumPathSumAtMost(middle, levelCount, total);
      if atMost {
        left := middle;
      } else {
        right := middle - 1;
      }
    }
    first := left;
    MinSumCut(first, maximumFirst, levelCount, total);
  }

  lemma MinSumCut(first: nat, maximumFirst: nat, levels: nat, total: nat)
    requires 1 <= first <= maximumFirst && MinSum(first, levels) <= total
    requires first < maximumFirst ==> MinSum(first + 1, levels) > total
    ensures forall c: nat :: 1 <= c <= maximumFirst ==> (MinSum(c, levels) <= total <==> c <= first)
  {
    forall c: nat | 1 <= c <= maximumFirst ensures MinSum(c, levels) <= total <==> c <= first {
      if c <= first {
        MinSumMonotone(c, first, levels);
      } else {
        MinSumMonotone(first + 1, c, levels);
      }
    }
  }

  lemma ClampIsNearest(total: nat, levels: nat, lower: nat, upper: nat, first: nat)
    requires 1 <= lower <= upper
    requires forall c: nat :: Feasible(c, levels, total) <==> lower <= c <= upper
    requires var estimate := if total % 4 <= 2 then total / 4 else total / 4 + 1;
             first == if estimate < lower then lower else if estimate > upper then upper else estimate
    ensures NearestFirst(total, levels, first)
  {
  }

  /** The first bucket count, chosen for every total of at least one bucket per level. */
  method NearestFeasibleFirstCount(total: nat, levelCount: nat) returns (r: Option<nat>)
    requires total < USIZE_LIMIT
    ensures r.Some? <==> 1 <= levelCount <= total
    ensures r.Some? ==> NearestFirst(total, levelCount, r.value)
  {
    if levelCount < 1 || total < levelCount - 1 {
      return None;
    }
    var maximumFirst := total - (levelCount - 1);
    if total >= levelCount {
      MinSumAtLeast(maximumFirst, levelCount);
    } else {
      ZeroSum(levelCount);
    }
    OnesSum(levelCount);
    var reachable := MaximumPathSumAtLeast(maximumFirst, levelCount, total);
    if !reachable {
      return None;
    }
    var lowest := MinimumPathSumAtMost(1, levelCount, total);
    if !lowest {
      return None;
    }
    var firstLower := LowestFirst(maximumFirst, levelCount, total);
    var firstUpper := HighestFirst(maximumFirst, levelCount, total);
    RangeIsExact(maximumFirst, levelCount, total, firstLower, firstUpper);
    var quotient := total / 4;
    var nearestEstimate := if total % 4 <= 2 then quotient else quotient + 1;
    var first := if nearestEstimate < firstLower then firstLower
                 else if nearestEstimate > firstUpper then firstUpper else nearestEstimate;
    ClampIsNearest(total, levelCount, firstLower, firstUpper, first);
    var complete := YieldsExactly(first, total, levelCount);
    r := None;
    if complete {
      r := Some(first);
    }
  }

  lemma {:induction false} ZeroSum(levels: nat)
    ensures MaxSum(0, levels) == 0
  {
    if levels > 0 {
      ZeroSum(levels - 1);
    }
  }

  /** The two search results delimit the feasible first counts, and there is at least one. */
  lemma RangeIsExact(maximumFirst: nat, levels: nat, total: nat, lower: nat, upper: nat)
    requires levels >= 1 && total >= levels && maximumFirst == total - (levels - 1)
    requires 1 <= lower && 1 <= upper <= maximumFirst
    requires forall c: nat :: c >= 1 ==> (MaxSum(c, levels) >= total <==> c >= lower)
    requires forall c: nat :: 1 <= c <= maximumFirst ==> (MinSum(c, levels) <= total <==> c <= upper)
    ensures lower <= upper
    ensures forall c: nat :: Feasible(c, levels, total) <==> lower <= c <= upper
  {
    forall c: nat ensures Feasible(c, levels, total) <==> lower <= c <= upper {
      if c >= 1 {
        MinSumAtLeast(c, levels);
      }
    }
    FeasibleTotals(levels, total);
  }

  /** The closing check: the iterator yields one count per level and uses up the total. */
  method YieldsExactly(first: nat, total: nat, levelCount: nat) returns (r: bool)
    requires total < USIZE_LIMIT && levelCount >= 1 && Feasible(first, levelCount, total)
    ensures r
  {
    var counts := new FunnelBucketCounts(first, total, levelCount);
    var i := 0;
    while i < levelCount
      invariant 0 <= i <= levelCount
      invariant counts.remainingLevels == levelCount - i && counts.remainingSum < USIZE_LIMIT
      invariant i < levelCount ==> counts.OnTrack()
      invariant i == levelCount ==> counts.nextCount.None? && counts.remainingSum == 0
      modifies counts
    {
      var count := counts.Next();
      if count.None? {
        return false;
      }
      i := i + 1;
    }
    var extra := counts.Next();
    return extra.None? && counts.remainingSum == 0;
  }
}
