/** Elastic insertion batches: the cached scheduler against its prefix-sum meaning, and the
    occupancy every insert-only epoch keeps while keys land through their active target. */
module ElasticBatches {
  import opened Arith
  import opened Wrappers
  import opened SpecialLayout
  import opened ElasticPlan

  datatype BatchTarget = Bootstrap | LevelPair(current: nat)

  // ---- Batch ends ----

  /** Running quota totals from `total` on, saturating at the largest `usize`. */
  function Ends(total: nat, quotas: seq<nat>): seq<nat>
    decreases |quotas|
  {
    if quotas == [] then []
    else
      var next := if total + quotas[0] < USIZE_LIMIT then total + quotas[0] else USIZE_LIMIT - 1;
      [next] + Ends(next, quotas[1..])
  }

  predicate NonDecreasing(ends: seq<nat>)
  {
    forall i, j :: 0 <= i <= j < |ends| ==> ends[i] <= ends[j]
  }

  lemma {:induction false} EndsSorted(total: nat, quotas: seq<nat>)
    requires total < USIZE_LIMIT
    ensures var e := Ends(total, quotas);
            |e| == |quotas| && NonDecreasing(e) && forall i :: 0 <= i < |e| ==> total <= e[i] < USIZE_LIMIT
    decreases |quotas|
  {
    if quotas != [] {
      var next := if total + quotas[0] < USIZE_LIMIT then total + quotas[0] else USIZE_LIMIT - 1;
      EndsSorted(next, quotas[1..]);
    }
  }

  /** `partition_point(end <= len)`: how many ends the live count has reached. */
  ghost predicate IsPartition(ends: seq<nat>, len: nat, point: nat)
  {
    && point <= |ends|
    && (forall i :: 0 <= i < point ==> ends[i] <= len)
    && (forall i :: point <= i < |ends| ==> len < ends[i])
  }

  method PartitionPoint(ends: seq<nat>, len: nat) returns (point: nat)
    requires NonDecreasing(ends)
    ensures IsPartition(ends, len, point)
  {
    var low, high := 0, |ends|;
    while low < high
      invariant 0 <= low <= high <= |ends|
      invariant forall i :: 0 <= i < low ==> ends[i] <= len
      invariant forall i :: high <= i < |ends| ==> len < ends[i]
    {
      var middle := low + (high - low) / 2;
      if ends[middle] <= len {
        low := middle + 1;
      } else {
        high := middle;
      }
    }
    point := low;
  }

  /** The active batch for `len` live entries: the first whose end lies past them, or the last. */
  ghost predicate Active(ends: seq<nat>, len: nat, index: nat)
  {
    if ends == [] then index == 0
    else
      && index < |ends|
      && (forall i :: 0 <= i < index ==> ends[i] <= len)
      && (index < |ends| - 1 ==> len < ends[index])
  }

  lemma ActiveUnique(ends: seq<nat>, len: nat, a: nat, b: nat)
    requires NonDecreasing(ends) && Active(ends, len, a) && Active(ends, len, b)
    ensures a == b
  {
    if ends != [] {
      if a < b { assert false; }
      if b < a { assert false; }
    }
  }

  function TargetOf(index: nat): BatchTarget
  {
    if index == 0 then Bootstrap else LevelPair(index - 1)
  }

  /** The active batch is a function of the live count alone, so the cached window is only an
      accelerator. */
  class BatchScheduler {
    const batchEnds: seq<nat>
    var currentBatchIndex: nat
    var batchStart: nat
    var batchEnd: nat

    ghost predicate Valid()
      reads this
    {
      && NonDecreasing(batchEnds) && (forall i :: 0 <= i < |batchEnds| ==> batchEnds[i] < USIZE_LIMIT)
      && if batchEnds == [] then currentBatchIndex == 0 && batchStart == 0 && batchEnd == USIZE_LIMIT - 1
         else
           && currentBatchIndex < |batchEnds|
           && batchStart == (if currentBatchIndex == 0 then 0 else batchEnds[currentBatchIndex - 1])
           && batchEnd == batchEnds[currentBatchIndex]
    }

    constructor (batchPlan: seq<nat>)
      ensures Valid() && batchEnds == Ends(0, batchPlan)
    {
      batchEnds := Ends(0, batchPlan);
      currentBatchIndex, batchStart, batchEnd := 0, 0, USIZE_LIMIT - 1;
      new;
      EndsSorted(0, batchPlan);
      Reset();
    }

    method Target(len: nat) returns (target: BatchTarget)
      requires Valid() && len < USIZE_LIMIT - 1
      modifies this
      ensures Valid()
      ensures Active(batchEnds, len, currentBatchIndex) && target == TargetOf(currentBatchIndex)
    {
      if len >= batchEnd || len < batchStart {
        Sync(len);
      }
      return if currentBatchIndex == 0 then Bootstrap else LevelPair(currentBatchIndex - 1);
    }

    method Sync(len: nat)
      requires NonDecreasing(batchEnds) && (forall i :: 0 <= i < |batchEnds| ==> batchEnds[i] < USIZE_LIMIT)
      requires batchEnds == [] ==> Valid()
      modifies this
      ensures Valid() && Active(batchEnds, len, currentBatchIndex)
    {
      if |batchEnds| == 0 {
        return;
      }
      var point := PartitionPoint(batchEnds, len);
      var index := if point < |batchEnds| - 1 then point else |batchEnds| - 1;
      currentBatchIndex := index;
      batchStart := if index == 0 then 0 else batchEnds[index - 1];
      batchEnd := batchEnds[index];
    }

    method Reset()
      requires NonDecreasing(batchEnds) && (forall i :: 0 <= i < |batchEnds| ==> batchEnds[i] < USIZE_LIMIT)
      requires batchEnds == [] ==> Valid()
      modifies this
      ensures Valid() && Active(batchEnds, 0, currentBatchIndex)
    {
      Sync(0);
    }
  }

  // ---- The plan of one epoch ----

  /** Level capacities, reserve exponent and insertion limit of one epoch. */
  datatype EpochPlan = EpochPlan(caps: seq<nat>, d: nat, budget: nat)

  ghost predicate ValidPlan(p: EpochPlan)
  {
    && QuotasDefined(None, p.caps, p.d) && |p.caps| >= 1 && AllPositive(p.caps)
    && p.budget <= RawStart(p, |p.caps|) && p.budget < USIZE_LIMIT
  }

  function Raw(p: EpochPlan, batch: nat): (r: nat)
    requires QuotasDefined(None, p.caps, p.d) && batch < |p.caps|
  {
    var previous := if batch == 0 then None else Some(p.caps[batch - 1]);
    RawQuotaNonNegative(previous, p.caps[batch], p.d);
    RawQuota(previous, p.caps[batch], p.d)
  }

  /** Entries placed before `batch` opens, when no earlier quota was capped. */
  function RawStart(p: EpochPlan, batch: nat): nat
    requires QuotasDefined(None, p.caps, p.d) && batch <= |p.caps|
  {
    if batch == 0 then 0 else RawStart(p, batch - 1) + Raw(p, batch - 1)
  }

  function BatchEnds(p: EpochPlan): seq<nat>
    requires QuotasDefined(None, p.caps, p.d)
  {
    Ends(0, Quotas(None, p.caps, p.budget, p.d))
  }

  lemma {:induction false} RawTotalIsStart(p: EpochPlan, batch: nat)
    requires QuotasDefined(None, p.caps, p.d) && batch <= |p.caps|
    ensures QuotasDefined(if batch == 0 then None else Some(p.caps[batch - 1]), p.caps[batch..], p.d)
    ensures RawStart(p, |p.caps|) == RawStart(p, batch)
                + RawTotal(if batch == 0 then None else Some(p.caps[batch - 1]), p.caps[batch..], p.d)
    decreases |p.caps| - batch
  {
    if batch < |p.caps| {
      RawTotalIsStart(p, batch + 1);
      assert p.caps[batch..][1..] == p.caps[batch + 1..];
    }
  }

  /** An uncapped batch start, cut off at the budget. */
  function Cut(p: EpochPlan, batch: nat): nat
    requires QuotasDefined(None, p.caps, p.d) && batch <= |p.caps|
  {
    if RawStart(p, batch) <= p.budget then RawStart(p, batch) else p.budget
  }

  function PreviousOf(p: EpochPlan, batch: nat): Option<nat>
    requires batch <= |p.caps|
  {
    if batch == 0 then None else Some(p.caps[batch - 1])
  }

  /** Capped ends are the uncapped ones, cut off at the budget. */
  lemma {:induction false} EndsAreCut(p: EpochPlan, batch: nat)
    requires QuotasDefined(None, p.caps, p.d) && batch <= |p.caps| && p.budget < USIZE_LIMIT
    ensures QuotasDefined(PreviousOf(p, batch), p.caps[batch..], p.d)
    ensures var e := Ends(Cut(p, batch), Quotas(PreviousOf(p, batch), p.caps[batch..], p.budget - Cut(p, batch), p.d));
            |e| == |p.caps| - batch && forall i :: 0 <= i < |e| ==> e[i] == Cut(p, batch + 1 + i)
    decreases |p.caps| - batch
  {
    hide Cut, Quotas, Ends;
    if batch == |p.caps| {
      NothingLeft(p);
    } else {
      QuotasStep(p, batch);
      var q' := Quotas(PreviousOf(p, batch + 1), p.caps[batch + 1..], p.budget - Cut(p, batch + 1), p.d);
      EndsStep(Cut(p, batch), Cut(p, batch + 1), q');
      EndsAreCut(p, batch + 1);
    }
  }

  lemma NothingLeft(p: EpochPlan)
    requires QuotasDefined(None, p.caps, p.d) && p.budget < USIZE_LIMIT
    ensures var n := |p.caps|;
            && QuotasDefined(PreviousOf(p, n), p.caps[n..], p.d) && Cut(p, n) <= p.budget
            && Ends(Cut(p, n), Quotas(PreviousOf(p, n), p.caps[n..], p.budget - Cut(p, n), p.d)) == []
  {
  }

  lemma EndsStep(total: nat, next: nat, quotas: seq<nat>)
    requires total <= next < USIZE_LIMIT
    ensures Ends(total, [next - total] + quotas) == [next] + Ends(next, quotas)
  {
    assert ([next - total] + quotas)[1..] == quotas;
  }

  lemma QuotasStep(p: EpochPlan, batch: nat)
    requires QuotasDefined(None, p.caps, p.d) && batch < |p.caps|
    ensures QuotasDefined(PreviousOf(p, batch), p.caps[batch..], p.d)
    ensures QuotasDefined(PreviousOf(p, batch + 1), p.caps[batch + 1..], p.d)
    ensures Cut(p, batch) <= Cut(p, batch + 1) <= p.budget
    ensures Quotas(PreviousOf(p, batch), p.caps[batch..], p.budget - Cut(p, batch), p.d)
         == [Cut(p, batch + 1) - Cut(p, batch)]
            + Quotas(PreviousOf(p, batch + 1), p.caps[batch + 1..], p.budget - Cut(p, batch + 1), p.d)
  {
    var rest := p.caps[batch..];
    assert rest[0] == p.caps[batch] && rest[1..] == p.caps[batch + 1..];
    assert RawStart(p, batch + 1) == RawStart(p, batch) + Raw(p, batch);
  }

  // ---- Occupancy of an insert-only epoch ----

  /** Live entries per level, and in total. */
  datatype Occupancy = Occupancy(levels: seq<nat>, len: nat)

  function Free(p: EpochPlan, o: Occupancy, level: nat): int
    requires level < |p.caps| && level < |o.levels|
  {
    p.caps[level] as int - o.levels[level]
  }

  predicate CurrentLow(p: EpochPlan, o: Occupancy, current: nat)
    requires current < |p.caps| && current < |o.levels|
  {
    Free(p, o, current) <= HalfReserved(p.caps[current], p.d)
  }

  predicate NextLow(p: EpochPlan, o: Occupancy, next: nat)
    requires next < |p.caps| && next < |o.levels|
  {
    4 * Free(p, o, next) <= p.caps[next]
  }

  /** Levels the paper's insertion cases let a key land on. */
  predicate Allowed(p: EpochPlan, o: Occupancy, target: BatchTarget, level: nat)
    requires |o.levels| == |p.caps|
  {
    match target
    case Bootstrap => level == 0 < |p.caps|
    case LevelPair(current) =>
      && current + 1 < |p.caps|
      && (if CurrentLow(p, o, current) then level == current + 1
          else if NextLow(p, o, current + 1) then level == current
          else level == current || level == current + 1)
  }

  /** A key lands in a free slot of a level its active batch target allows. */
  ghost predicate Lands(p: EpochPlan, o: Occupancy, o': Occupancy)
    requires QuotasDefined(None, p.caps, p.d)
  {
    && |o.levels| == |p.caps| && o.len < p.budget
    && exists index: nat, level: nat ::
         && Active(BatchEnds(p), o.len, index) && Allowed(p, o, TargetOf(index), level)
         && level < |p.caps| && Free(p, o, level) > 0
         && o' == Occupancy(o.levels[level := o.levels[level] + 1], o.len + 1)
  }

  /** What batch `batch` keeps: earlier levels are filled to their reserve, the current one is
      between three quarters and its reserve, the next one is at most three quarters full, and
      deeper levels are untouched. */
  ghost predicate InBatch(p: EpochPlan, o: Occupancy, batch: nat)
    requires QuotasDefined(None, p.caps, p.d)
  {
    && batch < |p.caps| && |o.levels| == |p.caps|
    && (forall j :: 0 <= j && j + 1 < batch ==> Free(p, o, j) == HalfReserved(p.caps[j], p.d))
    && (forall j :: batch < j < |p.caps| ==> o.levels[j] == 0)
    && o.levels[batch] <= CeilThreeQuarters(p.caps[batch])
    && (if batch == 0 then o.len == o.levels[0]
        else
          && CeilThreeQuarters(p.caps[batch - 1]) <= o.levels[batch - 1]
          && Free(p, o, batch - 1) >= HalfReserved(p.caps[batch - 1], p.d)
          && o.len == RawStart(p, batch) + o.levels[batch - 1] - CeilThreeQuarters(p.caps[batch - 1]) + o.levels[batch])
  }

  lemma RawPositive(p: EpochPlan, batch: nat)
    requires QuotasDefined(None, p.caps, p.d) && AllPositive(p.caps) && batch < |p.caps|
    ensures Raw(p, batch) >= 1
  {
    if batch > 0 {
      QuotaNeverUnderflows(p.caps[batch - 1], p.d);
    }
  }

  lemma {:induction false} RawStartGrows(p: EpochPlan, a: nat, b: nat)
    requires QuotasDefined(None, p.caps, p.d) && AllPositive(p.caps) && a <= b <= |p.caps|
    ensures RawStart(p, a) + (b - a) <= RawStart(p, b)
    decreases b
  {
    if a < b {
      RawStartGrows(p, a, b - 1);
      RawPositive(p, b - 1);
    }
  }

  /** Below the budget, the scheduler's active batch is the one whose uncapped window holds the
      live count; zero-quota batches are never selected. */
  lemma ActiveWindow(p: EpochPlan, len: nat, batch: nat, index: nat)
    requires ValidPlan(p) && batch < |p.caps|
    requires RawStart(p, batch) <= len < RawStart(p, batch + 1) && len < p.budget
    requires Active(BatchEnds(p), len, index)
    ensures index == batch
  {
    ActiveExists(p, len, batch);
    EndsSorted(0, Quotas(None, p.caps, p.budget, p.d));
    ActiveUnique(BatchEnds(p), len, batch, index);
  }

  /** While a batch is open, its two active levels are never both low, and the level a low
      partner forces a key onto has room. */
  lemma OpenBatch(p: EpochPlan, o: Occupancy, batch: nat)
    requires ValidPlan(p) && InBatch(p, o, batch) && o.len < RawStart(p, batch + 1)
    ensures batch == 0 ==> Free(p, o, 0) > 0
    ensures batch > 0 ==>
              && !(CurrentLow(p, o, batch - 1) && NextLow(p, o, batch))
              && (CurrentLow(p, o, batch - 1) ==> Free(p, o, batch) > 0)
              && (NextLow(p, o, batch) ==> Free(p, o, batch - 1) > 0)
              && (!CurrentLow(p, o, batch - 1) && !NextLow(p, o, batch) ==>
                    Free(p, o, batch - 1) > 0 && Free(p, o, batch) > 0)
  {
    if batch > 0 {
      QuotaNeverUnderflows(p.caps[batch - 1], p.d);
    }
  }

  /** A full batch leaves its current level with exactly `floor(delta * |A| / 2)` free slots and
      its next level with exactly `ceil(3|A'| / 4)` entries. */
  lemma FullBatch(p: EpochPlan, o: Occupancy, batch: nat)
    requires ValidPlan(p) && InBatch(p, o, batch) && o.len >= RawStart(p, batch + 1)
    ensures o.len == RawStart(p, batch + 1)
    ensures o.levels[batch] == CeilThreeQuarters(p.caps[batch])
    ensures batch > 0 ==> Free(p, o, batch - 1) == HalfReserved(p.caps[batch - 1], p.d)
    ensures batch + 1 < |p.caps| ==> InBatch(p, o, batch + 1)
  {
    if batch + 1 < |p.caps| {
      QuotaNeverUnderflows(p.caps[batch], p.d);
    }
  }

  /** A landing the open batch allows keeps that batch's shape. */
  lemma LandingInBatch(p: EpochPlan, o: Occupancy, batch: nat, level: nat)
    requires ValidPlan(p) && InBatch(p, o, batch) && o.len < RawStart(p, batch + 1)
    requires Allowed(p, o, TargetOf(batch), level)
    ensures level < |p.caps|
    ensures InBatch(p, Occupancy(o.levels[level := o.levels[level] + 1], o.len + 1), batch)
  {
    var o' := Occupancy(o.levels[level := o.levels[level] + 1], o.len + 1);
    assert forall j :: 0 <= j && j + 1 < batch ==> Free(p, o', j) == Free(p, o, j);
  }

  /** One landing keeps the batch shape, moving to the next batch when the old one was full. */
  lemma LandingKeepsBatch(p: EpochPlan, o: Occupancy, o': Occupancy, batch: nat) returns (batch': nat)
    requires ValidPlan(p) && InBatch(p, o, batch) && Lands(p, o, o')
    ensures InBatch(p, o', batch')
  {
    batch' := OpenOne(p, o, batch);
    var index: nat, level: nat :|
      && Active(BatchEnds(p), o.len, index) && Allowed(p, o, TargetOf(index), level)
      && level < |p.caps| && Free(p, o, level) > 0
      && o' == Occupancy(o.levels[level := o.levels[level] + 1], o.len + 1);
    ActiveWindow(p, o.len, batch', index);
    LandingInBatch(p, o, batch', level);
  }

  /** Below the budget, the epoch is in the shape of an open batch. */
  lemma OpenOne(p: EpochPlan, o: Occupancy, batch: nat) returns (open: nat)
    requires ValidPlan(p) && InBatch(p, o, batch) && o.len < p.budget
    ensures InBatch(p, o, open) && RawStart(p, open) <= o.len < RawStart(p, open + 1)
  {
    open := batch;
    if o.len >= RawStart(p, batch + 1) {
      FullBatch(p, o, batch);
      RawStartGrows(p, batch + 1, |p.caps|);
      open := batch + 1;
      RawPositive(p, open);
    }
  }

  /** A run of landings from the empty epoch. */
  ghost predicate InsertRun(p: EpochPlan, run: seq<Occupancy>)
    requires QuotasDefined(None, p.caps, p.d)
  {
    && |run| >= 1 && run[0] == Occupancy(seq(|p.caps|, _ => 0), 0)
    && forall i, j :: 0 <= i < j < |run| && j == i + 1 ==> Lands(p, run[i], run[j])
  }

  /** In every insert-only run, after any number of landings: the epoch is in some batch shape;
      with room left in the budget, that batch can be taken as the active one, its pair is never
      low on both levels and the forced level has room; and whenever the live count reaches a
      batch's uncapped end, that batch is left exactly full. */
  lemma {:induction false} RunKeepsBatches(p: EpochPlan, run: seq<Occupancy>)
    returns (batch: nat)
    requires ValidPlan(p) && InsertRun(p, run)
    ensures var o := run[|run| - 1];
            && InBatch(p, o, batch)
            && (o.len < p.budget ==> o.len < RawStart(p, batch + 1) && Active(BatchEnds(p), o.len, batch))
    decreases |run|
  {
    var o := run[|run| - 1];
    if |run| == 1 {
      batch := 0;
      RawPositive(p, 0);
    } else {
      var before := run[..|run| - 1];
      batch := RunKeepsBatches(p, before);
      assert Lands(p, run[|run| - 2], o);
      batch := LandingKeepsBatch(p, before[|before| - 1], o, batch);
    }
    if o.len < p.budget {
      batch := OpenOne(p, o, batch);
      ActiveExists(p, o.len, batch);
    }
  }

  lemma ActiveExists(p: EpochPlan, len: nat, batch: nat)
    requires ValidPlan(p) && batch < |p.caps|
    requires RawStart(p, batch) <= len < RawStart(p, batch + 1) && len < p.budget
    ensures Active(BatchEnds(p), len, batch)
  {
    hide Quotas, Ends, FloorDivPow2;
    EndsAreCut(p, 0);
    assert p.caps[0..] == p.caps;
    var e := BatchEnds(p);
    forall i | 0 <= i < batch ensures e[i] <= len {
      RawStartGrows(p, i + 1, batch);
    }
  }

  /** The plan of every Elastic table is one these results cover. */
  lemma TablePlanIsValid(n: nat, d: nat, p: EpochPlan)
    requires 2 <= n < USIZE_LIMIT && d >= 1
    requires p == EpochPlan(LevelLengthsOf(n), d, n - FloorDivPow2(n, d))
    ensures ValidPlan(p)
  {
    LevelGeometry(n);
    LengthsAreDefined(n, d);
    RawCoversAll(p.caps, d);
    HalfReservedLess(n, d);
    RawTotalIsStart(p, 0);
    assert p.caps[0..] == p.caps;
  }
}
