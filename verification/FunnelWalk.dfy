/** One key's probe walk through a Funnel table, leg by leg: its bucket on every ordinary level,
    then the primary probes of the special array one at a time, then its two fallback buckets
    interleaved. */
module FunnelWalk {
  import opened Arith
  import opened Controls
  import opened Wrappers
  import opened Membership
  import opened FunnelPlan

  /** The counter streams a probe can be drawn from. */
  datatype Domain = Ordinary(level: nat) | Primary | FallbackA | FallbackB

  /** Probe choice by seed, hash, domain, logical probe and upper bound; `None` when the bounded
      rejection sampling runs out of words. */
  type Sampler = (Word, Word, Domain, nat, nat) -> Option<nat>

  ghost predicate SoundSampler(sample: Sampler)
  {
    forall seed, hash, domain, probe, upper ::
      sample(seed, hash, domain, probe, upper).Some? ==> sample(seed, hash, domain, probe, upper).value < upper
  }

  datatype Walk = Walk(shape: FunnelShape, sample: Sampler, seed: Word, hash: Word)
  {
    function Draw(domain: Domain, probe: nat, upper: nat): Option<nat>
    {
      sample(seed, hash, domain, probe, upper)
    }
  }

  ghost predicate Usable(w: Walk)
  {
    ValidShape(w.shape) && w.shape.n > 0 && SoundSampler(w.sample)
  }

  // ---- Legs ----

  function LegCount(shape: FunnelShape): nat
  {
    |shape.levels| + shape.loglog + 1
  }

  function Run(start: nat, length: nat): (r: seq<nat>)
    ensures |r| == length && forall i :: 0 <= i < length ==> r[i] == start + i
  {
    seq(length, i requires 0 <= i => start + i)
  }

  /** The two fallback buckets, slot by slot in turn. */
  function Interleaved(a: nat, b: nat, width: nat): (r: seq<nat>)
    ensures |r| == 2 * width
    ensures forall t :: 0 <= t < 2 * width ==> r[t] == (if t % 2 == 0 then a else b) + t / 2
  {
    seq(2 * width, t requires 0 <= t => (if t % 2 == 0 then a else b) + t / 2)
  }

  /** Slots of leg `i`, in order; empty when a draw for it fails, which ends the walk. */
  function Leg(w: Walk, i: nat): seq<nat>
    requires i < LegCount(w.shape)
  {
    var levels := w.shape.levels;
    if i < |levels| then
      match w.Draw(Ordinary(i), 0, levels[i].buckets)
      case None => []
      case Some(bucket) => Run(levels[i].offset + Times(bucket, w.shape.beta), w.shape.beta)
    else if i < |levels| + w.shape.loglog then
      match w.Draw(Primary, i - |levels|, w.shape.primaryLen)
      case None => []
      case Some(local) => [w.shape.primaryOffset + local]
    else
      var a, b := w.Draw(FallbackA, 0, w.shape.fallbackBuckets), w.Draw(FallbackB, 0, w.shape.fallbackBuckets);
      if a.Some? && b.Some? then
        Interleaved(w.shape.fallbackOffset + Times(a.value, w.shape.fallbackWidth),
                    w.shape.fallbackOffset + Times(b.value, w.shape.fallbackWidth), w.shape.fallbackWidth)
      else []
  }

  // ---- Level bits ----

  function LegBit(shape: FunnelShape, i: nat): nat
  {
    if i < |shape.levels| && i < LAST_BIT then i else LAST_BIT
  }

  /** Levels from `i` on that start at or before `slot`, up to the first that does not. */
  function StartedFrom(levels: seq<LevelShape>, i: nat, slot: nat): nat
    decreases |levels| - i
  {
    if i < |levels| && levels[i].offset <= slot then 1 + StartedFrom(levels, i + 1, slot) else 0
  }

  /** `level_bit`: the bin bit of the level a slot lies on, from the slot alone. */
  function SlotBit(shape: FunnelShape, slot: nat): nat
  {
    var overflowStart := if LAST_BIT < |shape.levels| then shape.levels[LAST_BIT].offset else shape.primaryOffset;
    if slot >= overflowStart then LAST_BIT
    else
      var level := StartedFrom(shape.levels, 1, slot);
      if level < LAST_BIT then level else LAST_BIT
  }

  /** Later levels start at or after the end of earlier ones. */
  lemma {:induction false} LevelsOrdered(levels: seq<LevelShape>, beta: nat, end: nat, i: nat, j: nat)
    requires TiledLevels(levels, beta, end) && i < j < |levels|
    ensures levels[i].offset + Times(levels[i].buckets, beta) <= levels[j].offset
    ensures levels[j].offset + Times(levels[j].buckets, beta) <= end
    decreases j, |levels| - j
  {
    assert levels[i].offset + Times(levels[i].buckets, beta) == LevelEnd(levels, i, end);
    assert levels[j].offset + Times(levels[j].buckets, beta) == LevelEnd(levels, j, end);
    if i + 1 < j {
      LevelsOrdered(levels, beta, end, i, j - 1);
      assert levels[j - 1].offset + Times(levels[j - 1].buckets, beta) == LevelEnd(levels, j - 1, end);
    }
    LastLevelEnds(levels, beta, end, j);
  }

  lemma {:induction false} LastLevelEnds(levels: seq<LevelShape>, beta: nat, end: nat, j: nat)
    requires TiledLevels(levels, beta, end) && j < |levels|
    ensures levels[j].offset + Times(levels[j].buckets, beta) <= end
    decreases |levels| - j
  {
    assert levels[j].offset + Times(levels[j].buckets, beta) == LevelEnd(levels, j, end);
    if j + 1 < |levels| {
      LastLevelEnds(levels, beta, end, j + 1);
    }
  }

  lemma {:induction false} StartedIsLevel(levels: seq<LevelShape>, beta: nat, end: nat, level: nat, from: nat,
                                          slot: nat)
    requires TiledLevels(levels, beta, end) && from <= level + 1 <= |levels|
    requires levels[level].offset <= slot < levels[level].offset + Times(levels[level].buckets, beta)
    ensures StartedFrom(levels, from, slot) == level + 1 - from
    decreases level + 1 - from
  {
    if from <= level {
      if from < level { LevelsOrdered(levels, beta, end, from, level); }
      StartedIsLevel(levels, beta, end, level, from + 1, slot);
    } else if from < |levels| {
      LevelsOrdered(levels, beta, end, level, from);
    }
  }

  /** A slot of level `level` yields that level's bit. */
  lemma OrdinarySlotBit(shape: FunnelShape, level: nat, slot: nat)
    requires ValidShape(shape) && level < |shape.levels|
    requires var l := shape.levels[level]; l.offset <= slot < l.offset + Times(l.buckets, shape.beta)
    ensures slot < shape.primaryOffset && SlotBit(shape, slot) == LegBit(shape, level)
  {
    LastLevelEnds(shape.levels, shape.beta, shape.primaryOffset, level);
    StartedIsLevel(shape.levels, shape.beta, shape.primaryOffset, level, 1, slot);
    if level < LAST_BIT {
      LevelsOrdered(shape.levels, shape.beta, shape.primaryOffset, level, LAST_BIT);
    } else if level > LAST_BIT {
      LevelsOrdered(shape.levels, shape.beta, shape.primaryOffset, LAST_BIT, level);
    }
  }

  lemma SpecialSlotBit(shape: FunnelShape, slot: nat)
    requires ValidShape(shape) && shape.n > 0 && slot >= shape.primaryOffset
    ensures SlotBit(shape, slot) == LAST_BIT
  {
    LastLevelEnds(shape.levels, shape.beta, shape.primaryOffset, LAST_BIT);
  }

  /** Bucket `b` of level `i` lies inside its level and the table. */
  lemma BucketFits(shape: FunnelShape, i: nat, b: nat)
    requires ValidShape(shape) && i < |shape.levels| && b < shape.levels[i].buckets
    ensures var l := shape.levels[i];
            && l.offset + Times(b, shape.beta) + shape.beta <= l.offset + Times(l.buckets, shape.beta)
            && l.offset + Times(l.buckets, shape.beta) <= shape.primaryOffset <= shape.n
  {
    TimesOrdered(b, shape.levels[i].buckets, shape.beta);
    LastLevelEnds(shape.levels, shape.beta, shape.primaryOffset, i);
  }

  lemma FallbackFits(shape: FunnelShape, b: nat)
    requires ValidShape(shape) && shape.n > 0 && b < shape.fallbackBuckets
    ensures shape.fallbackOffset + Times(b, shape.fallbackWidth) + shape.fallbackWidth <= shape.n
  {
    TimesOrdered(b, shape.fallbackBuckets, shape.fallbackWidth);
  }

  /** Every slot of a leg lies in the table, and the bit the walk carries for the leg is the bit
      the slot alone yields. */
  lemma LegSlots(w: Walk, i: nat, p: nat)
    requires Usable(w) && i < LegCount(w.shape) && p < |Leg(w, i)|
    ensures Leg(w, i)[p] < w.shape.n
    ensures SlotBit(w.shape, Leg(w, i)[p]) == LegBit(w.shape, i)
  {
    var s, levels := Leg(w, i)[p], w.shape.levels;
    if i < |levels| {
      BucketFits(w.shape, i, w.Draw(Ordinary(i), 0, levels[i].buckets).value);
      OrdinarySlotBit(w.shape, i, s);
    } else {
      if i >= |levels| + w.shape.loglog {
        FallbackFits(w.shape, w.Draw(FallbackA, 0, w.shape.fallbackBuckets).value);
        FallbackFits(w.shape, w.Draw(FallbackB, 0, w.shape.fallbackBuckets).value);
      }
      SpecialSlotBit(w.shape, s);
    }
  }
}
