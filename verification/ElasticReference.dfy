/** The scalar Elastic: one slot at a time, no fingerprints, filter, probe schedule or cached batch
    window. While nothing is removed, the table puts every key where it does, and its walk over all
    query positions finds every key the table holds. */
module ElasticReference {
  import opened Arith
  import opened Controls
  import opened Wrappers
  import opened Store
  import opened BucketCounts
  import opened ElasticPlan
  import opened ElasticBatches
  import opened ElasticGeometry
  import opened ElasticSchedule
  import opened ElasticState
  import opened ElasticPlacement
  import opened ElasticTable
  import ProbeBudget
  import QueryPosition

  /** The paper's insertion rule that placed a key. */
  datatype ElasticCase = Batch0 | Case1 | Case2 | Case3

  datatype ScalarInsertion = ScalarInsertion(rule: ElasticCase, level: nat, slot: nat, probe: nat, phi: nat)

  datatype Refusal = AlreadyHeld | TargetExhausted | BothLow | RangeFailed | SearchExhausted | PositionTooLarge

  /** The search for a slot came to an end without one that lookups can reach. */
  predicate NoSlot(r: Refusal)
  {
    r.RangeFailed? || r.SearchExhausted? || r.PositionTooLarge?
  }

  // ---- What the scalar rules choose ----

  /** What one probe of a level yields: the slot it maps to, when that slot is vacant. */
  function ScalarProbe<K>(route: Router, caps: seq<nat>, slots: seq<Option<K>>, hash: Word, level: nat,
                          logical: nat): Option<nat>
    requires level < |caps|
  {
    match route(hash, level, logical, caps[level])
    case None => None
    case Some(slot) =>
      if Offset(caps, level) + slot < |slots| && slots[Offset(caps, level) + slot].None? then Some(slot) else None
  }

  /** None of a level's leading probes yields a vacancy. */
  ghost predicate NoneVacant<K>(route: Router, caps: seq<nat>, slots: seq<Option<K>>, hash: Word, level: nat,
                                limit: nat)
    requires level < |caps|
  {
    forall i: nat :: i < limit ==> ScalarProbe(route, caps, slots, hash, level, i).None?
  }

  /** The probe is a level's first to yield a vacancy, at this slot. */
  ghost predicate FirstVacant<K>(route: Router, caps: seq<nat>, slots: seq<Option<K>>, hash: Word, level: nat,
                                 slot: nat, logical: nat)
    requires level < |caps|
  {
    ScalarProbe(route, caps, slots, hash, level, logical) == Some(slot)
      && NoneVacant(route, caps, slots, hash, level, logical)
  }

  /** Case 1's budget for a level with so many free slots. */
  ghost predicate IsDyadic(free: nat, length: nat, d: nat, budget: nat)
  {
    exists k: nat :: ProbeBudget.IsLogRatio(free, length, k)
                     && budget == ELASTIC_PROBE_BUDGET_C * ProbeBudget.Least(k * k, d)
  }

  /** Case 1: on the current level within its budget, or on the next one after the budget was in vain. */
  ghost predicate WithinBudget<K>(route: Router, caps: seq<nat>, d: nat, slots: seq<Option<K>>, hash: Word,
                                  current: nat, free: nat,
                                  c: ScalarInsertion)
    requires current < |caps|
  {
    exists budget: nat :: IsDyadic(free, caps[current], d, budget)
      && (if c.level == current then c.probe <= budget
          else c.level == current + 1 && NoneVacant(route, caps, slots, hash, current, budget))
  }

  /** No probe of the hash loses its draw. */
  ghost predicate AllDraws(route: Router, caps: seq<nat>, hash: Word)
  {
    forall level: nat, logical: nat :: level < |caps| ==> route(hash, level, logical, caps[level]).Some?
  }

  /** Case 1 in vain: nothing within the budget and nothing within reach on the next level, or the current
      level's first vacancy is within the budget but out of reach. */
  ghost predicate PairBarren<K>(route: Router, caps: seq<nat>, d: nat, slots: seq<Option<K>>, hash: Word,
                                current: nat, free: nat)
    requires current + 1 < |caps|
  {
    exists budget: nat :: IsDyadic(free, caps[current], d, budget)
      && (if NoneVacant(route, caps, slots, hash, current, budget)
          then NoneVacant(route, caps, slots, hash, current + 1, LevelProbeLimit(current + 1))
          else NoneVacant(route, caps, slots, hash, current, LevelProbeLimit(current)))
  }

  /** The rules find no slot within reach for a key of the active batch. */
  ghost predicate Barren<K>(p: EpochPlan, o: Occupancy, route: Router, slots: seq<Option<K>>, hash: Word, batch: nat)
    requires |o.levels| == |p.caps|
  {
    && batch < |p.caps|
    && if batch == 0 then NoneVacant(route, p.caps, slots, hash, 0, LevelProbeLimit(0))
       else if CurrentLow(p, o, batch - 1) then NoneVacant(route, p.caps, slots, hash, batch, LevelProbeLimit(batch))
       else if NextLow(p, o, batch) then
         NoneVacant(route, p.caps, slots, hash, batch - 1, LevelProbeLimit(batch - 1))
       else Free(p, o, batch - 1) > 0 && PairBarren(route, p.caps, p.d, slots, hash, batch - 1, Free(p, o, batch - 1))
  }

  /** The first `n` quotas. */
  function Total(quotas: seq<nat>, n: nat): nat
    requires n <= |quotas|
  {
    Sum(quotas[..n])
  }

  /** The rules of the paper's section 4 place a key of the active batch here. */
  ghost predicate Places<K>(p: EpochPlan, o: Occupancy, route: Router, slots: seq<Option<K>>, hash: Word, batch: nat,
                            c: ScalarInsertion)
    requires |o.levels| == |p.caps|
  {
    && c.level < |p.caps| && c.probe >= 1 && c.phi == Position(c.level, c.probe - 1) <= QUERY_POSITION_CAP
    && FirstVacant(route, p.caps, slots, hash, c.level, c.slot, c.probe - 1)
    && if batch == 0 then c.rule.Batch0? && c.level == 0
       else
         && batch < |p.caps| && !(CurrentLow(p, o, batch - 1) && NextLow(p, o, batch))
         && (if CurrentLow(p, o, batch - 1) then c.rule.Case2? && c.level == batch
             else if NextLow(p, o, batch) then c.rule.Case3? && c.level == batch - 1
             else c.rule.Case1? && Free(p, o, batch - 1) > 0
                  && WithinBudget(route, p.caps, p.d, slots, hash, batch - 1, Free(p, o, batch - 1), c))
  }

  // ---- Lookups in position order ----

  datatype QueryResult = FoundAt(slot: nat, position: nat) | NotFound | DrawFailed

  /** The probe a query position stands for: the one at that position on one of the levels, and level
      zero's first probe where there is none. */
  ghost predicate Names(caps: seq<nat>, position: nat, level: nat, logical: nat)
  {
    && level < |caps|
    && (Position(level, logical) == position
        || (level == 0 && logical == 0 && forall l: nat, j: nat :: l < |caps| ==> Position(l, j) != position))
  }

  lemma NamesOnce(caps: seq<nat>, position: nat, level: nat, logical: nat, level': nat, logical': nat)
    requires Names(caps, position, level, logical) && Names(caps, position, level', logical')
    ensures level == level' && logical == logical'
  {
    hide QueryPosition.Phi;
    if Position(level, logical) == position && Position(level', logical') == position {
      QueryPosition.PhiInjective(level + 1, logical + 1, level' + 1, logical' + 1);
    }
  }

  /** The probe of this position does not lead to the key. */
  ghost predicate Misses<K>(route: Router, caps: seq<nat>, slots: seq<Option<K>>, hash: Word, key: K, position: nat)
  {
    forall level: nat, logical: nat ::
      Names(caps, position, level, logical) && route(hash, level, logical, caps[level]).Some? ==>
        var s := Offset(caps, level) + route(hash, level, logical, caps[level]).value;
        s < |slots| && slots[s] != Some(key)
  }

  /** Scalar slots as controls: held or never used. */
  function Shown<K>(slots: seq<Option<K>>): (r: seq<Control>)
    ensures |r| == |slots| && forall s :: 0 <= s < |r| ==> (r[s] == if slots[s].Some? then Full(0) else Empty)
  {
    seq(|slots|, s requires 0 <= s < |slots| => if slots[s].Some? then Full(0) else Empty)
  }

  lemma ShownUpdate<K>(slots: seq<Option<K>>, s: nat, key: K)
    requires s < |slots|
    ensures Shown(slots[s := Some(key)]) == Shown(slots)[s := Full(0)]
  {
  }

  lemma OccupancyFits(caps: seq<nat>, ctrl: seq<Control>, occupancy: seq<nat>, tombs: seq<nat>, level: nat)
    requires Counted(caps, ctrl, occupancy, tombs) && level < |caps|
    ensures occupancy[level] <= caps[level]
  {
    hide Lives, Tombs;
    CountExtremes(Region(caps, ctrl, level));
  }

  // ---- The scalar table ----

  class ScalarElastic<K(==)> {
    const caps: seq<nat>
    const quotas: seq<nat>
    const d: nat
    const route: Router
    const occupancy: array<nat>
    const slots: array<Option<K>>
    var len: nat

    /** The occupancies count the held slots of each level. */
    ghost predicate Valid()
      reads this, occupancy, slots
    {
      && 1 <= d < U32_LIMIT && SoundRouter(route) && 1 <= |caps| <= MAX_LEVELS && |quotas| == |caps| == occupancy.Length
      && slots.Length == Offset(caps, |caps|) <= U32_LIMIT && Sum(quotas) < USIZE_LIMIT
      && Counted(caps, Shown(slots[..]), occupancy[..], seq(|caps|, _ => 0))
    }

    ghost function Plan(): EpochPlan
    {
      EpochPlan(caps, d, Sum(quotas))
    }

    ghost function Occ(): Occupancy
      reads this, occupancy
    {
      Occupancy(occupancy[..], len)
    }

    constructor (g: Geometry, d: nat, route: Router)
      requires IsGeometry(g, d) && g.slots >= 2 && 1 <= d < U32_LIMIT && SoundRouter(route)
      ensures Valid() && caps == g.caps && quotas == g.quotas && this.d == d && this.route == route
      ensures fresh(slots) && fresh(occupancy) && len == 0
      ensures (forall s :: 0 <= s < slots.Length ==> slots[s] == None) && occupancy[..] == seq(|g.caps|, _ => 0)
    {
      hide LevelLengthsOf, Quotas, QuotasDefined, SoundRouter, Offset;
      ArenaSize(g, d);
      GeometryFits(g, d);
      this.caps, this.quotas, this.d, this.route, this.len := g.caps, g.quotas, d, route, 0;
      this.occupancy := new nat[|g.caps|](_ => 0);
      this.slots := new Option<K>[g.slots](_ => None);
      new;
      NothingHeld(caps, Shown(slots[..]));
    }

    /** Whether one probe of a level yields a vacancy; `drawn` is false when its range reduction fails. */
    method Vacancy(hash: Word, level: nat, logical: nat) returns (drawn: bool, r: Option<nat>)
      requires Valid() && level < |caps|
      ensures r == ScalarProbe(route, caps, slots[..], hash, level, logical)
      ensures drawn <==> route(hash, level, logical, caps[level]).Some?
    {
      hide Offset;
      var sampled := route(hash, level, logical, caps[level]);
      if sampled.None? {
        return false, None;
      }
      SlotInside(caps, level, sampled.value);
      if slots[Offset(caps, level) + sampled.value].None? {
        return true, sampled;
      }
      return true, None;
    }

    /** First of a level's leading `limit` probes to yield a vacancy. */
    method FirstVacancy(hash: Word, level: nat, limit: nat) returns (drawn: bool, r: Option<(nat, nat)>)
      requires Valid() && level < |caps|
      ensures r.Some? ==> drawn && r.value.1 < limit
                          && FirstVacant(route, caps, slots[..], hash, level, r.value.0, r.value.1)
      ensures drawn && r.None? ==> NoneVacant(route, caps, slots[..], hash, level, limit)
      ensures AllDraws(route, caps, hash) ==> drawn
    {
      hide ScalarProbe, Offset, SoundRouter;
      var logical := 0;
      while logical < limit
        invariant logical <= limit && NoneVacant(route, caps, slots[..], hash, level, logical)
      {
        var slot;
        drawn, slot := Vacancy(hash, level, logical);
        if slot.Some? {
          return true, Some((slot.value, logical));
        }
        if !drawn {
          return false, None;
        }
        logical := logical + 1;
      }
      return true, None;
    }

    /** The first batch whose running quota total lies past the live count. */
    method ActiveBatch() returns (r: Option<nat>)
      requires Valid()
      ensures r.Some? ==> r.value < |caps| && len < Sum(quotas) && Active(Ends(0, quotas), len, r.value)
      ensures r.None? ==> len >= Sum(quotas)
    {
      hide Offset, SoundRouter;
      var prefix, batch := 0, 0;
      while batch < |quotas|
        invariant batch <= |quotas| && prefix == Total(quotas, batch) <= len
        invariant forall i :: 1 <= i <= batch ==> Total(quotas, i) <= len
      {
        assert quotas[..batch + 1] == quotas[..batch] + [quotas[batch]];
        SumSnoc(quotas[..batch], quotas[batch]);
        prefix := prefix + quotas[batch];
        if len < prefix {
          PrefixIsActive(quotas, len, batch);
          return Some(batch);
        }
        batch := batch + 1;
      }
      assert quotas[..batch] == quotas;
      return None;
    }

    /** The level and probe the rules choose for a key of this batch. */
    method Choose(hash: Word, batch: nat) returns (r: Result<ScalarInsertion, Refusal>)
      requires Valid() && batch < |caps|
      ensures r.Ok? ==> Places(Plan(), Occ(), route, slots[..], hash, batch, r.value)
      ensures r == Err(BothLow) ==> batch > 0 && CurrentLow(Plan(), Occ(), batch - 1) && NextLow(Plan(), Occ(), batch)
      ensures r.Err? ==> r.error == BothLow || NoSlot(r.error)
      ensures r.Err? && NoSlot(r.error) && AllDraws(route, caps, hash) ==>
                Barren(Plan(), Occ(), route, slots[..], hash, batch)
    {
      hide ScalarProbe, NoneVacant, FirstVacant, IsDyadic, HalfReserved, Offset, SoundRouter, QueryPosition.Phi,
           LevelProbeLimit, PairBarren, AllDraws;
      if batch == 0 {
        r := Uniform(hash, Batch0, 0);
        return;
      }
      var current, next := batch - 1, batch;
      OccupancyFits(caps, Shown(slots[..]), occupancy[..], seq(|caps|, _ => 0), current);
      OccupancyFits(caps, Shown(slots[..]), occupancy[..], seq(|caps|, _ => 0), next);
      var freeCurrent, freeNext := caps[current] - occupancy[current], caps[next] - occupancy[next];
      var currentLow, nextLow := freeCurrent <= HalfReserved(caps[current], d), freeNext <= caps[next] / 4;
      QuotientAtLeast(caps[next], 4, freeNext);
      if currentLow && nextLow {
        return Err(BothLow);
      }
      if currentLow {
        r := Uniform(hash, Case2, next);
      } else if nextLow {
        r := Uniform(hash, Case3, current);
      } else {
        r := Bounded(hash, current, next, freeCurrent);
      }
    }

    /** Case 1: the current level within its budget, else the next level. */
    method Bounded(hash: Word, current: nat, next: nat, free: nat) returns (r: Result<ScalarInsertion, Refusal>)
      requires Valid() && next == current + 1 < |caps| && 0 < free <= caps[current]
      ensures r.Ok? ==> Selected(hash, r.value) && r.value.rule == Case1
      ensures r.Ok? ==> WithinBudget(route, caps, d, slots[..], hash, current, free, r.value)
      ensures r.Err? ==> NoSlot(r.error)
      ensures r.Err? && AllDraws(route, caps, hash) ==>
                PairBarren(route, caps, d, slots[..], hash, current, free)
    {
      hide ScalarProbe, NoneVacant, FirstVacant, Offset, SoundRouter, QueryPosition.Phi, LevelProbeLimit, AllDraws;
      LengthSmall(caps, current);
      ghost var k;
      var dyadic;
      dyadic, k := ProbeBudget.ElasticDyadicProbeBudget(free, caps[current], d, ELASTIC_PROBE_BUDGET_C);
      assert IsDyadic(free, caps[current], d, dyadic.value);
      var drawn, bounded := FirstVacancy(hash, current, dyadic.value);
      if bounded.Some? {
        VacantBelow(route, caps, slots[..], hash, current, bounded.value, dyadic.value);
        r := Select(Case1, hash, current, bounded.value);
        return;
      }
      if !drawn {
        return Err(RangeFailed);
      }
      r := Uniform(hash, Case1, next);
    }

    /** A choice backed by the level's first vacancy, at a position lookups reach. */
    ghost predicate Selected(hash: Word, c: ScalarInsertion)
      reads this, slots
    {
      && c.level < |caps| && c.probe >= 1 && c.phi == Position(c.level, c.probe - 1) <= QUERY_POSITION_CAP
      && FirstVacant(route, caps, slots[..], hash, c.level, c.slot, c.probe - 1)
    }

    /** `uniform_vacancy`: the search under the finite cap. */
    method Uniform(hash: Word, rule: ElasticCase, level: nat) returns (r: Result<ScalarInsertion, Refusal>)
      requires Valid() && level < |caps|
      ensures r.Ok? ==> Selected(hash, r.value) && r.value.rule == rule && r.value.level == level
      ensures r.Err? ==> NoSlot(r.error)
      ensures r.Err? && AllDraws(route, caps, hash) ==>
                NoneVacant(route, caps, slots[..], hash, level, LevelProbeLimit(level))
    {
      hide ScalarProbe, NoneVacant, FirstVacant, Offset, SoundRouter, QueryPosition.Phi, LevelProbeLimit, AllDraws;
      var drawn, found := FirstVacancy(hash, level, UNIFORM_SEARCH_CAP);
      if !drawn {
        return Err(RangeFailed);
      }
      if found.None? {
        LimitWithinCap(level);
        NoneBelow(route, caps, slots[..], hash, level, UNIFORM_SEARCH_CAP, LevelProbeLimit(level));
        return Err(SearchExhausted);
      }
      r := Select(rule, hash, level, found.value);
    }

    /** Encodes the query position of a found vacancy. */
    method Select(rule: ElasticCase, hash: Word, level: nat, found: (nat, nat))
        returns (r: Result<ScalarInsertion, Refusal>)
      requires Valid() && level < |caps| && FirstVacant(route, caps, slots[..], hash, level, found.0, found.1)
      ensures r.Ok? ==> Selected(hash, r.value) && r.value.rule == rule && r.value.level == level
                        && r.value.probe == found.1 + 1
      ensures r.Err? ==> NoSlot(r.error) && NoneVacant(route, caps, slots[..], hash, level, LevelProbeLimit(level))
    {
      hide FirstVacant, NoneVacant, Offset, SoundRouter, QueryPosition.Phi, LevelProbeLimit;
      OutOfReach(route, caps, slots[..], hash, level, found);
      if found.1 + 1 >= U128_LIMIT {
        return Err(PositionTooLarge);
      }
      var phi := QueryPosition.ElasticPhi(level + 1, found.1 + 1);
      if phi.Err? || phi.value > QUERY_POSITION_CAP {
        return Err(PositionTooLarge);
      }
      return Ok(ScalarInsertion(rule, level, found.0, found.1 + 1, phi.value));
    }

    /** Whether some slot holds the key. */
    method Holds(key: K) returns (held: bool)
      ensures held <==> Some(key) in slots[..]
    {
      var s := 0;
      while s < slots.Length
        invariant s <= slots.Length && Some(key) !in slots[..s]
      {
        if slots[s] == Some(key) {
          assert slots[..][s] == Some(key);
          return true;
        }
        s := s + 1;
      }
      assert slots[..s] == slots[..];
      return false;
    }

    /** Takes a vacant slot for a key. */
    method Take(key: K, level: nat, slot: nat)
      requires Valid() && level < |caps| && slot < caps[level]
      requires Offset(caps, level) + slot < slots.Length && slots[Offset(caps, level) + slot].None?
      modifies `len, occupancy, slots
      ensures Valid() && len == old(len) + 1 && slots[..] == old(slots[..])[Offset(caps, level) + slot := Some(key)]
      ensures occupancy[..] == old(occupancy[..])[level := old(occupancy[level]) + 1]
    {
      hide SoundRouter, Counted, Offset;
      ghost var s := Offset(caps, level) + slot;
      ShownUpdate(slots[..], s, key);
      CountedUpdate(caps, Shown(slots[..]), occupancy[..], seq(|caps|, _ => 0), level, s, Full(0));
      assert seq(|caps|, _ => 0)[level := 0] == seq(|caps|, _ => 0);
      slots[Offset(caps, level) + slot] := Some(key);
      occupancy[level] := occupancy[level] + 1;
      len := len + 1;
    }

    /** `insert`: places a new key by the rules of its active batch; every panic of the source is a refusal,
        which changes nothing. */
    method Insert(key: K, hash: Word) returns (r: Result<ScalarInsertion, Refusal>, ghost batch: nat)
      requires Valid()
      modifies `len, occupancy, slots
      ensures Valid()
      ensures r == Err(AlreadyHeld) <==> Some(key) in old(slots[..])
      ensures r == Err(TargetExhausted) ==> len >= Sum(quotas)
      ensures r.Ok? || r == Err(BothLow) ==> batch < |caps| && old(len) < Sum(quotas)
                                             && Active(Ends(0, quotas), old(len), batch)
      ensures r == Err(BothLow) ==> batch > 0 && CurrentLow(Plan(), old(Occ()), batch - 1)
                                    && NextLow(Plan(), old(Occ()), batch)
      ensures r.Err? && NoSlot(r.error) ==> batch < |caps| && old(len) < Sum(quotas)
                                            && Active(Ends(0, quotas), old(len), batch)
      ensures r.Err? && NoSlot(r.error) && AllDraws(route, caps, hash) ==>
                Barren(Plan(), old(Occ()), route, old(slots[..]), hash, batch)
      ensures r.Err? ==> slots[..] == old(slots[..]) && Occ() == old(Occ())
      ensures r.Ok? ==> Places(Plan(), old(Occ()), route, old(slots[..]), hash, batch, r.value)
                        && Taken(old(slots[..]), old(Occ()), key, r.value)
    {
      hide SoundRouter, Counted, Offset, Places, Barren, ScalarProbe, Ends, Active, AllDraws;
      batch := 0;
      var held := Holds(key);
      if held {
        return Err(AlreadyHeld), 0;
      }
      var active := ActiveBatch();
      if active.None? {
        return Err(TargetExhausted), 0;
      }
      batch := active.value;
      r := Choose(hash, active.value);
      if r.Ok? {
        PlacesInside(Plan(), Occ(), route, slots[..], hash, batch, r.value);
        Take(key, r.value.level, r.value.slot);
      }
    }

    /** The probe of one query position. */
    method ProbeOf(position: nat) returns (level: nat, logical: nat)
      requires Valid() && position <= QUERY_POSITION_CAP
      ensures Names(caps, position, level, logical)
    {
      hide Offset, Counted, SoundRouter, QueryPosition.Phi;
      var pair := QueryPosition.ElasticPhiInverse(position);
      if pair.Some? && pair.value.0 <= |caps| {
        level, logical := pair.value.0 - 1, pair.value.1 - 1;
        assert Position(level, logical) == position;
        return;
      }
      level, logical := 0, 0;
      forall l: nat, j: nat | l < |caps| ensures Position(l, j) != position {
        if pair.Some? && Position(l, j) == position {
          QueryPosition.PhiInjective(l + 1, j + 1, pair.value.0, pair.value.1);
        }
      }
    }

    /** `query`: the slot of each position in turn, until one holds the key; the draw of level zero's first
        probe is kept. */
    method Query(key: K, hash: Word) returns (r: QueryResult)
      requires Valid()
      ensures r.FoundAt? ==> r.slot < slots.Length && slots[r.slot] == Some(key)
                             && 1 <= r.position <= QUERY_POSITION_CAP
                             && forall q: nat :: 1 <= q < r.position ==> Misses(route, caps, slots[..], hash, key, q)
      ensures r.NotFound? ==> forall q: nat :: 1 <= q <= QUERY_POSITION_CAP ==>
                                                 Misses(route, caps, slots[..], hash, key, q)
    {
      hide Offset, Counted, SoundRouter, QueryPosition.Phi, Names, Misses;
      var first: Option<nat> := None;
      var position := 1;
      while position <= QUERY_POSITION_CAP
        invariant 1 <= position <= QUERY_POSITION_CAP + 1
        invariant first.Some? ==> route(hash, 0, 0, caps[0]) == first
        invariant forall q: nat :: 1 <= q < position ==> Misses(route, caps, slots[..], hash, key, q)
      {
        var level, logical := ProbeOf(position);
        NamesLevel(caps, position, level, logical);
        var sampled := if level == 0 && logical == 0 && first.Some? then first
                       else route(hash, level, logical, caps[level]);
        if sampled.None? {
          return DrawFailed;
        }
        if level == 0 && logical == 0 {
          first := sampled;
        }
        DrawnInside(route, hash, level, logical, caps);
        var s := Offset(caps, level) + sampled.value;
        if slots[s] == Some(key) {
          return FoundAt(s, position);
        }
        MissesHere(route, caps, slots[..], hash, key, position, level, logical);
        position := position + 1;
      }
      return NotFound;
    }

    /** The key was put at the choice's slot, and counted on its level. */
    ghost predicate Taken(before: seq<Option<K>>, o: Occupancy, key: K, c: ScalarInsertion)
      reads this, occupancy, slots
    {
      && c.level < |caps| && c.level < |o.levels| && Offset(caps, c.level) + c.slot < |before| && c.slot < caps[c.level]
      && before[Offset(caps, c.level) + c.slot].None?
      && slots[..] == before[Offset(caps, c.level) + c.slot := Some(key)]
      && Occ() == Occupancy(o.levels[c.level := o.levels[c.level] + 1], o.len + 1)
    }
  }

  lemma NamesLevel(caps: seq<nat>, position: nat, level: nat, logical: nat)
    requires Names(caps, position, level, logical)
    ensures level < |caps|
  {
  }

  lemma DrawnInside(route: Router, hash: Word, level: nat, logical: nat, caps: seq<nat>)
    requires SoundRouter(route) && level < |caps| && route(hash, level, logical, caps[level]).Some?
    ensures Offset(caps, level) + route(hash, level, logical, caps[level]).value < Offset(caps, |caps|)
  {
    hide Offset;
    SlotInside(caps, level, route(hash, level, logical, caps[level]).value);
  }

  lemma MissesHere<K>(route: Router, caps: seq<nat>, slots: seq<Option<K>>, hash: Word, key: K, position: nat,
                      level: nat, logical: nat)
    requires Names(caps, position, level, logical) && level < |caps| && route(hash, level, logical, caps[level]).Some?
    requires var s := Offset(caps, level) + route(hash, level, logical, caps[level]).value;
             s < |slots| && slots[s] != Some(key)
    ensures Misses(route, caps, slots, hash, key, position)
  {
    hide Offset, Names;
    forall level': nat, logical': nat | Names(caps, position, level', logical')
      ensures level' == level && logical' == logical
    {
      NamesOnce(caps, position, level, logical, level', logical');
    }
  }

  lemma PlacesInside<K>(p: EpochPlan, o: Occupancy, route: Router, slots: seq<Option<K>>, hash: Word, batch: nat,
                        c: ScalarInsertion)
    requires |o.levels| == |p.caps| && SoundRouter(route) && Places(p, o, route, slots, hash, batch, c)
    ensures c.level < |p.caps| && c.slot < p.caps[c.level] && Offset(p.caps, c.level) + c.slot < |slots|
    ensures slots[Offset(p.caps, c.level) + c.slot].None?
  {
    hide NoneVacant, Offset, QueryPosition.Phi;
  }

  lemma NothingHeld(caps: seq<nat>, ctrl: seq<Control>)
    requires |ctrl| == Offset(caps, |caps|) && forall s :: 0 <= s < |ctrl| ==> ctrl[s] == Empty
    ensures Counted(caps, ctrl, seq(|caps|, _ => 0), seq(|caps|, _ => 0))
  {
    hide Lives, Tombs, Offset;
    forall l | 0 <= l < |caps| ensures Lives(Region(caps, ctrl, l)) == 0 && Tombs(Region(caps, ctrl, l)) == 0 {
      EmptyRegion(caps, ctrl, l);
    }
  }

  lemma SlotInside(caps: seq<nat>, level: nat, slot: nat)
    requires level < |caps| && slot < caps[level]
    ensures Offset(caps, level) + slot < Offset(caps, |caps|)
  {
    if level + 1 < |caps| {
      OffsetsOrdered(caps, level, |caps| - 1);
    }
    OffsetGrows(caps, level + 1, |caps|);
  }

  lemma {:induction false} OffsetGrows(caps: seq<nat>, a: nat, b: nat)
    requires a <= b <= |caps|
    ensures Offset(caps, a) <= Offset(caps, b)
    decreases b
  {
    if a < b {
      OffsetGrows(caps, a, b - 1);
    }
  }

  lemma LengthSmall(caps: seq<nat>, level: nat)
    requires level < |caps| && Offset(caps, |caps|) <= U32_LIMIT
    ensures caps[level] <= U32_LIMIT
  {
    OffsetGrows(caps, level + 1, |caps|);
  }

  /** Without saturation the batch ends are the running quota totals. */
  lemma {:induction false} EndsAreTotals(total: nat, quotas: seq<nat>, i: nat)
    requires total + Sum(quotas) < USIZE_LIMIT && i < |quotas|
    ensures i < |Ends(total, quotas)| == |quotas| && Ends(total, quotas)[i] == total + Sum(quotas[..i + 1])
    decreases |quotas|
  {
    var rest := quotas[1..];
    assert quotas[..i + 1][1..] == rest[..i];
    if i > 0 {
      EndsAreTotals(total + quotas[0], rest, i - 1);
    } else {
      EndsSorted(total, quotas);
    }
  }

  lemma PrefixIsActive(quotas: seq<nat>, len: nat, batch: nat)
    requires Sum(quotas) < USIZE_LIMIT && batch < |quotas| && len < Total(quotas, batch + 1)
    requires forall i :: 1 <= i <= batch ==> Total(quotas, i) <= len
    ensures Active(Ends(0, quotas), len, batch) && len < Sum(quotas)
  {
    hide Ends, Total;
    EndsSorted(0, quotas);
    forall i | 0 <= i <= batch ensures Ends(0, quotas)[i] == Total(quotas, i + 1) {
      TotalIsEnd(quotas, i);
    }
    TotalIsEnd(quotas, |quotas| - 1);
    WholeTotal(quotas);
    assert Ends(0, quotas)[batch] <= Ends(0, quotas)[|quotas| - 1];
  }

  lemma TotalIsEnd(quotas: seq<nat>, i: nat)
    requires Sum(quotas) < USIZE_LIMIT && i < |quotas|
    ensures i < |Ends(0, quotas)| == |quotas| && Ends(0, quotas)[i] == Total(quotas, i + 1)
  {
    EndsAreTotals(0, quotas, i);
  }

  lemma WholeTotal(quotas: seq<nat>)
    ensures Total(quotas, |quotas|) == Sum(quotas)
  {
    assert quotas[..|quotas|] == quotas;
  }

  lemma LimitWithinCap(level: nat)
    ensures LevelProbeLimit(level) <= UNIFORM_SEARCH_CAP
  {
    hide LevelProbeLimit, QueryPosition.Phi;
    if LevelProbeLimit(level) > UNIFORM_SEARCH_CAP {
      LevelProbeLimitExact(level, UNIFORM_SEARCH_CAP);
    }
  }

  /** A first vacancy whose position is too large lies past every reachable probe of its level. */
  lemma OutOfReach<K>(route: Router, caps: seq<nat>, slots: seq<Option<K>>, hash: Word, level: nat, found: (nat, nat))
    requires level < |caps| && FirstVacant(route, caps, slots, hash, level, found.0, found.1)
    ensures Position(level, found.1) > QUERY_POSITION_CAP || found.1 >= UNIFORM_SEARCH_CAP ==>
              NoneVacant(route, caps, slots, hash, level, LevelProbeLimit(level))
  {
    hide ScalarProbe, LevelProbeLimit, QueryPosition.Phi;
    LevelProbeLimitExact(level, found.1);
  }

  lemma VacantBelow<K>(route: Router, caps: seq<nat>, slots: seq<Option<K>>, hash: Word, level: nat, found: (nat, nat),
                       limit: nat)
    requires level < |caps| && FirstVacant(route, caps, slots, hash, level, found.0, found.1) && found.1 < limit
    ensures !NoneVacant(route, caps, slots, hash, level, limit)
  {
    hide ScalarProbe;
  }

  // ---- The table against it ----

  /** Free controls are the vacant slots. */
  ghost predicate SameVacancies<K>(ctrl: seq<Control>, slots: seq<Option<K>>)
  {
    |ctrl| == |slots| && forall s :: 0 <= s < |ctrl| ==> (IsFree(ctrl[s]) <==> slots[s].None?)
  }

  lemma VacanciesAgree<K, V>(ctrl: seq<Control>, data: seq<Slot<K, V>>, keys: Keys<K>, at: map<K, nat>,
                             slots: seq<Option<K>>)
    requires Stored(ctrl, data, keys, at) && SameSlots(at, slots) && |ctrl| == |slots|
    ensures SameVacancies(ctrl, slots)
  {
    forall s | 0 <= s < |ctrl| ensures IsFree(ctrl[s]) <==> slots[s].None? {
      if ctrl[s].Full? {
        assert slots[at[data[s].key]] == Some(data[s].key);
      }
    }
  }

  /** The first vacancy of a level is the table's first free probe, under any limit that admits it. */
  lemma FirstAgrees<K>(route: Router, caps: seq<nat>, ctrl: seq<Control>, slots: seq<Option<K>>, hash: Word, level: nat,
                       limit: nat)
    requires level < |caps| && SameVacancies(ctrl, slots)
    ensures forall slot: nat, logical: nat :: logical < limit
                                              && FirstVacant(route, caps, slots, hash, level, slot, logical) ==>
              FirstFree(route, caps, ctrl, hash, level, 0, limit) == Some((slot, logical))
    ensures NoneVacant(route, caps, slots, hash, level, limit) ==>
            FirstFree(route, caps, ctrl, hash, level, 0, limit).None?
  {
    hide Offset;
    FirstFreeFinds(route, caps, ctrl, hash, level, 0, limit);
    assert forall i: nat :: FreeProbe(route, caps, ctrl, hash, level, i) ==
                            ScalarProbe(route, caps, slots, hash, level, i);
  }

  lemma NoneBelow<K>(route: Router, caps: seq<nat>, slots: seq<Option<K>>, hash: Word, level: nat, limit: nat,
                     less: nat)
    requires level < |caps| && NoneVacant(route, caps, slots, hash, level, limit) && less <= limit
    ensures NoneVacant(route, caps, slots, hash, level, less)
  {
    hide ScalarProbe;
  }

  /** The budget a level's free slots give is one number. */
  lemma OneBudget(free: nat, length: nat, d: nat, a: nat, b: nat)
    requires IsDyadic(free, length, d, a) && IsDyadic(free, length, d, b)
    ensures a == b
  {
    hide Pow2;
  }

  /** A scalar choice is within the table's probe limit of its level. */
  lemma WithinLimit<K>(route: Router, caps: seq<nat>, slots: seq<Option<K>>, ctrl: seq<Control>, hash: Word,
                       c: ScalarInsertion)
    requires SameVacancies(ctrl, slots) && c.level < |caps| && c.probe >= 1
             && Position(c.level, c.probe - 1) <= QUERY_POSITION_CAP
    requires FirstVacant(route, caps, slots, hash, c.level, c.slot, c.probe - 1)
    ensures c.probe - 1 < LevelProbeLimit(c.level)
    ensures FirstFree(route, caps, ctrl, hash, c.level, 0, LevelProbeLimit(c.level)) == Some((c.slot, c.probe - 1))
  {
    hide LevelProbeLimit, FirstVacant, QueryPosition.Phi;
    ProbeLimit(c.level, c.probe - 1);
    LevelProbeLimitExact(c.level, c.probe - 1);
    FirstAgrees(route, caps, ctrl, slots, hash, c.level, LevelProbeLimit(c.level));
  }

  /** Case 1: the table's budgeted search turns to the next level exactly when the scalar one does. */
  lemma BudgetAgrees<K, V>(t: Table<K, V>, slots: seq<Option<K>>, hash: Word, current: nat, c: ScalarInsertion,
                           budget: nat)
    requires t.Sound() && SameVacancies(t.ctrl[..], slots) && current < |t.geometry.caps| == |t.levelLen|
    requires c.level < |t.geometry.caps| && c.probe >= 1
             && (c.level == current ==> c.probe - 1 < LevelProbeLimit(current))
    requires FirstVacant(t.env.route, t.geometry.caps, slots, hash, c.level, c.slot, c.probe - 1)
    requires WithinBudget(t.env.route, t.geometry.caps, t.d, slots, hash, current, t.FreeSlots(current), c)
    requires t.IsBudget(budget, current)
    ensures t.FirstFreeOn(hash, current, budget).Some? <==> c.level == current
  {
    hide Table.Sound, LevelProbeLimit, FirstVacant, NoneVacant, FirstFree, Table.FreeSlots, ProbeBudget.IsLogRatio,
         Table.IsBudget;
    var dyadic: nat :| IsDyadic(t.FreeSlots(current), t.geometry.caps[current], t.d, dyadic)
      && (if c.level == current then c.probe <= dyadic
          else c.level == current + 1 && NoneVacant(t.env.route, t.geometry.caps, slots, hash, current, dyadic));
    var k := t.BudgetMeans(budget, current);
    var mine := ELASTIC_PROBE_BUDGET_C * ProbeBudget.Least(k * k, t.d);
    assert IsDyadic(t.FreeSlots(current), t.geometry.caps[current], t.d, mine);
    OneBudget(t.FreeSlots(current), t.geometry.caps[current], t.d, mine, dyadic);
    FirstAgrees(t.env.route, t.geometry.caps, t.ctrl[..], slots, hash, current, budget);
    if c.level != current {
      NoneBelow(t.env.route, t.geometry.caps, slots, hash, current, dyadic, budget);
    }
  }

  /** The target's choice can only be the scalar one. */
  ghost predicate OnlyChoice<K, V>(t: Table<K, V>, hash: Word, target: BatchTarget, c: ScalarInsertion)
    reads t, t.ctrl
    requires |t.levelLen| == |t.geometry.caps|
  {
    forall p: Placement, logical: nat :: t.Chosen(hash, target, p, logical) ==>
      p == Placement(c.level, c.slot, c.phi) && logical + 1 == c.probe
  }

  lemma OneOfTwo<K>(route: Router, caps: seq<nat>, d: nat, slots: seq<Option<K>>, hash: Word, current: nat, free: nat,
                    c: ScalarInsertion)
    requires current < |caps| && WithinBudget(route, caps, d, slots, hash, current, free, c)
    ensures c.level == current || c.level == current + 1
  {
    hide NoneVacant, IsDyadic;
  }

  /** The slot the scalar rules place a key of the batch at is the one the table chooses for the batch's
      target, and the table does not miss it. */
  lemma ChoiceAgrees<K, V>(t: Table<K, V>, slots: seq<Option<K>>, hash: Word, batch: nat, c: ScalarInsertion)
    requires t.Sound() && SameVacancies(t.ctrl[..], slots) && |t.levelLen| == |t.geometry.caps| && |t.geometry.caps| > 0
    requires Places(t.Plan(), t.Occ(), t.env.route, slots, hash, batch, c)
    ensures !t.Stuck(hash, TargetOf(batch)) && OnlyChoice(t, hash, TargetOf(batch), c)
  {
    hide Table.Sound, LevelProbeLimit, FirstVacant, NoneVacant, FirstFree, FreeProbe, QueryPosition.Phi, WithinBudget,
         BudgetIn, HalfReserved;
    var caps, route := t.geometry.caps, t.env.route;
    WithinLimit(route, caps, slots, t.ctrl[..], hash, c);
    if batch > 0 {
      var current := batch - 1;
      t.FreeSlotsExact(current);
      if c.rule.Case1? {
        OneOfTwo(route, caps, t.d, slots, hash, current, t.FreeSlots(current), c);
        forall budget: nat | BudgetIn(t.Seen(), budget, current)
          ensures FirstFreeIn(t.Seen(), hash, current, budget).Some? <==> c.level == current
        {
          BudgetAgrees(t, slots, hash, current, c, budget);
        }
      }
    }
  }

  /** Case 1 with the active pair's current level free first at a probe within the budget of the paper but
      past the level's probe limit. The table cuts the budget at that limit and goes on to the next level;
      the scalar rules do not, and refuse the position. */
  ghost predicate PastLimit<K, V>(t: Table<K, V>, hash: Word)
    reads t, t.scheduler, t.ctrl
  {
    && |t.levelLen| == |t.geometry.caps|
    && exists batch: nat :: Active(t.scheduler.batchEnds, t.len, batch) && batch > 0 && PastLimitOf(t, hash, batch - 1)
  }

  ghost predicate PastLimitOf<K, V>(t: Table<K, V>, hash: Word, current: nat)
    reads t, t.ctrl
    requires |t.levelLen| == |t.geometry.caps|
  {
    && current + 1 < |t.geometry.caps|
    && !CurrentLow(t.Plan(), t.Occ(), current) && !NextLow(t.Plan(), t.Occ(), current + 1)
    && t.FirstFreeOn(hash, current, LevelProbeLimit(current)).None?
    && exists budget: nat :: IsDyadic(t.FreeSlots(current), t.geometry.caps[current], t.d, budget)
                             && t.FirstFreeOn(hash, current, budget).Some?
  }

  /** The table's first free probe under a limit is the scalar table's first vacancy under it. */
  lemma NoneAgrees<K, V>(t: Table<K, V>, slots: seq<Option<K>>, hash: Word, level: nat, limit: nat)
    requires SameVacancies(t.ctrl[..], slots) && level < |t.geometry.caps|
    ensures NoneVacant(t.env.route, t.geometry.caps, slots, hash, level, limit) <==>
            t.FirstFreeOn(hash, level, limit).None?
  {
    hide Offset;
    FirstFreeFinds(t.env.route, t.geometry.caps, t.ctrl[..], hash, level, 0, limit);
    assert forall i: nat :: FreeProbe(t.env.route, t.geometry.caps, t.ctrl[..], hash, level, i) ==
                            ScalarProbe(t.env.route, t.geometry.caps, slots, hash, level, i);
  }

  /** Where the scalar rules find nothing within reach, the table's target is stuck, or its current level is
      free first past the probe limit. */
  lemma BarrenAgrees<K, V>(t: Table<K, V>, slots: seq<Option<K>>, hash: Word, batch: nat)
    requires t.Sound() && SameVacancies(t.ctrl[..], slots) && |t.levelLen| == |t.geometry.caps| && |t.geometry.caps| > 0
    requires Barren(t.Plan(), t.Occ(), t.env.route, slots, hash, batch)
    ensures t.Stuck(hash, TargetOf(batch)) || (batch > 0 && PastLimitOf(t, hash, batch - 1))
  {
    hide Table.Sound, LevelProbeLimit, NoneVacant, FirstFreeIn, IsDyadic, BudgetIn, HalfReserved;
    NoneAgrees(t, slots, hash, batch, LevelProbeLimit(batch));
    if batch > 0 {
      var current := batch - 1;
      NoneAgrees(t, slots, hash, current, LevelProbeLimit(current));
      t.FreeSlotsExact(current);
      if !CurrentLow(t.Plan(), t.Occ(), current) && !NextLow(t.Plan(), t.Occ(), batch) {
        PairAgrees(t, slots, hash, current);
      }
    }
  }

  lemma PairAgrees<K, V>(t: Table<K, V>, slots: seq<Option<K>>, hash: Word, current: nat)
    requires SameVacancies(t.ctrl[..], slots) && current + 1 < |t.geometry.caps| == |t.levelLen|
    requires PairBarren(t.env.route, t.geometry.caps, t.d, slots, hash, current, t.FreeSlots(current))
    ensures (t.FirstFreeOn(hash, current + 1, LevelProbeLimit(current + 1)).None?
             && exists budget: nat :: t.IsBudget(budget, current) && t.FirstFreeOn(hash, current, budget).None?)
            || (t.FirstFreeOn(hash, current, LevelProbeLimit(current)).None?
                && exists budget: nat :: IsDyadic(t.FreeSlots(current), t.geometry.caps[current], t.d, budget)
                                         && t.FirstFreeOn(hash, current, budget).Some?)
  {
    hide LevelProbeLimit, NoneVacant, Table.FirstFreeOn, Table.FreeSlots, ProbeBudget.IsLogRatio;
    var caps, route, free := t.geometry.caps, t.env.route, t.FreeSlots(current);
    var dyadic: nat :| IsDyadic(free, caps[current], t.d, dyadic)
      && (if NoneVacant(route, caps, slots, hash, current, dyadic)
          then NoneVacant(route, caps, slots, hash, current + 1, LevelProbeLimit(current + 1))
          else NoneVacant(route, caps, slots, hash, current, LevelProbeLimit(current)));
    NoneAgrees(t, slots, hash, current, dyadic);
    NoneAgrees(t, slots, hash, current, LevelProbeLimit(current));
    NoneAgrees(t, slots, hash, current + 1, LevelProbeLimit(current + 1));
    if NoneVacant(route, caps, slots, hash, current, dyadic) {
      var k: nat :| ProbeBudget.IsLogRatio(free, caps[current], k)
        && dyadic == ELASTIC_PROBE_BUDGET_C * ProbeBudget.Least(k * k, t.d);
      var budget := ProbeBudget.Least(dyadic, LevelProbeLimit(current));
      t.IsTheBudget(budget, current, k);
      NoneBelow(route, caps, slots, hash, current, dyadic, budget);
      NoneAgrees(t, slots, hash, current, budget);
    }
  }

  /** A choice of the scalar rules is never past the limit. */
  lemma ChoiceIsWithin<K, V>(t: Table<K, V>, slots: seq<Option<K>>, hash: Word, batch: nat, c: ScalarInsertion)
    requires t.Sound() && batch > 0 && SameVacancies(t.ctrl[..], slots) && |t.levelLen| == |t.geometry.caps|
    requires Places(t.Plan(), t.Occ(), t.env.route, slots, hash, batch, c)
    ensures !PastLimitOf(t, hash, batch - 1)
  {
    hide Table.Sound, LevelProbeLimit, NoneVacant, FirstVacant, Table.FirstFreeOn, IsDyadic, HalfReserved,
         QueryPosition.Phi;
    var current := batch - 1;
    if PastLimitOf(t, hash, current) {
      t.FreeSlotsExact(current);
      var caps, route, free := t.geometry.caps, t.env.route, t.FreeSlots(current);
      var past: nat :| IsDyadic(free, caps[current], t.d, past) && t.FirstFreeOn(hash, current, past).Some?;
      var budget: nat :| IsDyadic(free, caps[current], t.d, budget)
        && (if c.level == current then c.probe <= budget
            else c.level == current + 1 && NoneVacant(route, caps, slots, hash, current, budget));
      OneBudget(free, caps[current], t.d, past, budget);
      NoneAgrees(t, slots, hash, current, past);
      NoneAgrees(t, slots, hash, current, LevelProbeLimit(current));
      if c.level == current {
        ProbeLimit(current, c.probe - 1);
        LevelProbeLimitExact(current, c.probe - 1);
        VacantBelow(route, caps, slots, hash, current, (c.slot, c.probe - 1), LevelProbeLimit(current));
      }
      assert false;
    }
  }

  /** Only the active batch decides. */
  lemma OnlyActive<K, V>(t: Table<K, V>, hash: Word, batch: nat)
    requires NonDecreasing(t.scheduler.batchEnds) && Active(t.scheduler.batchEnds, t.len, batch)
             && |t.levelLen| == |t.geometry.caps|
    ensures t.StuckActive(hash) <==> t.Stuck(hash, TargetOf(batch))
    ensures PastLimit(t, hash) <==> batch > 0 && PastLimitOf(t, hash, batch - 1)
  {
    hide Table.Stuck, Active, PastLimitOf;
    forall index: nat | Active(t.scheduler.batchEnds, t.len, index) ensures index == batch {
      ActiveUnique(t.scheduler.batchEnds, t.len, batch, index);
    }
  }

  /** The same levels, quotas, reserve and routing, every key in the same slot, and the insert-only shape
      of the batch plan. */
  ghost predicate Mirrors<K, V>(table: Table<K, V>, scalar: ScalarElastic<K>)
    reads table, table.scheduler, table.ctrl, table.data, table.filter, scalar, scalar.occupancy, scalar.slots
  {
    && table.Valid() && scalar.Valid() && table.geometry.slots >= 2 && !table.exceptional
    && scalar.caps == table.geometry.caps && scalar.quotas == table.geometry.quotas && scalar.d == table.d
    && scalar.route == table.env.route && scalar.Occ() == table.Occ() && SameSlots(table.at, scalar.slots[..])
    && QuotasDefined(None, table.geometry.caps, table.d) && table.InSomeBatch()
  }

  lemma MirrorFacts<K, V>(table: Table<K, V>, scalar: ScalarElastic<K>)
    requires Mirrors(table, scalar)
    ensures table.Valid() && table.Sound() && scalar.Valid() && table.M().Keys == table.at.Keys
            && Intact(table.env, table.Snap())
    ensures |table.levelLen| == |table.geometry.caps| > 0 && scalar.caps == table.geometry.caps
            && scalar.route == table.env.route
    ensures scalar.Plan() == table.Plan() && scalar.Occ() == table.Occ()
            && table.scheduler.batchEnds == Ends(0, scalar.quotas)
    ensures NonDecreasing(table.scheduler.batchEnds)
    ensures SameVacancies(table.ctrl[..], scalar.slots[..]) && SameSlots(table.at, scalar.slots[..])
    ensures forall key :: key in table.at <==> Some(key) in scalar.slots[..]
  {
    hide Inv, Intact, Table.Valid, Table.Sound, Table.M, IsGeometry, Counted, InBatch, SoundRouter, Offset;
    table.Facts();
    GeometryFits(table.geometry, table.d);
    StoredOf(table.env, table.Snap());
    VacanciesAgree(table.ctrl[..], table.data[..], table.env.keys, table.at, scalar.slots[..]);
    forall key ensures key in table.at <==> Some(key) in scalar.slots[..] {
      if key in table.at {
        assert scalar.slots[..][table.at[key]] == Some(key);
      }
    }
  }

  lemma StoredOf<K, V>(env: Env<K>, st: State<K, V>)
    requires Intact(env, st)
    ensures Stored(st.ctrl, st.data, env.keys, st.at)
  {
    hide Stored, Counted, EntriesRouted, SoundEnv;
  }

  /** In the shape of a batch, the active pair is never low on both levels. */
  lemma NeverBothLow(p: EpochPlan, o: Occupancy, some: nat, batch: nat)
    requires ValidPlan(p) && InBatch(p, o, some) && o.len < p.budget && Active(BatchEnds(p), o.len, batch)
             && 0 < batch < |p.caps|
    ensures !(CurrentLow(p, o, batch - 1) && NextLow(p, o, batch))
  {
    hide InBatch, CurrentLow, NextLow, QuotasDefined, AllPositive, Active;
    var open := OpenOne(p, o, some);
    OpenIsBatch(p, o, open);
    ActiveWindow(p, o.len, open, batch);
    OpenBatch(p, o, open);
  }

  lemma OpenIsBatch(p: EpochPlan, o: Occupancy, open: nat)
    requires QuotasDefined(None, p.caps, p.d) && InBatch(p, o, open)
    ensures open < |p.caps|
  {
  }

  /** The table is where the scalar rules can place a key of the active batch. */
  ghost predicate Placeable<K, V>(t: Table<K, V>, key: K, slots: seq<Option<K>>, batch: nat, c: ScalarInsertion)
    reads t, t.scheduler, t.ctrl, t.data, t.filter
  {
    && t.Valid() && t.Sound() && key !in t.M() && t.len < t.geometry.maxInsertions && !t.exceptional
    && |t.levelLen| == |t.geometry.caps| > 0 && SameVacancies(t.ctrl[..], slots)
    && NonDecreasing(t.scheduler.batchEnds) && Active(t.scheduler.batchEnds, t.len, batch)
    && Places(t.Plan(), t.Occ(), t.env.route, slots, t.env.keys.hash(key), batch, c)
  }

  lemma NotStuck<K, V>(table: Table<K, V>, hash: Word, batch: nat)
    requires NonDecreasing(table.scheduler.batchEnds) && Active(table.scheduler.batchEnds, table.len, batch)
    requires |table.levelLen| == |table.geometry.caps| && !table.Stuck(hash, TargetOf(batch))
    ensures !table.StuckActive(hash)
  {
    hide Table.Stuck, Active;
    forall index: nat | Active(table.scheduler.batchEnds, table.len, index) ensures index == batch {
      ActiveUnique(table.scheduler.batchEnds, table.len, batch, index);
    }
  }

  lemma ChosenOnce<K, V>(t: Table<K, V>, key: K, slots: seq<Option<K>>, batch: nat, c: ScalarInsertion)
    requires Placeable(t, key, slots, batch, c)
    ensures |t.levelLen| == |t.geometry.caps| && !t.StuckActive(t.env.keys.hash(key))
            && t.len < t.geometry.maxInsertions
    ensures forall index: nat, p: Placement, logical: nat ::
              Active(t.scheduler.batchEnds, t.len, index)
                && t.Chosen(t.env.keys.hash(key), TargetOf(index), p, logical) ==>
                p.level == c.level && p.slot == c.slot
  {
    hide Table.Valid, Table.Sound, Table.M, Table.StuckActive, Table.Stuck, Table.Chosen, Active, Places,
         SameVacancies;
    ChoiceAgrees(t, slots, t.env.keys.hash(key), batch, c);
    NotStuck(t, t.env.keys.hash(key), batch);
    forall index: nat | Active(t.scheduler.batchEnds, t.len, index) ensures index == batch {
      ActiveUnique(t.scheduler.batchEnds, t.len, batch, index);
    }
  }

  /** The table's side of an accepted insertion: the key lands where the scalar rules put it. */
  method Land<K, V>(table: Table<K, V>, key: K, value: V, ghost slots: seq<Option<K>>, ghost batch: nat,
                    ghost c: ScalarInsertion)
      returns (ghost level: nat)
    requires Placeable(table, key, slots, batch, c)
    modifies table, table.scheduler, table.ctrl, table.data, table.filter
    ensures table.Valid() && table.M() == old(table.M())[key := value] && table.LandedOn(level)
    ensures table.SameArena(old(table.geometry), old(table.scheduler), old(table.ctrl), old(table.data),
                            old(table.filter))
    ensures c.level < |table.geometry.caps|
    ensures Landed(old(table.Snap()), table.Snap(), c.level, Offset(table.geometry.caps, c.level) + c.slot, key)
  {
    hide Table.Valid, Table.Sound, Table.M, Table.StuckActive, Table.Chosen, Active, Places, Offset, SameVacancies,
         Wrote, Table.LandedOn, Landed, Table.Carried, Table.StoredTwice, Table.Recording, Put, Findable,
         Table.Inserts;
    ChosenOnce(table, key, slots, batch, c);
    ghost var before := table.Snap();
    var inserted;
    ghost var landed, grown, mid, seat;
    inserted, landed, grown, mid, seat := table.Insert(key, value, 0);
    level := landed.value;
    ghost var index: nat, slot: nat :| old(Active(table.scheduler.batchEnds, table.len, index))
      && table.PlacedBy(table.env.keys.hash(key), key, value, TargetOf(index), Location(level, slot));
    ghost var phi: nat, logical: nat :|
        old(table.Chosen(table.env.keys.hash(key), TargetOf(index), Placement(level, slot, phi), logical));
    WroteAt(table.env, before, table.Snap(), level, Offset(table.geometry.caps, level) + slot, key, value);
  }

  /** The key is at this slot, counted on this level. */
  ghost predicate Landed<K, V>(before: State<K, V>, after: State<K, V>, level: nat, s: nat, key: K)
  {
    && level < |before.levelLen| && after.at == before.at[key := s] && after.exceptional == before.exceptional
    && after.levelLen == before.levelLen[level := before.levelLen[level] + 1] && after.len == before.len + 1
  }

  lemma WroteAt<K, V>(env: Env<K>, before: State<K, V>, after: State<K, V>, level: nat, s: nat, key: K, value: V)
    requires Wrote(env, before, after, level, s, key, value)
    ensures Landed(before, after, level, s, key)
  {
    hide SummaryLevel;
  }

  /** An accepted insertion mirrored: both tables hold the key in the same slot. */
  lemma MirrorsAfter<K, V>(table: Table<K, V>, scalar: ScalarElastic<K>, before: State<K, V>, was: seq<Option<K>>,
                           o: Occupancy, key: K, c: ScalarInsertion)
    requires table.Valid() && scalar.Valid() && table.geometry.slots >= 2 && !before.exceptional
    requires scalar.caps == table.geometry.caps && scalar.quotas == table.geometry.quotas && scalar.d == table.d
    requires scalar.route == table.env.route && QuotasDefined(None, table.geometry.caps, table.d) && table.InSomeBatch()
    requires SameSlots(before.at, was) && Some(key) !in was && o == Occupancy(before.levelLen, before.len)
    requires scalar.Taken(was, o, key, c)
    requires Landed(before, table.Snap(), c.level, Offset(table.geometry.caps, c.level) + c.slot, key)
    ensures Mirrors(table, scalar)
  {
    hide Table.Valid, ScalarElastic.Valid, InBatch, QuotasDefined, Offset;
    var s := Offset(table.geometry.caps, c.level) + c.slot;
    forall k | k in table.at ensures table.at[k] < |scalar.slots[..]| && scalar.slots[..][table.at[k]] == Some(k) {
      assert k != key ==> before.at[k] != s;
    }
  }

  /** Inserts one entry into both. Whatever the scalar table accepts, the table places in the same slot of
      the same level; and the scalar table never finds both active levels low. When no draw of the key's
      hash fails, the scalar table accepts an absent key exactly when there is room, the table's active target
      is not stuck, and the current level is not free first past its probe limit. */
  method InsertBoth<K, V>(table: Table<K, V>, scalar: ScalarElastic<K>, key: K, value: V)
      returns (r: Result<ScalarInsertion, Refusal>)
    requires Mirrors(table, scalar)
    modifies table, table.scheduler, table.ctrl, table.data, table.filter, scalar, scalar.occupancy, scalar.slots
    ensures Mirrors(table, scalar)
    ensures table.SameArena(old(table.geometry), old(table.scheduler), old(table.ctrl), old(table.data),
                            old(table.filter))
    ensures r == Err(AlreadyHeld) <==> key in old(table.at)
    ensures r == Err(TargetExhausted) ==> table.len >= table.geometry.maxInsertions
    ensures r != Err(BothLow)
    ensures r.Ok? ==> r.value.level < |table.geometry.caps| && table.M() == old(table.M())[key := value]
                      && table.at == old(table.at)[key := Offset(table.geometry.caps, r.value.level) + r.value.slot]
    ensures r.Err? ==> table.at == old(table.at) && table.M() == old(table.M())
    ensures var hash := table.env.keys.hash(key);
            AllDraws(table.env.route, old(table.geometry.caps), hash) ==>
              (r.Ok? <==> key !in old(table.at) && old(table.len < table.geometry.maxInsertions)
                          && !old(table.StuckActive(hash)) && !old(PastLimit(table, hash)))
    ensures r.Err? && NoSlot(r.error) && AllDraws(table.env.route, table.geometry.caps, table.env.keys.hash(key)) ==>
              table.StuckActive(table.env.keys.hash(key)) || PastLimit(table, table.env.keys.hash(key))
    ensures table.len == old(table.len) + (if r.Ok? then 1 else 0)
  {
    hide Table.Valid, Table.Sound, Table.M, Table.InSomeBatch, ScalarElastic.Valid, ScalarElastic.Taken, Active,
         Places, Offset, SameVacancies, Ends, CurrentLow, NextLow, QuotasDefined, ValidPlan, Intact, Table.LandedOn,
         Table.StuckActive, PastLimit, AllDraws, Barren;
    MirrorFacts(table, scalar);
    ghost var was, before := scalar.slots[..], table.Snap();
    ghost var batch;
    r, batch := scalar.Insert(key, table.env.keys.hash(key));
    if r == Err(BothLow) {
      PairNotLow(table, batch);
    } else if r.Ok? {
      AcceptedMeans(table, was, table.env.keys.hash(key), batch, r.value);
    } else if NoSlot(r.error) && AllDraws(table.env.route, table.geometry.caps, table.env.keys.hash(key)) {
      RefusedMeans(table, was, table.env.keys.hash(key), batch);
    }
    if r.Ok? {
      label Placing:
      ghost var level := Land(table, key, value, was, batch, r.value);
      table.LandingKeepsEpoch@Placing(level);
      MirrorsAfter(table, scalar, before, was, Occupancy(before.levelLen, before.len), key, r.value);
    }
  }

  lemma AcceptedMeans<K, V>(t: Table<K, V>, slots: seq<Option<K>>, hash: Word, batch: nat, c: ScalarInsertion)
    requires t.Sound() && SameVacancies(t.ctrl[..], slots) && |t.levelLen| == |t.geometry.caps| && |t.geometry.caps| > 0
    requires NonDecreasing(t.scheduler.batchEnds) && Active(t.scheduler.batchEnds, t.len, batch)
    requires Places(t.Plan(), t.Occ(), t.env.route, slots, hash, batch, c)
    ensures !t.StuckActive(hash) && !PastLimit(t, hash)
  {
    hide Table.Sound, Table.Stuck, Table.StuckActive, PastLimit, PastLimitOf, Active, Places, SameVacancies;
    OnlyActive(t, hash, batch);
    ChoiceAgrees(t, slots, hash, batch, c);
    if batch > 0 {
      ChoiceIsWithin(t, slots, hash, batch, c);
    }
  }

  lemma RefusedMeans<K, V>(t: Table<K, V>, slots: seq<Option<K>>, hash: Word, batch: nat)
    requires t.Sound() && SameVacancies(t.ctrl[..], slots) && |t.levelLen| == |t.geometry.caps| && |t.geometry.caps| > 0
    requires NonDecreasing(t.scheduler.batchEnds) && Active(t.scheduler.batchEnds, t.len, batch)
    requires Barren(t.Plan(), t.Occ(), t.env.route, slots, hash, batch)
    ensures t.StuckActive(hash) || PastLimit(t, hash)
  {
    hide Table.Sound, Table.Stuck, Table.StuckActive, PastLimit, PastLimitOf, Active, Barren, SameVacancies;
    OnlyActive(t, hash, batch);
    BarrenAgrees(t, slots, hash, batch);
  }

  lemma PairNotLow<K, V>(table: Table<K, V>, batch: nat)
    requires table.Valid() && table.geometry.slots >= 2 && QuotasDefined(None, table.geometry.caps, table.d)
             && table.InSomeBatch()
    requires table.scheduler.batchEnds == Ends(0, table.geometry.quotas)
             && Active(table.scheduler.batchEnds, table.len, batch)
    requires 0 < batch < |table.geometry.caps| == |table.levelLen| && table.len < table.geometry.maxInsertions
    ensures !(CurrentLow(table.Plan(), table.Occ(), batch - 1) && NextLow(table.Plan(), table.Occ(), batch))
  {
    hide Inv, Table.Sound, CurrentLow, NextLow, InBatch, Active, ValidPlan, Ends, LevelLengthsOf, Quotas;
    table.PlanValid();
    var some: nat :| InBatch(table.Plan(), table.Occ(), some);
    NeverBothLow(table.Plan(), table.Occ(), some, batch);
  }

  /** Any run of insertions into an empty table: as far as the scalar table takes it, both hold every key in
      the same slot, and the table stands for the run's bindings. The run stops early only at an entry
      the scalar table refuses, which is never because both active levels are low; and if no draw of the
      entry's hash fails, never while the table has a slot for it through its active target, unless that lies
      past a probe limit. */
  method InsertRun<K(==), V>(env: Env<K>, d: nat, g: Geometry, entries: seq<(K, V)>)
      returns (table: Table<K, V>, scalar: ScalarElastic<K>, taken: nat, refusal: Option<Refusal>)
    requires SoundEnv(env) && 1 <= d < U32_LIMIT && IsGeometry(g, d) && g.slots >= 2
    ensures taken <= |entries| && Mirrors(table, scalar) && table.M() == Bound(entries[..taken]) && table.geometry == g
    ensures refusal.None? ==> taken == |entries|
    ensures refusal.Some? ==> taken < |entries| && refusal.value != BothLow
    ensures refusal == Some(AlreadyHeld) ==> entries[taken].0 in table.at
    ensures refusal == Some(TargetExhausted) ==> taken >= g.maxInsertions
    ensures refusal.Some? && NoSlot(refusal.value) && AllDraws(env.route, g.caps, env.keys.hash(entries[taken].0)) ==>
              table.StuckActive(env.keys.hash(entries[taken].0)) || PastLimit(table, env.keys.hash(entries[taken].0))
  {
    hide IsGeometry, SoundRouter, Table.Valid, Table.M, ScalarElastic.Valid, Mirrors, Table.StuckActive, PastLimit,
         AllDraws;
    table := new Table.FromGeometry(env, d, g);
    scalar := new ScalarElastic(g, d, env.route);
    EmptyMirrors(table, scalar);
    taken, refusal := 0, None;
    while taken < |entries|
      invariant taken <= |entries| && Mirrors(table, scalar) && table.M() == Bound(entries[..taken])
                && table.len == taken && table.env == env
      invariant fresh(table) && fresh(table.Repr()) && fresh(scalar) && fresh(scalar.slots) && fresh(scalar.occupancy)
      invariant table.geometry == g
    {
      assert entries[..taken + 1][..taken] == entries[..taken];
      var r := InsertBoth(table, scalar, entries[taken].0, entries[taken].1);
      if r.Err? {
        return table, scalar, taken, Some(r.error);
      }
      taken := taken + 1;
    }
    assert entries[..taken] == entries;
  }

  lemma EmptyMirrors<K, V>(table: Table<K, V>, scalar: ScalarElastic<K>)
    requires table.Valid() && table.M() == map[] && table.len == 0
             && table.levelLen == seq(|table.geometry.caps|, _ => 0)
    requires table.geometry.slots >= 2 && !table.exceptional
    requires scalar.Valid() && scalar.caps == table.geometry.caps && scalar.quotas == table.geometry.quotas
             && scalar.d == table.d
    requires scalar.route == table.env.route && scalar.len == 0
             && scalar.occupancy[..] == seq(|table.geometry.caps|, _ => 0)
    requires forall s :: 0 <= s < scalar.slots.Length ==> scalar.slots[s] == None
    ensures Mirrors(table, scalar)
  {
    hide Table.Valid, Table.M, ScalarElastic.Valid;
    table.PlanValid();
    table.KeysOfMap();
    assert table.at.Keys == {};
    assert InBatch(table.Plan(), table.Occ(), 0);
  }

  /** A probe that leads to the key's slot is met at its position, so the walk has ended by then. */
  lemma MetByThen<K>(route: Router, caps: seq<nat>, slots: seq<Option<K>>, hash: Word, key: K, high: nat, s: nat,
                     level: nat, logical: nat)
    requires RouteAt(route, caps, hash, high, s, level, logical) && s < |slots| && slots[s] == Some(key)
             && high <= QUERY_POSITION_CAP
    ensures 1 <= Position(level, logical) <= QUERY_POSITION_CAP
            && !Misses(route, caps, slots, hash, key, Position(level, logical))
  {
    hide Offset, QueryPosition.Phi;
    FirstPosition();
    QueryPosition.CodeOfPhi(level + 1, logical + 1);
    assert Names(caps, Position(level, logical), level, logical);
  }

  /** Every reachable probe that leads to a stored key is met by the scalar walk, and there is one. */
  lemma MetOnWalk<K, V>(table: Table<K, V>, scalar: ScalarElastic<K>, key: K)
    requires Mirrors(table, scalar) && key in table.at
    ensures OnRoute(table.env.route, table.geometry.caps, table.env.keys.hash(key), table.highWater, table.at[key])
    ensures forall level: nat, logical: nat ::
              RouteAt(table.env.route, table.geometry.caps, table.env.keys.hash(key), table.highWater, table.at[key],
                      level, logical) ==>
                1 <= Position(level, logical) <= QUERY_POSITION_CAP
                && !Misses(table.env.route, table.geometry.caps, scalar.slots[..], table.env.keys.hash(key), key,
                           Position(level, logical))
  {
    hide Table.Valid, Table.Sound, Table.M, ScalarElastic.Valid, Table.Occ, Misses, RouteAt, Offset, QueryPosition.Phi,
         QuotasDefined, Table.InSomeBatch;
    MirrorFacts(table, scalar);
    table.ScheduleIs();
    RoutedOf(table.env, table.Snap(), key);
    forall level: nat, logical: nat |
      RouteAt(table.env.route, table.geometry.caps, table.env.keys.hash(key), table.highWater, table.at[key], level,
              logical)
      ensures 1 <= Position(level, logical) <= QUERY_POSITION_CAP
      ensures !Misses(table.env.route, table.geometry.caps, scalar.slots[..], table.env.keys.hash(key), key,
                      Position(level, logical))
    {
      MetByThen(table.env.route, table.geometry.caps, scalar.slots[..], table.env.keys.hash(key), key, table.highWater,
                table.at[key], level, logical);
    }
  }

  lemma RoutedOf<K, V>(env: Env<K>, st: State<K, V>, key: K)
    requires Intact(env, st) && !st.exceptional && key in st.at
    ensures OnRoute(env.route, st.caps, env.keys.hash(key), st.highWater, st.at[key])
  {
    hide OnRoute, Stored, Counted, SoundEnv;
  }

  /** Looks a key up in both. The scalar walk over all query positions finds the slot the table finds, at
      or before the position of every reachable probe that leads there; short of a failed draw, it
      never misses a key the table holds. */
  method QueryBoth<K, V>(table: Table<K, V>, scalar: ScalarElastic<K>, key: K)
      returns (r: QueryResult, found: Option<Location>)
    requires Mirrors(table, scalar)
    ensures (found.Some? ==> table.InLevel(found.value)) && (found.Some? <==> key in table.at)
    ensures key in table.at ==> !r.NotFound?
    ensures r.FoundAt? ==> key in table.at && r.slot == table.at[key] && table.FlatOf(found) == Some(r.slot)
    ensures r.FoundAt? ==> forall level: nat, logical: nat ::
              RouteAt(table.env.route, table.geometry.caps, table.env.keys.hash(key), table.highWater, r.slot, level,
                      logical) ==>
                r.position <= Position(level, logical)
  {
    hide Table.Valid, Table.Sound, Table.M, ScalarElastic.Valid, Misses, RouteAt, Offset, QueryPosition.Phi, FullScan,
         Findable, Intact, SameVacancies, QuotasDefined, Table.InSomeBatch, Mirrors;
    MirrorFacts(table, scalar);
    table.Present(key);
    found := table.Find(key);
    r := scalar.Query(key, table.env.keys.hash(key));
    if key in table.at {
      MetOnWalk(table, scalar, key);
    }
  }
}
