/** Where the Elastic table places a key, on values: the choice of each batch target, the order in which targets
    are tried, and what a rebuild builds, entry by entry. */
module ElasticPlacement {
  import opened Arith
  import opened Controls
  import opened Wrappers
  import opened Store
  import opened Membership
  import opened ElasticPlan
  import opened ElasticBatches
  import opened ElasticSchedule
  import opened ElasticState
  import ProbeBudget

  const ELASTIC_PROBE_BUDGET_C: nat := 8

  /** A chosen free slot and the query position that leads to it. */
  datatype Placement = Placement(level: nat, slot: nat, phi: nat)

  /** What one probe of a level yields: the slot it maps to, when that slot is free. */
  function FreeProbe(route: Router, caps: seq<nat>, ctrl: seq<Control>, hash: Word, level: nat,
                     logical: nat): Option<nat>
    requires level < |caps|
  {
    match route(hash, level, logical, caps[level])
    case None => None
    case Some(slot) =>
      if Offset(caps, level) + slot < |ctrl| && IsFree(ctrl[Offset(caps, level) + slot]) then Some(slot) else None
  }

  /** First probe below `limit`, from `from` on, that yields a free slot. */
  function FirstFree(route: Router, caps: seq<nat>, ctrl: seq<Control>, hash: Word, level: nat, from: nat,
                     limit: nat): Option<(nat, nat)>
    requires level < |caps|
    decreases limit - from
  {
    if from >= limit then None
    else match FreeProbe(route, caps, ctrl, hash, level, from)
      case Some(slot) => Some((slot, from))
      case None => FirstFree(route, caps, ctrl, hash, level, from + 1, limit)
  }

  lemma {:induction false} FirstFreeFinds(route: Router, caps: seq<nat>, ctrl: seq<Control>, hash: Word, level: nat,
                                          from: nat, limit: nat)
    requires level < |caps|
    ensures var r := FirstFree(route, caps, ctrl, hash, level, from, limit);
            && (r.Some? ==> from <= r.value.1 < limit
                            && FreeProbe(route, caps, ctrl, hash, level, r.value.1) == Some(r.value.0))
            && (r.Some? ==> forall i: nat :: from <= i < r.value.1 ==>
                                               FreeProbe(route, caps, ctrl, hash, level, i).None?)
            && (r.None? ==> forall i: nat :: from <= i < limit ==> FreeProbe(route, caps, ctrl, hash, level, i).None?)
    decreases limit - from
  {
    hide FreeProbe;
    if from < limit && FreeProbe(route, caps, ctrl, hash, level, from).None? {
      FirstFreeFinds(route, caps, ctrl, hash, level, from + 1, limit);
    }
  }

  /** A free slot that some probe under the caps leads to, at that probe's query position. */
  ghost predicate Routes(route: Router, caps: seq<nat>, ctrl: seq<Control>, hash: Word, p: Placement, logical: nat)
  {
    && p.level < |caps| && logical < LevelProbeLimit(p.level)
    && FreeProbe(route, caps, ctrl, hash, p.level, logical) == Some(p.slot)
    && p.phi == Position(p.level, logical) <= QUERY_POSITION_CAP
  }

  lemma {:induction false} FirstFreeWider(route: Router, caps: seq<nat>, ctrl: seq<Control>, hash: Word, level: nat,
                                          from: nat, limit: nat, wider: nat)
    requires level < |caps| && limit <= wider && FirstFree(route, caps, ctrl, hash, level, from, limit).Some?
    ensures FirstFree(route, caps, ctrl, hash, level, from, wider) ==
            FirstFree(route, caps, ctrl, hash, level, from, limit)
    decreases limit - from
  {
    hide FreeProbe;
    if from < limit && FreeProbe(route, caps, ctrl, hash, level, from).None? {
      FirstFreeWider(route, caps, ctrl, hash, level, from + 1, limit, wider);
    }
  }

  // ---- The choice of a target ----

  /** What placement reads of a table. */
  datatype View = View(route: Router, plan: EpochPlan, occ: Occupancy, ctrl: seq<Control>)

  function ViewOf<K, V>(env: Env<K>, d: nat, st: State<K, V>): View
  {
    View(env.route, EpochPlan(st.caps, d, st.maxInsertions), Occupancy(st.levelLen, st.len), st.ctrl)
  }

  ghost predicate Leveled(v: View)
  {
    |v.occ.levels| == |v.plan.caps|
  }

  function FreeCount(caps: seq<nat>, lens: seq<nat>, level: nat): nat
    requires level < |caps| && level < |lens|
  {
    if caps[level] >= lens[level] then caps[level] - lens[level] else 0
  }

  function FirstFreeIn(v: View, hash: Word, level: nat, limit: nat): Option<(nat, nat)>
    requires level < |v.plan.caps|
  {
    FirstFree(v.route, v.plan.caps, v.ctrl, hash, level, 0, limit)
  }

  /** The probe budget Case 1 gives the current level. */
  ghost predicate BudgetIn(v: View, budget: nat, current: nat)
    requires current < |v.plan.caps| && current < |v.occ.levels|
  {
    exists k: nat ::
      && ProbeBudget.IsLogRatio(FreeCount(v.plan.caps, v.occ.levels, current), v.plan.caps[current], k)
      && budget == ProbeBudget.Least(ELASTIC_PROBE_BUDGET_C * ProbeBudget.Least(k * k, v.plan.d),
                                     LevelProbeLimit(current))
  }

  /** `choose_slot_for_new_key` for a target: the level the paper's cases allow, at its first free
      probe; Case 1 falls through to the next level only after the current one's budget. */
  ghost predicate ChosenIn(v: View, hash: Word, target: BatchTarget, p: Placement, logical: nat)
    requires Leveled(v)
  {
    && Routes(v.route, v.plan.caps, v.ctrl, hash, p, logical)
    && FirstFreeIn(v, hash, p.level, LevelProbeLimit(p.level)) == Some((p.slot, logical))
    && Allowed(v.plan, v.occ, target, p.level)
    && (target.LevelPair? && !CurrentLow(v.plan, v.occ, target.current)
        && !NextLow(v.plan, v.occ, target.current + 1) ==>
          exists budget: nat :: BudgetIn(v, budget, target.current)
            && (p.level == target.current <==> FirstFreeIn(v, hash, target.current, budget).Some?))
  }

  /** No slot for a target: the levels it would use have no free probe within their limits. */
  ghost predicate StuckIn(v: View, hash: Word, target: BatchTarget)
    requires Leveled(v)
  {
    match target
    case Bootstrap => |v.plan.caps| == 0 || FirstFreeIn(v, hash, 0, LevelProbeLimit(0)).None?
    case LevelPair(current) =>
      || current + 1 >= |v.plan.caps|
      || (if CurrentLow(v.plan, v.occ, current) then
            FirstFreeIn(v, hash, current + 1, LevelProbeLimit(current + 1)).None?
          else if NextLow(v.plan, v.occ, current + 1) then FirstFreeIn(v, hash, current, LevelProbeLimit(current)).None?
          else FirstFreeIn(v, hash, current + 1, LevelProbeLimit(current + 1)).None?
               && exists budget: nat :: BudgetIn(v, budget, current) && FirstFreeIn(v, hash, current, budget).None?)
  }

  predicate RoomIn(caps: seq<nat>, lens: seq<nat>, target: BatchTarget)
    requires |lens| == |caps|
  {
    match target
    case Bootstrap => 0 < |caps| && FreeCount(caps, lens, 0) > 0
    case LevelPair(current) =>
      || (current < |caps| && FreeCount(caps, lens, current) > 0)
      || (current + 1 < |caps| && FreeCount(caps, lens, current + 1) > 0)
  }

  /** The active batch of a view's live count. */
  ghost predicate ActiveIn(v: View, index: nat)
  {
    QuotasDefined(None, v.plan.caps, v.plan.d) && Active(BatchEnds(v.plan), v.occ.len, index)
  }

  /** A level's log ratio is unique, so its budget is. */
  lemma OneBudgetIn(v: View, a: nat, b: nat, current: nat)
    requires current < |v.plan.caps| && current < |v.occ.levels|
    requires BudgetIn(v, a, current) && BudgetIn(v, b, current)
    ensures a == b
  {
  }

  /** A target that chooses a slot is not stuck. */
  lemma ChosenNotStuck(v: View, hash: Word, target: BatchTarget, p: Placement, logical: nat)
    requires Leveled(v) && ChosenIn(v, hash, target, p, logical)
    ensures !StuckIn(v, hash, target)
  {
    hide BudgetIn, FirstFreeIn, LevelProbeLimit, HalfReserved;
    if target.LevelPair? && !CurrentLow(v.plan, v.occ, target.current) && !NextLow(v.plan, v.occ, target.current + 1) {
      var budget: nat :| BudgetIn(v, budget, target.current)
        && (p.level == target.current <==> FirstFreeIn(v, hash, target.current, budget).Some?);
      forall other: nat | BudgetIn(v, other, target.current) ensures other == budget {
        OneBudgetIn(v, other, budget, target.current);
      }
    }
  }

  lemma OneActive(v: View, a: nat, b: nat)
    requires ActiveIn(v, a) && ActiveIn(v, b)
    ensures a == b
  {
    hide Ends, Quotas, Active;
    EndsSorted(0, Quotas(None, v.plan.caps, v.plan.budget, v.plan.d));
    ActiveUnique(BatchEnds(v.plan), v.occ.len, a, b);
  }

  // ---- Seats ----

  /** A slot of the arena, the query position that led to it, and whether it lies outside the key's routes. */
  datatype Seat = Seat(slot: nat, phi: nat, outside: bool)

  /** The slot a target chooses. */
  ghost predicate Through(v: View, hash: Word, target: BatchTarget, seat: Seat)
  {
    Leveled(v) && exists p: Placement, logical: nat ::
      && p.level < |v.plan.caps| && ChosenIn(v, hash, target, p, logical)
      && seat == Seat(Offset(v.plan.caps, p.level) + p.slot, p.phi, false)
  }

  /** The first free slot of the arena, outside the key's routes. */
  ghost predicate Outside(v: View, seat: Seat)
  {
    && seat == Seat(seat.slot, 0, true) && seat.slot < |v.ctrl| && IsFree(v.ctrl[seat.slot])
    && forall s: nat :: s < seat.slot ==> !IsFree(v.ctrl[s])
  }

  /** The active target has no slot for the hash. */
  ghost predicate ActiveStuck(v: View, hash: Word)
  {
    Leveled(v) && exists index: nat :: ActiveIn(v, index) && StuckIn(v, hash, TargetOf(index))
  }

  /** The active target has a slot for the hash, and this is it. */
  ghost predicate ThroughActive(v: View, hash: Word, seat: Seat)
  {
    exists index: nat :: ActiveIn(v, index) && Through(v, hash, TargetOf(index), seat)
  }

  /** None of the first `upto` targets, but for the active one, has room and a slot for the hash. */
  ghost predicate OthersStuck(v: View, hash: Word, active: BatchTarget, upto: nat)
  {
    Leveled(v) && forall i: nat ::
      i < upto && TargetOf(i) != active && RoomIn(v.plan.caps, v.occ.levels, TargetOf(i)) ==>
        StuckIn(v, hash, TargetOf(i))
  }

  /** The first other target with room that has a slot, and this is it. */
  ghost predicate ThroughOther(v: View, hash: Word, active: BatchTarget, seat: Seat)
  {
    exists i: nat ::
      && i < Larger(|v.plan.caps|, 1) && TargetOf(i) != active && OthersStuck(v, hash, active, i)
      && RoomIn(v.plan.caps, v.occ.levels, TargetOf(i)) && Through(v, hash, TargetOf(i), seat)
  }

  /** No target has a slot: neither the active one nor any other with room. */
  ghost predicate AllStuck(v: View, hash: Word)
  {
    Leveled(v) && exists index: nat :: ActiveIn(v, index) && StuckIn(v, hash, TargetOf(index))
                                       && OthersStuck(v, hash, TargetOf(index), Larger(|v.plan.caps|, 1))
  }

  /** The slot of the active target, or else of the first other one that has any. */
  ghost predicate ThroughSome(v: View, hash: Word, seat: Seat)
  {
    ThroughActive(v, hash, seat)
    || (Leveled(v) && exists index: nat :: ActiveIn(v, index) && StuckIn(v, hash, TargetOf(index))
                                           && ThroughOther(v, hash, TargetOf(index), seat))
  }

  /** Where a rebuild places an entry: through the active target, or outside its routes without one. */
  ghost predicate Seats(v: View, hash: Word, seat: Seat)
  {
    if ActiveStuck(v, hash) then Outside(v, seat) else ThroughActive(v, hash, seat)
  }

  /** The active target decides whether a key is seated through it. */
  lemma ActiveDecides(v: View, hash: Word, index: nat)
    requires Leveled(v) && ActiveIn(v, index)
    ensures ActiveStuck(v, hash) <==> StuckIn(v, hash, TargetOf(index))
    ensures AllStuck(v, hash) <==> StuckIn(v, hash, TargetOf(index))
                                   && OthersStuck(v, hash, TargetOf(index), Larger(|v.plan.caps|, 1))
    ensures forall seat: Seat :: ThroughActive(v, hash, seat) <==> Through(v, hash, TargetOf(index), seat)
    ensures forall seat: Seat :: Through(v, hash, TargetOf(index), seat) ==> !StuckIn(v, hash, TargetOf(index))
  {
    hide ActiveIn, StuckIn, ChosenIn, OthersStuck;
    forall other: nat | ActiveIn(v, other) ensures other == index {
      OneActive(v, other, index);
    }
    forall seat: Seat | Through(v, hash, TargetOf(index), seat) ensures !StuckIn(v, hash, TargetOf(index)) {
      var p: Placement, logical: nat :| p.level < |v.plan.caps| && ChosenIn(v, hash, TargetOf(index), p, logical)
        && seat == Seat(Offset(v.plan.caps, p.level) + p.slot, p.phi, false);
      ChosenNotStuck(v, hash, TargetOf(index), p, logical);
    }
  }

  /** If another target has a slot, not every target is stuck. */
  lemma OtherDecides(v: View, hash: Word, index: nat, seat: Seat)
    requires Leveled(v) && ActiveIn(v, index) && StuckIn(v, hash, TargetOf(index))
    requires ThroughOther(v, hash, TargetOf(index), seat)
    ensures !AllStuck(v, hash) && ThroughSome(v, hash, seat)
  {
    hide ActiveIn, StuckIn, ChosenIn, RoomIn, AllStuck;
    ActiveDecides(v, hash, index);
    var i: nat :|
      && i < Larger(|v.plan.caps|, 1) && TargetOf(i) != TargetOf(index) && OthersStuck(v, hash, TargetOf(index), i)
      && RoomIn(v.plan.caps, v.occ.levels, TargetOf(i)) && Through(v, hash, TargetOf(i), seat);
    var p: Placement, logical: nat :|
      && p.level < |v.plan.caps| && ChosenIn(v, hash, TargetOf(i), p, logical)
      && seat == Seat(Offset(v.plan.caps, p.level) + p.slot, p.phi, false);
    ChosenNotStuck(v, hash, TargetOf(i), p, logical);
  }

  /** A state but for its schedule, which the rest of it determines and no choice reads. */
  function Bare<K, V>(st: State<K, V>): State<K, V>
  {
    st.(schedule := [])
  }

  /** An entry can be written at the seat. */
  ghost predicate CanSeat<K, V>(env: Env<K>, st: State<K, V>, key: K, seat: Seat)
  {
    var level, fs := LevelAt(st.caps, seat.slot), FilterSlotOf(env, st, key);
    && level < |st.levelLen| == |st.levelTombs| && seat.slot < |st.ctrl| && seat.slot < |st.data|
    && (st.ctrl[seat.slot] == Tombstone ==> st.levelTombs[level] > 0)
    && fs.index < |st.filter| && fs.bin < |st.filter[fs.index].bins|
  }

  /** The state with the entry written at the seat. */
  ghost function Seated<K, V>(env: Env<K>, st: State<K, V>, key: K, value: V, seat: Seat): State<K, V>
  {
    if CanSeat(env, st, key, seat) then
      WriteNew(env, st.(highWater := Larger(st.highWater, seat.phi)), LevelAt(st.caps, seat.slot), seat.slot, key,
               value, seat.outside)
    else st
  }

  /** `after` is `before` with the entry written at the seat. */
  ghost predicate SeatedAt<K, V>(env: Env<K>, before: State<K, V>, after: State<K, V>, key: K, value: V, seat: Seat)
  {
    CanSeat(env, before, key, seat) && Bare(after) == Seated(env, Bare(before), key, value, seat)
  }

  lemma BareCanSeat<K, V>(env: Env<K>, st: State<K, V>, key: K, seat: Seat)
    ensures CanSeat(env, Bare(st), key, seat) <==> CanSeat(env, st, key, seat)
    ensures forall d: nat :: ViewOf(env, d, Bare(st)) == ViewOf(env, d, st)
  {
  }

  /** A write on a route seats the entry there. */
  lemma WroteIsSeated<K, V>(env: Env<K>, before: State<K, V>, after: State<K, V>, level: nat, s: nat, phi: nat, key: K,
                            value: V)
    requires Wrote(env, before, after, level, s, key, value) && OnLevel(before.caps, level, s)
    requires after.highWater == Larger(before.highWater, phi)
    ensures SeatedAt(env, before, after, key, value, Seat(s, phi, false))
  {
    hide Record, SummaryLevel;
    LevelAtOf(before.caps, level, s);
  }

  /** So does a write outside the routes. */
  lemma PutIsSeated<K, V>(env: Env<K>, before: State<K, V>, after: State<K, V>, key: K, value: V)
    requires Put(env, before, after, key, value) && after.exceptional && after.highWater == before.highWater
    ensures key in after.at && SeatedAt(env, before, after, key, value, Seat(after.at[key], 0, true))
  {
    hide Record, SummaryLevel, LevelAt, OnRoute, OnLevel, IsSchedule;
  }

  // ---- Rebuilding ----

  /** A generation without entries: every control EMPTY, a clear filter, zero counters. */
  function Fresh<K, V>(caps: seq<nat>, maxInsertions: nat): State<K, V>
  {
    var slots := Offset(caps, |caps|);
    State(caps, maxInsertions, seq(slots, _ => Empty), seq(slots, _ => Uninit), seq(WordCount(slots), _ => CLEAR_WORD),
          0, seq(|caps|, _ => 0), seq(|caps|, _ => 0), 0, false, [], map[])
  }

  /** Slot `s` holds a live entry. */
  predicate LiveSlot<K, V>(st: State<K, V>, s: nat)
  {
    s < |st.ctrl| && s < |st.data| && st.ctrl[s].Full? && st.data[s].Entry?
  }

  /** What a rebuild has built once it has passed the first `passed` slots of the previous generation: the
      entries of the live ones, written one by one at their seats in a generation that starts empty. */
  ghost function Built<K, V>(env: Env<K>, previous: State<K, V>, start: State<K, V>, seats: seq<Seat>,
                             passed: nat): State<K, V>
    requires passed <= |seats|
  {
    if passed == 0 then start
    else
      var st := Built(env, previous, start, seats, passed - 1);
      if LiveSlot(previous, passed - 1) then
        Seated(env, st, previous.data[passed - 1].key, previous.data[passed - 1].value, seats[passed - 1])
      else st
  }

  /** The entry of slot `s` was seated where placement puts it in what was built when it was met. */
  ghost predicate WellSeated<K, V>(env: Env<K>, d: nat, previous: State<K, V>, start: State<K, V>, seats: seq<Seat>,
                                   s: nat)
    requires s < |seats|
  {
    LiveSlot(previous, s) ==>
      var st, key := Built(env, previous, start, seats, s), previous.data[s].key;
      Seats(ViewOf(env, d, st), env.keys.hash(key), seats[s]) && CanSeat(env, st, key, seats[s])
  }

  ghost predicate AllSeated<K, V>(env: Env<K>, d: nat, previous: State<K, V>, start: State<K, V>, seats: seq<Seat>)
  {
    forall s: nat :: s < |seats| ==> WellSeated(env, d, previous, start, seats, s)
  }

  /** `after` is what a rebuild of `previous` builds with these seats, one for each slot passed. */
  ghost predicate BuiltWith<K, V>(env: Env<K>, d: nat, previous: State<K, V>, after: State<K, V>, seats: seq<Seat>)
  {
    var start := Fresh(after.caps, after.maxInsertions);
    AllSeated(env, d, previous, start, seats) && Bare(after) == Built(env, previous, start, seats, |seats|)
  }

  /** `after` is what a rebuild of all of `previous` builds. */
  ghost predicate Rebuilt<K, V>(env: Env<K>, d: nat, previous: State<K, V>, after: State<K, V>)
  {
    exists seats: seq<Seat> :: |seats| == |previous.ctrl| && BuiltWith(env, d, previous, after, seats)
  }

  /** The entry of slot `s` met a generation in which its active target has no slot. */
  ghost predicate Strays<K, V>(env: Env<K>, d: nat, previous: State<K, V>, start: State<K, V>, seats: seq<Seat>, s: nat)
    requires s < |seats|
  {
    LiveSlot(previous, s)
    && ActiveStuck(ViewOf(env, d, Built(env, previous, start, seats, s)), env.keys.hash(previous.data[s].key))
  }

  /** A rebuild leaves an ordinary epoch unless some entry met a generation in which its active target had no
      slot, and then it does not. */
  lemma {:induction false} ExceptionalIffStray<K, V>(env: Env<K>, d: nat, previous: State<K, V>, start: State<K, V>,
                                                     seats: seq<Seat>, passed: nat)
    requires AllSeated(env, d, previous, start, seats) && passed <= |seats| && !start.exceptional
    ensures Built(env, previous, start, seats, passed).exceptional <==>
            exists s: nat :: s < passed && Strays(env, d, previous, start, seats, s)
    decreases passed
  {
    hide CanSeat, Seats, ActiveStuck, Record, SummaryLevel, LevelAt;
    if passed > 0 {
      var s := passed - 1;
      ExceptionalIffStray(env, d, previous, start, seats, s);
      assert WellSeated(env, d, previous, start, seats, s);
      if LiveSlot(previous, s) {
        OutsideIffStuck(ViewOf(env, d, Built(env, previous, start, seats, s)), env.keys.hash(previous.data[s].key),
                        seats[s]);
      }
      assert Built(env, previous, start, seats, passed).exceptional <==>
             Built(env, previous, start, seats, s).exceptional || Strays(env, d, previous, start, seats, s);
    }
  }

  lemma OutsideIffStuck(v: View, hash: Word, seat: Seat)
    requires Seats(v, hash, seat)
    ensures seat.outside <==> ActiveStuck(v, hash)
  {
    hide ChosenIn, StuckIn, ActiveIn;
  }

  /** Where a rebuild wrote the entry of a live slot, it stays. */
  lemma {:induction false} SeatKept<K, V>(env: Env<K>, d: nat, previous: State<K, V>, start: State<K, V>,
                                          seats: seq<Seat>, passed: nat, s: nat)
    requires AllSeated(env, d, previous, start, seats) && s < passed <= |seats| && LiveSlot(previous, s)
    requires forall x: nat, y: nat :: x < y && LiveSlot(previous, x) && LiveSlot(previous, y) ==>
                                        previous.data[x].key != previous.data[y].key
    ensures var key, at := previous.data[s].key, Built(env, previous, start, seats, passed).at;
            key in at && at[key] == seats[s].slot
    decreases passed
  {
    hide CanSeat, Seats, Record, SummaryLevel, LevelAt;
    var last := passed - 1;
    assert WellSeated(env, d, previous, start, seats, last);
    if s < last {
      SeatKept(env, d, previous, start, seats, last, s);
    }
  }

  /** Seats past those in use do not matter. */
  lemma {:induction false} BuiltPrefix<K, V>(env: Env<K>, previous: State<K, V>, start: State<K, V>, seats: seq<Seat>,
                                             more: seq<Seat>, passed: nat)
    requires passed <= |seats| && seats <= more
    ensures Built(env, previous, start, more, passed) == Built(env, previous, start, seats, passed)
    decreases passed
  {
    hide Seated;
    if passed > 0 {
      BuiltPrefix(env, previous, start, seats, more, passed - 1);
    }
  }

  /** One more slot passed: a live one whose entry was seated, or one that is not live. */
  lemma PassSlot<K, V>(env: Env<K>, d: nat, previous: State<K, V>, start: State<K, V>, seats: seq<Seat>, seat: Seat,
                       after: State<K, V>)
    requires AllSeated(env, d, previous, start, seats)
    requires var st := Built(env, previous, start, seats, |seats|);
             if LiveSlot(previous, |seats|) then
               var key, value := previous.data[|seats|].key, previous.data[|seats|].value;
               Seats(ViewOf(env, d, st), env.keys.hash(key), seat) && CanSeat(env, st, key, seat)
               && after == Seated(env, st, key, value, seat)
             else after == st
    ensures AllSeated(env, d, previous, start, seats + [seat])
    ensures Built(env, previous, start, seats + [seat], |seats| + 1) == after
  {
    hide Seated, CanSeat, Seats;
    var more := seats + [seat];
    forall s: nat | s < |more| ensures WellSeated(env, d, previous, start, more, s) {
      BuiltPrefix(env, previous, start, seats, more, s);
      if s < |seats| {
        assert WellSeated(env, d, previous, start, seats, s);
      }
    }
    BuiltPrefix(env, previous, start, seats, more, |seats|);
  }

  /** Slots that are not live are passed without effect. */
  lemma {:induction false} PassDead<K, V>(env: Env<K>, d: nat, previous: State<K, V>, start: State<K, V>,
                                          seats: seq<Seat>, next: nat) returns (more: seq<Seat>)
    requires AllSeated(env, d, previous, start, seats) && |seats| <= next
    requires forall s: nat :: |seats| <= s < next ==> !LiveSlot(previous, s)
    ensures |more| == next && AllSeated(env, d, previous, start, more)
    ensures Built(env, previous, start, more, next) == Built(env, previous, start, seats, |seats|)
    decreases next - |seats|
  {
    hide AllSeated, Built, CanSeat, Seats, Seated;
    more := seats;
    if |seats| < next {
      PassSlot(env, d, previous, start, seats, Seat(0, 0, false), Built(env, previous, start, seats, |seats|));
      more := PassDead(env, d, previous, start, seats + [Seat(0, 0, false)], next);
    }
  }
}
