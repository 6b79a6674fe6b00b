/** The Elastic hash table as an object: per-level controls, slots and counters, the batch scheduler
    and the lookup schedule updated in place, refining a plain map through insertion, removal,
    clearing, filter refresh, cleanup, growth and recovery rebuilds. */
module ElasticTable {
  import opened Arith
  import opened Controls
  import opened Wrappers
  import opened Store
  import opened Membership
  import opened BucketCounts
  import opened ElasticPlan
  import opened ElasticBatches
  import opened ElasticGeometry
  import opened ElasticSchedule
  import opened ElasticState
  import opened ElasticPlacement
  import opened Cursor
  import opened Capacity
  import ProbeBudget
  import QueryPosition

  /** A live location: level and slot within it. */
  datatype Location = Location(level: nat, slot: nat)

  lemma {:induction false} OffsetIsSum(caps: seq<nat>, level: nat)
    requires level <= |caps|
    ensures Offset(caps, level) == Sum(caps[..level])
    decreases level
  {
    if level > 0 {
      OffsetIsSum(caps, level - 1);
      SumSnoc(caps[..level - 1], caps[level - 1]);
      assert caps[..level] == caps[..level - 1] + [caps[level - 1]];
    } else {
      assert caps[..0] == [];
    }
  }

  /** The levels of a geometry fill its arena. */
  lemma ArenaSize(g: Geometry, d: nat)
    requires IsGeometry(g, d)
    ensures Offset(g.caps, |g.caps|) == g.slots && |g.caps| <= MAX_LEVELS && g.maxInsertions <= g.slots
  {
    GeometryFits(g, d);
    OffsetIsSum(g.caps, |g.caps|);
    assert g.caps[..|g.caps|] == g.caps;
  }

  /** The first `i` scheduled routes on recorded levels do not hold the key. */
  ghost predicate Missed<K, V>(st: State<K, V>, route: Router, hash: Word, key: K, fp: bv8, levels: set<nat>, i: nat)
  {
    i <= |st.schedule| && forall j :: 0 <= j < i ==>
                                        !ProbeHolds(st, route, hash, key, fp, levels, st.schedule[j].level,
                                                    st.schedule[j].logical)
  }

  ghost predicate ProbeHolds<K, V>(st: State<K, V>, route: Router, hash: Word, key: K, fp: bv8, levels: set<nat>,
                                   level: nat, logical: nat)
  {
    && level < |st.caps| && SummaryLevel(level) in levels && route(hash, level, logical, st.caps[level]).Some?
    && var s := Offset(st.caps, level) + route(hash, level, logical, st.caps[level]).value;
       s < |st.ctrl| && s < |st.data| && st.ctrl[s] == Controls.Full(fp) && Holds(st.data[s], key)
  }

  /** The schedule holds every reachable route, so a lookup that missed all of it and level zero's
      first probe has missed every slot the key could be on. */
  lemma MissedAll<K, V>(st: State<K, V>, route: Router, hash: Word, key: K, fp: bv8, levels: set<nat>, h11: nat)
    requires IsSchedule(st.schedule, st.caps, st.highWater) && Missed(st, route, hash, key, fp, levels, |st.schedule|)
    requires |st.caps| > 0 && route(hash, 0, 0, st.caps[0]) == Some(h11)
    requires h11 < |st.ctrl| && h11 < |st.data| ==> !(st.ctrl[h11] == Controls.Full(fp) && Holds(st.data[h11], key))
    ensures !MeetsKey(st, route, hash, key, fp, levels)
  {
    hide Scheduled, Increasing;
    assert Offset(st.caps, 0) == 0;
    forall level: nat, logical: nat ensures !MeetsKeyAt(st, route, hash, key, fp, levels, level, logical) {
      if level < |st.caps| && !(level == 0 && logical == 0) && Scheduled(level, logical, st.highWater) {
        var j :| 0 <= j < |st.schedule| && st.schedule[j] == PhiRoute(st.caps[level], level, logical);
        assert !ProbeHolds(st, route, hash, key, fp, levels, st.schedule[j].level, st.schedule[j].logical);
      }
    }
  }

  /** The fields a resize replaces as a unit. */
  datatype Generation<!K, !V> = Generation(
    geometry: Geometry, scheduler: BatchScheduler, ctrl: array<Control>, data: array<Slot<K, V>>,
        filter: array<MetadataWord>,
    len: nat, levelLen: seq<nat>, levelTombs: seq<nat>, highWater: nat, exceptional: bool, schedule: seq<PhiRoute>,
        stale: nat)

  /** Insertion limit of an `n`-slot table. */
  function LimitOf(n: nat, d: nat): nat
  {
    if n == 0 then 0 else MaxInsertions(n, d)
  }

  /** Level capacities of an `n`-slot table. */
  function CapsOf(n: nat): seq<nat>
  {
    if n == 0 then [] else LevelLengthsOf(n)
  }

  lemma LimitIs(g: Geometry, d: nat)
    requires IsGeometry(g, d) && g.slots != 1
    ensures g.maxInsertions == LimitOf(g.slots, d) && g.caps == CapsOf(g.slots)
  {
  }

  /** The slot count growth goes to. */
  function NextSlots(slots: nat): nat
  {
    if slots == 0 then INITIAL_CAPACITY else 2 * slots
  }

  lemma LeastUnique(start: nat, needed: nat, d: nat, a: nat, b: nat)
    requires LeastDoubling(start, needed, d, a) && LeastDoubling(start, needed, d, b)
    ensures a == b
  {
    hide MaxInsertions;
  }

  lemma NoLeast(start: nat, needed: nat, d: nat)
    requires forall k: nat :: DoubledFrom(start, k) < USIZE_LIMIT ==> MaxInsertions(DoubledFrom(start, k), d) < needed
    ensures forall slots: nat :: slots < USIZE_LIMIT ==> !LeastDoubling(start, needed, d, slots)
  {
    hide MaxInsertions;
  }

  lemma LimitIsMax(n: nat, d: nat)
    requires n > 0
    ensures LimitOf(n, d) == MaxInsertions(n, d)
  {
  }

  lemma LimitOfZero(d: nat)
    ensures LimitOf(0, d) == 0
  {
  }

  lemma AtLeastStart(start: nat, doublings: nat)
    ensures start * Pow2(doublings) >= start
  {
    MulAtMost(start, 1, Pow2(doublings));
  }

  /** The next slot count, if representable, has a larger insertion limit. */
  lemma GrowthMakesRoom(slots: nat, next: nat, d: nat)
    requires slots <= MAX_ELASTIC_SLOTS && slots != 1 && d >= 1
    requires next == if slots == 0 then INITIAL_CAPACITY else 2 * slots
    ensures LimitOf(next, d) > LimitOf(slots, d) && next != 1
  {
    if slots == 0 {
      InitialAccepts(d);
    } else {
      DoublingGrows(slots, d);
    }
  }

  class Table<K(==), V> {
    const env: Env<K>
    const d: nat
    var geometry: Geometry
    var scheduler: BatchScheduler
    var ctrl: array<Control>
    var data: array<Slot<K, V>>
    var filter: array<MetadataWord>
    var len: nat
    var levelLen: seq<nat>
    var levelTombs: seq<nat>
    var highWater: nat
    var exceptional: bool
    var schedule: seq<PhiRoute>
    var stale: nat
    ghost var at: map<K, nat>

    ghost function Repr(): set<object>
      reads this
    {
      {this, scheduler, ctrl, data, filter}
    }

    ghost function Snap(): State<K, V>
      reads this, ctrl, data, filter
    {
      State(geometry.caps, geometry.maxInsertions, ctrl[..], data[..], filter[..], len, levelLen, levelTombs,
            highWater, exceptional, schedule, at)
    }

    /** The scheduler runs on the geometry's quotas. */
    ghost predicate Scheduling()
      reads `geometry, `scheduler, scheduler
    {
      scheduler.Valid() && scheduler.batchEnds == Ends(0, geometry.quotas)
    }

    ghost predicate Valid()
      reads this, scheduler, ctrl, data, filter
    {
      && 1 <= d < U32_LIMIT && IsGeometry(geometry, d) && geometry.slots != 1
      && Scheduling() && Inv(env, Snap())
    }

    /** Valid but for the filter, which may have lost keys. */
    ghost predicate Sound()
      reads this, scheduler, ctrl, data, filter
    {
      && 1 <= d < U32_LIMIT && IsGeometry(geometry, d) && geometry.slots != 1
      && Scheduling() && Intact(env, Snap())
    }

    lemma ValidIsSound()
      requires Valid()
      ensures Sound()
    {
      hide IsGeometry, Intact, EntriesFindable, Scheduling;
    }

    /** The map the table stands for. */
    ghost function M(): map<K, V>
      reads this, ctrl, data, filter
    {
      MapOf(env, Snap())
    }

    /** The filter reflects exactly the live keys. */
    ghost predicate TightFilter()
      reads this, ctrl, data, filter
    {
      Tight(env, Snap())
    }

    /** The filter carries every live key, as it does unless a refresh was cut short. */
    ghost predicate Recording()
      reads this, ctrl, data, filter
    {
      EntriesRecorded(env, Snap())
    }

    lemma RecordingIs(st: State<K, V>)
      requires Snap() == st
      ensures Recording() <==> EntriesRecorded(env, st)
    {
      hide EntriesRecorded;
    }

    lemma TightIs(st: State<K, V>)
      requires Snap() == st
      ensures TightFilter() <==> Tight(env, st)
    {
      hide Tight;
    }

    /** A table with its entries in place and recorded is valid. */
    lemma RecordingIsValid()
      requires Sound() && Recording()
      ensures Valid()
    {
      hide IsGeometry, Intact, Scheduling;
      RecordedIsEnough(env, Snap());
    }

    lemma TightIsRecording()
      requires TightFilter()
      ensures Recording()
    {
      TightRecords(env, Snap());
    }

    /** Per-level occupancy, as the batch plan sees it. */
    ghost function Occ(): Occupancy
      reads this
    {
      Occupancy(levelLen, len)
    }

    ghost function Plan(): EpochPlan
      reads this
    {
      EpochPlan(geometry.caps, d, geometry.maxInsertions)
    }

    /** The fields amount to a state, and the state decides soundness, validity and the map. */
    lemma Represents(st: State<K, V>, m: map<K, V>)
      requires Snap() == st && 1 <= d < U32_LIMIT && IsGeometry(geometry, d) && geometry.slots != 1 && Scheduling()
      requires (Inv(env, st) || Intact(env, st)) && m == MapOf(env, st)
      ensures Sound() && M() == m && (Valid() <==> Inv(env, st))
    {
      hide IsGeometry, Intact, EntriesFindable, Scheduling;
    }

    lemma Core()
      requires Valid() || Sound()
      ensures 1 <= d < U32_LIMIT && IsGeometry(geometry, d) && geometry.slots != 1 && Scheduling()
      ensures Sound() && Intact(env, Snap()) && (Valid() <==> Inv(env, Snap())) && M() == MapOf(env, Snap())
    {
      hide Intact, EntriesFindable, IsGeometry, Scheduling;
    }

    /** What operations read off a table. */
    lemma Facts()
      requires Valid() || Sound()
      ensures SoundEnv(env) && 1 <= d < U32_LIMIT && IsGeometry(geometry, d) && geometry.slots != 1 && Scheduling()
      ensures Intact(env, Snap()) && (Valid() <==> Inv(env, Snap())) && M() == MapOf(env, Snap()) && Sound()
      ensures ctrl.Length == data.Length == geometry.slots == Offset(geometry.caps, |geometry.caps|)
              && geometry.slots <= U32_LIMIT
      ensures |geometry.caps| == |levelLen| == |levelTombs| <= MAX_LEVELS
              && (geometry.slots > 0 ==> |geometry.caps| >= 1)
      ensures filter.Length == WordCount(geometry.slots) && len == |at| <= geometry.maxInsertions <= geometry.slots
      ensures forall s :: 0 <= s < ctrl.Length ==> Proper(ctrl[s])
      ensures Readout(ctrl[..], data[..], at) && M().Keys == at.Keys
    {
      hide Scheduling, IsSchedule, EntriesFindable, EntriesRouted, SoundRouter, SoundKeys, WordCount, ValidFilter,
           Region;
      ArenaSize(geometry, d);
      GeometryFits(geometry, d);
      ControlsProper(env, Snap());
      assert forall s :: 0 <= s < ctrl.Length ==> ctrl[..][s] == ctrl[s];
    }

    lemma ArenaProper()
      requires Valid() || Sound()
      ensures forall s :: 0 <= s < ctrl.Length ==> Proper(ctrl[s])
    {
      hide *;
      Facts();
    }

    lemma LevelCounters()
      requires Valid() || Sound()
      ensures |levelTombs| == |levelLen| == |geometry.caps|
              && ctrl.Length == data.Length == Offset(geometry.caps, |geometry.caps|)
    {
      hide IsGeometry, EntriesFindable, EntriesRouted, SoundEnv, Scheduling, IsSchedule, Stored, Region;
    }

    // ---- Construction ----

    static method AllocateArena(g: Geometry)
        returns (newCtrl: array<Control>, newData: array<Slot<K, V>>, newFilter: array<MetadataWord>)
      ensures fresh(newCtrl) && fresh(newData) && fresh(newFilter) && newCtrl.Length == newData.Length == g.slots
      ensures newFilter.Length == WordCount(g.slots) && forall i :: 0 <= i < newFilter.Length ==>
              newFilter[i] == CLEAR_WORD
      ensures forall i :: 0 <= i < newCtrl.Length ==> newCtrl[i] == Empty
      ensures forall i :: 0 <= i < newData.Length ==> newData[i] == Uninit
    {
      hide WordCount;
      newCtrl := new Control[g.slots](_ => Empty);
      newData := new Slot<K, V>[g.slots](_ => Uninit);
      newFilter := new MetadataWord[WordCount(g.slots)](_ => CLEAR_WORD);
    }

    constructor FromGeometry(env: Env<K>, d: nat, g: Geometry)
      requires SoundEnv(env) && 1 <= d < U32_LIMIT && IsGeometry(g, d) && g.slots != 1
      ensures Valid() && M() == map[] && TightFilter() && Recording() && fresh(Repr())
      ensures this.env == env && this.d == d && geometry == g
      ensures len == 0 && levelLen == levelTombs == seq(|g.caps|, _ => 0) && stale == 0 && !exceptional
    {
      hide IsGeometry, WordCount, SoundEnv, Inv, Intact, Sound, Valid, TightFilter, M, Recording;
      this.env, this.d, geometry := env, d, g;
      var newCtrl, newData, newFilter := AllocateArena(g);
      ctrl, data, filter := newCtrl, newData, newFilter;
      scheduler := new BatchScheduler(g.quotas);
      len, highWater, exceptional, schedule, stale, at := 0, 0, false, [], 0, map[];
      levelLen, levelTombs := seq(|g.caps|, _ => 0), seq(|g.caps|, _ => 0);
      new;
      Started();
      TightIsRecording();
    }

    lemma Started()
      requires SoundEnv(env) && 1 <= d < U32_LIMIT && IsGeometry(geometry, d) && geometry.slots != 1 && Scheduling()
      requires ctrl.Length == data.Length == geometry.slots && filter.Length == WordCount(geometry.slots)
      requires forall i :: 0 <= i < filter.Length ==> filter[i] == CLEAR_WORD
      requires forall i :: 0 <= i < ctrl.Length ==> ctrl[i] == Empty
      requires len == 0 && highWater == 0 && schedule == [] && at == map[]
      requires |levelLen| == |levelTombs| == |geometry.caps|
      requires forall l :: 0 <= l < |levelLen| ==> levelLen[l] == 0 && levelTombs[l] == 0
      ensures Valid() && TightFilter() && M() == map[]
    {
      hide SoundEnv, Inv, Intact, Sound, IsGeometry, WordCount, Reflects, Tight, Scheduling;
      ArenaSize(geometry, d);
      ClearReflects(filter[..]);
      FreshInv(env, Snap());
    }

    // ---- Lookup ----

    /** The entry at a slot, if it is the key's. */
    method EntryIfMatch(level: nat, slot: nat, key: K, fp: bv8) returns (r: bool)
      requires level < |geometry.caps| && Offset(geometry.caps, level) + slot < ctrl.Length == data.Length
      ensures var s := Offset(geometry.caps, level) + slot; r == (ctrl[s] == Controls.Full(fp) && Holds(data[s], key))
    {
      var s := Offset(geometry.caps, level) + slot;
      if ctrl[s] != Controls.Full(fp) {
        return false;
      }
      return Holds(data[s], key);
    }

    ghost function FlatOf(loc: Option<Location>): Option<nat>
      reads this
      requires loc.Some? ==> loc.value.level < |geometry.caps|
    {
      if loc.Some? then Some(Offset(geometry.caps, loc.value.level) + loc.value.slot) else None
    }

    /** A location inside its level. */
    predicate InLevel(loc: Location)
      reads this
    {
      loc.level < |geometry.caps| && loc.slot < geometry.caps[loc.level]
    }

    method FindByFullScan(key: K, fp: bv8) returns (r: Option<Location>)
      requires ctrl.Length == data.Length == Offset(geometry.caps, |geometry.caps|)
      ensures r.Some? ==> InLevel(r.value)
      ensures FlatOf(r) == FullScan(ctrl[..], data[..], key, fp, 0)
    {
      hide Offset;
      ghost var caps := geometry.caps;
      ghost var whole := FullScan(ctrl[..], data[..], key, fp, 0);
      var level := 0;
      OffsetZero(caps);
      while level < |geometry.caps|
        invariant level <= |geometry.caps|
        invariant Offset(caps, level) <= data.Length
                  && whole == FullScan(ctrl[..], data[..], key, fp, Offset(caps, level))
      {
        LevelInside(caps, level);
        var slot := 0;
        while slot < geometry.caps[level]
          invariant slot <= geometry.caps[level]
          invariant whole == FullScan(ctrl[..], data[..], key, fp, Offset(caps, level) + slot)
        {
          var hit := EntryIfMatch(level, slot, key, fp);
          if hit {
            return Some(Location(level, slot));
          }
          slot := slot + 1;
        }
        level := level + 1;
      }
      return None;
    }

    static lemma LevelInside(caps: seq<nat>, level: nat)
      requires level < |caps|
      ensures Offset(caps, level + 1) == Offset(caps, level) + caps[level] <= Offset(caps, |caps|)
    {
      OffsetsOrdered(caps, level, |caps|);
    }

    /** Both answers of one filter word: whether it admits the key, and the levels its bin records. */
    method RouteFilter(key: K, fs: FilterSlot) returns (maybe: bool, levels: set<nat>)
      requires Sound() && geometry.slots > 0 && fs == env.filterSlot(env.keys.hash(key), filter.Length)
      ensures forall x: nat :: x in levels <==> x in BinOf(filter[..], fs)
      ensures key in at ==> (Findable(env, Snap(), key) <==> SkipsFilter(env, Snap(), key)
                                                             || (maybe && Leads(key, levels)))
      ensures Valid() && !maybe && key in at ==> SkipsFilter(env, Snap(), key)
      ensures Recording() && key in at ==> maybe && LevelBit(Snap(), key) in levels
    {
      hide IsGeometry, LevelAt, SummaryLevel, Stored, EntriesRouted, Counted, SoundRouter, SoundKeys, IsSchedule,
           WordCount, Scheduling, SkipsFilter, LosesDraw;
      Facts();
      FilterReady(env, Snap(), key);
      var word := filter[fs.index];
      maybe := fs.bits <= word.membership;
      levels := word.bins[fs.bin];
      assert Snap().filter[fs.index] == word;
      assert BinOf(Snap().filter, fs) == LevelSet(levels);
    }

    static ghost function LevelSet(levels: set<nat>): iset<nat>
    {
      iset x: nat | x in levels
    }

    /** A walk restricted to these levels finds the stored key, or ends in a full scan. */
    ghost predicate Leads(key: K, levels: set<nat>)
      reads this, ctrl, data, filter
      requires key in at
    {
      exceptional || LevelBit(Snap(), key) in levels || LosesDraw(env, Snap(), env.keys.hash(key), LevelSet(levels))
    }

    /** `find`: level zero's first probe, then the filter, then the schedule's routes on recorded
        levels; a failed draw or an exceptional epoch falls back to the full scan. On a valid table it
        returns a location exactly when a full scan would, namely the key's; on one whose filter has
        lost keys it misses exactly the stored keys that are not findable. */
    method Find(key: K) returns (r: Option<Location>)
      requires Sound()
      ensures r.Some? ==> InLevel(r.value)
      ensures FlatOf(r) == Answer(env, Snap(), key)
      ensures r.Some? ==> LiveEntryAt(r.value, key)
      ensures Valid() ==> FlatOf(r) == FullScan(ctrl[..], data[..], key, env.keys.Fp(key), 0)
                          && (r.Some? <==> key in M())
    {
      hide IsGeometry, Inv, Intact, Valid, Sound, M, LevelAt, MeetsKey, Scheduling, FullScan, IsSchedule, Findable,
           SkipsFilter, Leads, Offset, LiveEntryAt, SoundEnv;
      LevelCounters();
      Present(key);
      if len == 0 || |geometry.caps| == 0 {
        return None;
      }
      var hash := env.keys.hash(key);
      var fp := env.keys.fingerprint(hash);
      FirstLevel();
      var h11 := env.route(hash, 0, 0, geometry.caps[0]);
      FirstProbe(key);
      if h11.None? {
        r := FindByFullScan(key, fp);
        FoundAt(r, key);
        return;
      }
      var fs := env.filterSlot(hash, filter.Length);
      var maybe, levels := RouteFilter(key, fs);
      var hit := EntryIfMatch(0, h11.value, key, fp);
      if hit {
        Hit(key, 0, h11.value);
        r := Some(Location(0, h11.value));
        FoundAt(r, key);
        return;
      }
      if !maybe {
        return None;
      }
      r := FindOnSchedule(key, hash, fp, levels, h11.value);
      FoundAt(r, key);
    }

    /** A location found at the key's slot holds the key's entry. */
    lemma FoundAt(r: Option<Location>, key: K)
      requires Sound() && (r.Some? ==> InLevel(r.value) && key in at && FlatOf(r) == Some(at[key]))
      ensures r.Some? ==> LiveEntryAt(r.value, key)
    {
      hide IsGeometry, Inv, Intact, Valid, Sound, M, Scheduling, Offset, FullScan;
      if r.Some? {
        Present(key);
      }
    }

    /** What level zero's first probe decides. */
    lemma FirstProbe(key: K)
      requires Sound() && |geometry.caps| > 0 && ctrl.Length == data.Length
      ensures var first := env.route(env.keys.hash(key), 0, 0, geometry.caps[0]);
              && (first.Some? ==> first.value < geometry.caps[0])
              && (key in at ==> (SkipsFilter(env, Snap(), key) <==> first.None? || first.value == at[key]))
              && (key in at ==> at[key] < ctrl.Length && ctrl[at[key]] == Controls.Full(env.keys.Fp(key))
                                && Holds(data[at[key]], key))
              && (key in at && SkipsFilter(env, Snap(), key) ==> Findable(env, Snap(), key))
    {
      hide IsGeometry, Scheduling, IsSchedule, EntriesRouted, Counted, SoundKeys;
      assert SoundRouter(env.route);
      assert ctrl[..] == Snap().ctrl && data[..] == Snap().data;
    }

    /** The schedule's routes on the recorded levels, in position order. */
    method FindOnSchedule(key: K, hash: Word, fp: bv8, levels: set<nat>, ghost h11: nat) returns (r: Option<Location>)
      requires Sound() && |geometry.caps| > 0 && hash == env.keys.hash(key) && fp == env.keys.Fp(key)
      requires env.route(hash, 0, 0, geometry.caps[0]) == Some(h11) && h11 < ctrl.Length == data.Length
      requires !(ctrl[h11] == Controls.Full(fp) && Holds(data[h11], key))
      ensures r.Some? ==> InLevel(r.value)
      ensures FlatOf(r) == if key in at && Leads(key, levels) then Some(at[key]) else None
    {
      hide IsGeometry, Inv, Intact, Valid, Sound, M, LevelAt, MeetsKey, Scheduling, FullScan, IsSchedule, Offset,
           SoundEnv, LosesDraw;
      LevelCounters();
      Present(key);
      var i := 0;
      while i < |schedule|
        invariant i <= |schedule| && Missed(Snap(), env.route, hash, key, fp, levels, i)
        invariant forall j :: 0 <= j < i ==> !FailsAt(env, Snap(), hash, LevelSet(levels), j)
      {
        var route := schedule[i];
        ScheduledRoute(i);
        if SummaryLevel(route.level) in levels {
          var slot := env.route(hash, route.level, route.logical, route.rangeUpper);
          if slot.None? {
            DrawLost(hash, levels, i);
            r := FindByFullScan(key, fp);
            return;
          }
          RoutedInside(hash, route.level, route.logical, slot.value);
          var hit := EntryIfMatch(route.level, slot.value, key, fp);
          if hit {
            Hit(key, route.level, slot.value);
            HitOnLevel(key, route.level, slot.value);
            return Some(Location(route.level, slot.value));
          }
        }
        i := i + 1;
      }
      NoDrawLost(hash, levels);
      MissedIsAbsent(key, levels, h11);
      if exceptional {
        r := FindByFullScan(key, fp);
      } else {
        r := None;
      }
    }

    lemma DrawLost(hash: Word, levels: set<nat>, i: nat)
      requires i < |schedule| && FailsAt(env, Snap(), hash, LevelSet(levels), i)
      ensures LosesDraw(env, Snap(), hash, LevelSet(levels))
    {
    }

    lemma NoDrawLost(hash: Word, levels: set<nat>)
      requires forall j :: 0 <= j < |schedule| ==> !FailsAt(env, Snap(), hash, LevelSet(levels), j)
      ensures !LosesDraw(env, Snap(), hash, LevelSet(levels))
    {
    }

    lemma HitOnLevel(key: K, level: nat, slot: nat)
      requires Sound() && key in at && level < |geometry.caps| && slot < geometry.caps[level]
               && at[key] == Offset(geometry.caps, level) + slot
      ensures LevelBit(Snap(), key) == SummaryLevel(level)
    {
      hide IsGeometry, Intact, Scheduling, Offset, LevelAt, SummaryLevel;
      LevelAtOf(geometry.caps, level, at[key]);
    }

    /** In an ordinary epoch a key that every scheduled route missed is absent, or on a level not searched. */
    lemma MissedIsAbsent(key: K, levels: set<nat>, h11: nat)
      requires Sound() && |geometry.caps| > 0
      requires Missed(Snap(), env.route, env.keys.hash(key), key, env.keys.Fp(key), levels, |schedule|)
      requires env.route(env.keys.hash(key), 0, 0, geometry.caps[0]) == Some(h11) && h11 < ctrl.Length == data.Length
      requires !(ctrl[h11] == Controls.Full(env.keys.Fp(key)) && Holds(data[h11], key))
      ensures !exceptional && key in at ==> LevelBit(Snap(), key) !in levels
    {
      hide IsGeometry, Missed, MeetsKey, Offset, LevelAt, SummaryLevel, Scheduling, IsSchedule;
      Facts();
      MissedAll(Snap(), env.route, env.keys.hash(key), key, env.keys.Fp(key), levels, h11);
      if !exceptional {
        MissMeans(env, Snap(), key, levels);
      }
    }

    /** A location that holds the key's entry. */
    ghost predicate LiveEntryAt(loc: Location, key: K)
      reads this, ctrl, data, filter
    {
      && InLevel(loc) && key in M()
      && var s := Offset(geometry.caps, loc.level) + loc.slot;
         s < ctrl.Length && s < data.Length && ctrl[s].Full? && data[s] == Entry(key, M()[key])
    }

    /** A full scan finds exactly the keys of the map, and on a valid table every one is findable. */
    lemma Present(key: K)
      requires Sound()
      ensures var found := FullScan(ctrl[..], data[..], key, env.keys.Fp(key), 0);
              && found == (if key in at then Some(at[key]) else None)
              && (found.Some? <==> key in M())
              && (found.Some? ==> found.value < ctrl.Length && found.value < data.Length && ctrl[found.value].Full?
                                  && data[found.value] == Entry(key, M()[key]))
      ensures len == 0 || |geometry.caps| == 0 ==> key !in M() && key !in at
      ensures Valid() && key in at ==> Findable(env, Snap(), key)
    {
      hide IsGeometry, EntriesRouted, SoundEnv, Counted, Scheduling, IsSchedule, Findable;
      Facts();
      FullScanFinds(ctrl[..], data[..], env.keys, at, key, 0);
    }

    lemma FirstLevel()
      requires (Valid() || Sound()) && |geometry.caps| > 0
      ensures geometry.slots > 0 && Offset(geometry.caps, 0) == 0 && geometry.caps[0] <= ctrl.Length
      ensures SoundRouter(env.route)
    {
      hide Inv, Intact, Sound, IsGeometry;
      Facts();
      LevelInside(geometry.caps, 0);
      GeometryFits(geometry, d);
    }

    lemma ScheduledRoute(i: nat)
      requires Sound() && i < |schedule|
      ensures schedule[i].level < |geometry.caps| && schedule[i].rangeUpper == geometry.caps[schedule[i].level]
    {
      hide IsGeometry, EntriesFindable, EntriesRouted, SoundEnv, Counted, Scheduling, Stored, Scheduled;
      assert schedule[i] in schedule;
    }

    lemma RoutedInside(hash: Word, level: nat, logical: nat, slot: nat)
      requires (Valid() || Sound()) && level < |geometry.caps|
               && env.route(hash, level, logical, geometry.caps[level]) == Some(slot)
      ensures slot < geometry.caps[level] && Offset(geometry.caps, level) + slot < ctrl.Length == data.Length
    {
      hide Inv, Intact, Sound, IsGeometry, Offset;
      Facts();
      assert SoundRouter(env.route);
      LevelInside(geometry.caps, level);
    }

    /** A matching probe is the key's slot. */
    lemma Hit(key: K, level: nat, slot: nat)
      requires Sound() && level < |geometry.caps| && Offset(geometry.caps, level) + slot < ctrl.Length == data.Length
      requires var s := Offset(geometry.caps, level) + slot;
               ctrl[s] == Controls.Full(env.keys.Fp(key)) && Holds(data[s], key)
      ensures key in at && at[key] == Offset(geometry.caps, level) + slot
    {
      hide Intact, IsGeometry, Offset, Scheduling;
      MetIsPresent(env, Snap(), key, Offset(geometry.caps, level) + slot);
    }

    // ---- Choosing a slot ----

    /** Whether one probe of a level yields a free slot, and which. */
    method Vacancy(level: nat, hash: Word, logical: nat) returns (r: Option<nat>)
      requires level < |geometry.caps| && ctrl.Length == Offset(geometry.caps, |geometry.caps|)
               && SoundRouter(env.route)
      ensures r == FreeProbe(env.route, geometry.caps, ctrl[..], hash, level, logical)
    {
      hide Offset;
      var slot := env.route(hash, level, logical, geometry.caps[level]);
      if slot.None? {
        return None;
      }
      LevelInside(geometry.caps, level);
      if IsFree(ctrl[Offset(geometry.caps, level) + slot.value]) {
        r := slot;
      } else {
        r := None;
      }
    }

    /** First of a level's leading `limit` probes that yields a free slot. */
    method UniformVacancy(hash: Word, level: nat, limit: nat) returns (r: Option<(nat, nat)>)
      requires level < |geometry.caps| && ctrl.Length == Offset(geometry.caps, |geometry.caps|)
               && SoundRouter(env.route)
      ensures r == FirstFree(env.route, geometry.caps, ctrl[..], hash, level, 0, limit)
    {
      hide FreeProbe, Offset;
      var logical := 0;
      while logical < limit
        invariant logical <= limit
        invariant FirstFree(env.route, geometry.caps, ctrl[..], hash, level, 0, limit)
               == FirstFree(env.route, geometry.caps, ctrl[..], hash, level, logical, limit)
      {
        var slot := Vacancy(level, hash, logical);
        if slot.Some? {
          return Some((slot.value, logical));
        }
        logical := logical + 1;
      }
      return None;
    }

    function FreeSlots(level: nat): nat
      reads this
      requires level < |geometry.caps| && level < |levelLen|
    {
      FreeCount(geometry.caps, levelLen, level)
    }

    /** The table as placement sees it. */
    ghost function Seen(): View
      reads this, ctrl
    {
      View(env.route, Plan(), Occ(), ctrl[..])
    }

    /** Live entries never exceed a level's slots. */
    lemma FreeSlotsExact(level: nat)
      requires Sound() && level < |geometry.caps|
      ensures level < |levelLen| && FreeSlots(level) == Free(Plan(), Occ(), level)
    {
      hide IsGeometry, EntriesFindable, EntriesRouted, SoundEnv, Scheduling, Stored, IsSchedule, Offset;
      CountExtremes(Region(geometry.caps, ctrl[..], level));
    }

    /** The probe budget Case 1 gives the current level. */
    ghost predicate IsBudget(budget: nat, current: nat)
      reads this, ctrl
      requires current < |geometry.caps| && current < |levelLen|
    {
      BudgetIn(Seen(), budget, current)
    }

    ghost function FirstFreeOn(hash: Word, level: nat, limit: nat): Option<(nat, nat)>
      reads this, ctrl
      requires level < |geometry.caps|
    {
      FirstFreeIn(Seen(), hash, level, limit)
    }

    /** The target chooses this placement. */
    ghost predicate Chosen(hash: Word, target: BatchTarget, p: Placement, logical: nat)
      reads this, ctrl
      requires |levelLen| == |geometry.caps|
    {
      ChosenIn(Seen(), hash, target, p, logical)
    }

    /** The target has no slot for the hash. */
    ghost predicate Stuck(hash: Word, target: BatchTarget)
      reads this, ctrl
      requires |levelLen| == |geometry.caps|
    {
      StuckIn(Seen(), hash, target)
    }

    /** What the table has for a view, and the batch ends its scheduler runs on. */
    lemma SeenIs(st: State<K, V>)
      requires (Valid() || Sound()) && Snap() == st
      ensures Seen() == ViewOf(env, d, st) && Leveled(Seen())
      ensures forall index: nat :: ActiveIn(Seen(), index) <==> Active(scheduler.batchEnds, len, index)
    {
      hide Inv, Intact, Sound, Valid, Active, Offset, IsSchedule;
      Facts();
      LevelCounters();
      PlanEnds();
    }

    lemma PlanEnds()
      requires IsGeometry(geometry, d) && geometry.slots != 1 && Scheduling()
      ensures QuotasDefined(None, geometry.caps, d) && scheduler.batchEnds == BatchEnds(Plan())
    {
      hide Ends;
    }

    /** The active target of the present live count has no reachable slot for the hash. */
    ghost predicate StuckActive(hash: Word)
      reads this, scheduler, ctrl
    {
      |levelLen| == |geometry.caps| && exists index: nat :: Active(scheduler.batchEnds, len, index)
                                                            && Stuck(hash, TargetOf(index))
    }

    /** The placement for a free probe found within a level's limit. */
    method Placed(hash: Word, level: nat, found: (nat, nat)) returns (p: Placement)
      requires level < |geometry.caps| <= MAX_LEVELS
      requires FirstFreeOn(hash, level, LevelProbeLimit(level)) == Some(found)
      ensures p.level == level && p.slot == found.0 && Routes(env.route, geometry.caps, ctrl[..], hash, p, found.1)
    {
      hide FirstFree, FreeProbe, LevelProbeLimit, QueryPosition.Phi;
      FirstFreeFinds(env.route, geometry.caps, ctrl[..], hash, level, 0, LevelProbeLimit(level));
      LevelProbeLimitExact(level, found.1);
      PositionSmall(level + 1, found.1 + 1);
      var phi := QueryPosition.ElasticPhi(level + 1, found.1 + 1);
      p := Placement(level, found.0, phi.value);
    }

    method ChooseSlotForNewKey(hash: Word, target: BatchTarget) returns (r: Option<Placement>, ghost logical: nat)
      requires Valid() || Sound()
      ensures |levelLen| == |geometry.caps|
      ensures r.Some? ==> Chosen(hash, target, r.value, logical)
      ensures r.None? ==> Stuck(hash, target)
    {
      hide Inv, Intact, Sound, IsGeometry, Scheduling, FirstFree, LevelProbeLimit, Routes, Offset, SoundKeys,
           HalfReserved;
      Facts();
      logical := 0;
      if |geometry.caps| == 0 {
        return None, 0;
      }
      match target {
        case Bootstrap =>
          var found := UniformVacancy(hash, 0, LevelProbeLimit(0));
          if found.None? {
            return None, 0;
          }
          var p := Placed(hash, 0, found.value);
          return Some(p), found.value.1;
        case LevelPair(current) =>
          r, logical := ChooseInPair(hash, current);
      }
    }

    /** Cases 1 to 3 for an active pair of levels. */
    method ChooseInPair(hash: Word, current: nat) returns (r: Option<Placement>, ghost logical: nat)
      requires Sound()
      ensures |levelLen| == |geometry.caps|
      ensures r.Some? ==> Chosen(hash, LevelPair(current), r.value, logical)
      ensures r.None? ==> Stuck(hash, LevelPair(current))
    {
      hide Valid, Inv, Intact, Sound, IsGeometry, Scheduling, FirstFree, LevelProbeLimit, Routes, Offset, SoundKeys,
           HalfReserved, FreeSlots, BudgetIn;
      Facts();
      var next := current + 1;
      if next >= |geometry.caps| {
        return None, 0;
      }
      FreeSlotsExact(current);
      FreeSlotsExact(next);
      var freeCurrent, freeNext := FreeSlots(current), FreeSlots(next);
      var currentLow := freeCurrent <= HalfReserved(geometry.caps[current], d);
      var nextLow := 4 * freeNext <= geometry.caps[next];
      if !currentLow && nextLow {
        var found := UniformVacancy(hash, current, LevelProbeLimit(current));
        if found.None? {
          return None, 0;
        }
        var p := Placed(hash, current, found.value);
        return Some(p), found.value.1;
      }
      if !currentLow {
        var budget := CurrentBudget(current);
        var found := UniformVacancy(hash, current, budget);
        if found.Some? {
          WiderLimit(hash, current, budget);
          var p := Placed(hash, current, found.value);
          return Some(p), found.value.1;
        }
      }
      var found := UniformVacancy(hash, next, LevelProbeLimit(next));
      if found.None? {
        return None, 0;
      }
      var p := Placed(hash, next, found.value);
      return Some(p), found.value.1;
    }

    /** The dyadic budget, cut off at the level's probe limit. */
    method CurrentBudget(current: nat) returns (budget: nat)
      requires Sound() && current < |geometry.caps|
      requires current < |levelLen| && 0 < FreeSlots(current) <= geometry.caps[current]
      ensures IsBudget(budget, current) && budget <= LevelProbeLimit(current)
    {
      hide Intact, Scheduling, LevelProbeLimit, FreeSlots, IsBudget, ProbeBudget.IsLogRatio, IsGeometry;
      Facts();
      CapsSmall(current);
      ghost var k;
      var dyadic;
      dyadic, k := ProbeBudget.ElasticDyadicProbeBudget(FreeSlots(current), geometry.caps[current], d,
                                                        ELASTIC_PROBE_BUDGET_C);
      BudgetFits(k);
      budget := ProbeBudget.Least(dyadic.value, LevelProbeLimit(current));
      IsTheBudget(budget, current, k);
    }

    lemma IsTheBudget(budget: nat, current: nat, k: nat)
      requires current < |geometry.caps| && current < |levelLen|
      requires ProbeBudget.IsLogRatio(FreeSlots(current), geometry.caps[current], k)
      requires budget == ProbeBudget.Least(ELASTIC_PROBE_BUDGET_C * ProbeBudget.Least(k * k, d),
                                           LevelProbeLimit(current))
      ensures IsBudget(budget, current)
    {
      hide ProbeBudget.IsLogRatio, LevelProbeLimit, ProbeBudget.Least;
    }

    lemma BudgetMeans(budget: nat, current: nat) returns (k: nat)
      requires current < |geometry.caps| && current < |levelLen| && IsBudget(budget, current)
      ensures ProbeBudget.IsLogRatio(FreeSlots(current), geometry.caps[current], k)
      ensures budget == ProbeBudget.Least(ELASTIC_PROBE_BUDGET_C * ProbeBudget.Least(k * k, d),
                                          LevelProbeLimit(current))
    {
      hide ProbeBudget.IsLogRatio, LevelProbeLimit, ProbeBudget.Least;
      var v := Seen();
      k :| && ProbeBudget.IsLogRatio(FreeCount(v.plan.caps, v.occ.levels, current), v.plan.caps[current], k)
           && budget == ProbeBudget.Least(ELASTIC_PROBE_BUDGET_C * ProbeBudget.Least(k * k, v.plan.d),
                                          LevelProbeLimit(current));
    }

    lemma CapsSmall(level: nat)
      requires Sound() && level < |geometry.caps|
      ensures geometry.caps[level] <= U32_LIMIT
    {
      hide Intact, Scheduling;
      GeometryFits(geometry, d);
      ElementsBelowSum(geometry.caps, level);
    }

    lemma BudgetFits(k: nat)
      requires d < U32_LIMIT
      ensures ELASTIC_PROBE_BUDGET_C * ProbeBudget.Least(k * k, d) < USIZE_LIMIT
    {
    }

    /** A free probe found under a smaller limit is the first under a larger one. */
    lemma WiderLimit(hash: Word, level: nat, limit: nat)
      requires level < |geometry.caps| && limit <= LevelProbeLimit(level) && FirstFreeOn(hash, level, limit).Some?
      ensures FirstFreeOn(hash, level, LevelProbeLimit(level)) == FirstFreeOn(hash, level, limit)
    {
      FirstFreeWider(env.route, geometry.caps, ctrl[..], hash, level, 0, limit, LevelProbeLimit(level));
    }

    predicate HasRoom(target: BatchTarget)
      reads this
      requires |levelLen| == |geometry.caps|
    {
      RoomIn(geometry.caps, levelLen, target)
    }

    /** Retries placement on every other batch target with room, shallowest first. */
    method ChooseSlotOnOtherTargets(hash: Word, target: BatchTarget) returns (r: Option<Placement>, ghost logical: nat)
      requires Valid() || Sound()
      ensures r.Some? ==> Routes(env.route, geometry.caps, ctrl[..], hash, r.value, logical)
                          && r.value.level < |geometry.caps|
                          && ThroughOther(Seen(), hash, target, SeatOf(r.value))
      ensures |levelLen| == |geometry.caps|
      ensures r.None? ==> OthersStuck(Seen(), hash, target, Larger(|geometry.caps|, 1))
    {
      hide Valid, Inv, Intact, Sound, IsGeometry, Scheduling, Routes, StuckIn, ChosenIn, RoomIn;
      Facts();
      LevelCounters();
      var candidates := Larger(|geometry.caps|, 1);
      var i := 0;
      while i < candidates
        invariant i <= candidates
        invariant OthersStuck(Seen(), hash, target, i)
      {
        var candidate := if i == 0 then Bootstrap else LevelPair(i - 1);
        if candidate != target && HasRoom(candidate) {
          r, logical := ChooseSlotForNewKey(hash, candidate);
          if r.Some? {
            TargetAllows(hash, candidate, r.value, logical);
            IsThroughOther(hash, target, i, r.value, logical);
            return;
          }
        }
        i := i + 1;
      }
      return None, 0;
    }

    /** A placement's slot in the arena. */
    ghost function SeatOf(p: Placement): Seat
      reads this
      requires p.level < |geometry.caps|
    {
      Seat(Offset(geometry.caps, p.level) + p.slot, p.phi, false)
    }

    lemma IsThrough(hash: Word, target: BatchTarget, p: Placement, logical: nat)
      requires |levelLen| == |geometry.caps| && p.level < |geometry.caps| && Chosen(hash, target, p, logical)
      ensures Through(Seen(), hash, target, SeatOf(p))
    {
      hide ChosenIn;
    }

    lemma IsThroughOther(hash: Word, target: BatchTarget, i: nat, p: Placement, logical: nat)
      requires |levelLen| == |geometry.caps| && p.level < |geometry.caps| && Chosen(hash, TargetOf(i), p, logical)
      requires i < Larger(|geometry.caps|, 1) && TargetOf(i) != target && OthersStuck(Seen(), hash, target, i)
      requires HasRoom(TargetOf(i))
      ensures ThroughOther(Seen(), hash, target, SeatOf(p))
    {
      hide ChosenIn, OthersStuck, RoomIn;
      IsThrough(hash, TargetOf(i), p, logical);
    }

    // ---- Placement ----

    /** The field updates of a new entry. */
    method WriteNewEntry(key: K, value: V, fs: FilterSlot, fp: bv8, level: nat, slot: nat, outside: bool)
      requires level < |geometry.caps| == |levelLen| == |levelTombs|
      requires var s := Offset(geometry.caps, level) + slot;
               s < ctrl.Length && s < data.Length && (ctrl[s] == Tombstone ==> levelTombs[level] > 0)
      requires fs.index < filter.Length && fs.bin < |filter[fs.index].bins|
      requires fs == FilterSlotOf(env, Snap(), key) && fp == env.keys.Fp(key)
      modifies `len, `levelLen, `levelTombs, `exceptional, `at, ctrl, data, filter
      ensures Snap() == WriteNew(env, old(Snap()), level, Offset(geometry.caps, level) + slot, key, value, outside)
      ensures old(NoTombstones()) ==> NoTombstones()
    {
      hide Offset, SummaryLevel, Record;
      var s := Offset(geometry.caps, level) + slot;
      var previous := ctrl[s];
      StoreEntry(s, key, value, fs, fp, SummaryLevel(level));
      CountEntry(level, previous == Tombstone, outside);
      at := at[key := s];
      assert old(NoTombstones()) ==> NoTombstones() by {
        assert forall x :: 0 <= x < ctrl.Length ==> ctrl[x] == ctrl[..][x];
      }
    }

    /** The array updates of a new entry. */
    method StoreEntry(s: nat, key: K, value: V, fs: FilterSlot, fp: bv8, bit: nat)
      requires s < ctrl.Length && s < data.Length && fs.index < filter.Length && fs.bin < |filter[fs.index].bins|
      modifies ctrl, data, filter
      ensures ctrl[..] == old(ctrl[..])[s := Controls.Full(fp)] && data[..] == old(data[..])[s := Entry(key, value)]
      ensures filter[..] == Record(old(filter[..]), fs, bit)
    {
      data[s] := Entry(key, value);
      ctrl[s] := Controls.Full(fp);
      filter[fs.index] := RecordWord(filter[fs.index], fs, bit);
    }

    /** The counter updates of a new entry on a level. */
    method CountEntry(level: nat, wasTombstone: bool, outside: bool)
      requires level < |levelLen| == |levelTombs| && (wasTombstone ==> levelTombs[level] > 0)
      modifies `len, `levelLen, `levelTombs, `exceptional
      ensures len == old(len) + 1 && levelLen == old(levelLen)[level := old(levelLen)[level] + 1]
      ensures levelTombs == if wasTombstone then old(levelTombs)[level := old(levelTombs)[level] - 1]
                            else old(levelTombs)
      ensures exceptional == (old(exceptional) || outside)
    {
      if outside {
        exceptional := true;
      }
      levelLen := levelLen[level := levelLen[level] + 1];
      if wasTombstone {
        levelTombs := levelTombs[level := levelTombs[level] - 1];
      }
      len := len + 1;
    }

    ghost predicate NoTombstones()
      reads `ctrl, ctrl
    {
      forall s :: 0 <= s < ctrl.Length ==> ctrl[s] != Tombstone
    }

    /** Growth is due and fails: the table is already the largest, or the hasher does not survive the
        entries. */
    static ghost predicate CannotGrow(st: State<K, V>, hashes: int)
    {
      st.len >= st.maxInsertions && !(NextSlots(|st.data|) <= MAX_ELASTIC_SLOTS && st.len <= hashes)
    }

    /** Hashes that growth takes, if it is due. */
    static function Spent(st: State<K, V>): nat
    {
      if st.len < st.maxInsertions then 0 else st.len
    }

    /** What has room for one more entry: a table below its limit itself, any other rebuilt at the next slot
        count. */
    static ghost predicate Roomy(env: Env<K>, d: nat, before: State<K, V>, after: State<K, V>)
    {
      if before.len < before.maxInsertions then after == before
      else
        && Rebuilt(env, d, before, after) && after.caps == CapsOf(NextSlots(|before.data|))
        && after.maxInsertions == LimitOf(NextSlots(|before.data|), d)
    }

    /** A recovery rebuild is due, because no target has a slot for the key in an ordinary epoch. */
    static ghost predicate RecoveryDue(env: Env<K>, d: nat, st: State<K, V>, key: K)
    {
      AllStuck(ViewOf(env, d, st), env.keys.hash(key)) && !st.exceptional
    }

    /** What a key is placed in: the table itself, unless a recovery is due; then the table rebuilt at its
        size. */
    static ghost predicate Ready(env: Env<K>, d: nat, before: State<K, V>, after: State<K, V>, key: K)
    {
      if RecoveryDue(env, d, before, key) then
        Rebuilt(env, d, before, after) && after.caps == before.caps && after.maxInsertions == before.maxInsertions
      else after == before
    }

    /** Where a key taken for absent is placed: through the active target, else through the first other target
        that has a slot. If none has, outside its routes in an exceptional epoch; in an ordinary one, on the
        rebuilt table, through the active target or outside its routes. */
    static ghost predicate Settles(env: Env<K>, d: nat, grown: State<K, V>, mid: State<K, V>, key: K, seat: Seat)
    {
      var hash := env.keys.hash(key);
      if !AllStuck(ViewOf(env, d, grown), hash) then ThroughSome(ViewOf(env, d, mid), hash, seat)
      else if grown.exceptional then Outside(ViewOf(env, d, mid), seat)
      else Seats(ViewOf(env, d, mid), hash, seat)
    }

    /** How inserting a key taken for absent goes under a hasher that survives `hashes` keys. It is placed
        unless growth is due and fails, or then a recovery is due and the hasher does not survive that. If
        it is placed, it settles in what growth and recovery have made of the table; if not, the table is as
        growth left it. */
    static ghost predicate Inserts(env: Env<K>, d: nat, before: State<K, V>, hashes: nat, grown: State<K, V>,
                                   mid: State<K, V>, after: State<K, V>, key: K, value: V, seat: Seat, placed: bool)
    {
      && (if CannotGrow(before, hashes) then grown == before else Roomy(env, d, before, grown))
      && (placed <==> !CannotGrow(before, hashes)
                      && !(RecoveryDue(env, d, grown, key) && hashes - Spent(before) < grown.len))
      && (if placed then
            Ready(env, d, grown, mid, key) && Settles(env, d, grown, mid, key, seat)
            && SeatedAt(env, mid, after, key, value, seat)
          else after == grown)
    }

    /** The same entries, perhaps in another generation, and no less valid or recorded. */
    static ghost predicate Carried(env: Env<K>, before: State<K, V>, after: State<K, V>)
    {
      && Intact(env, after) && MapOf(env, after) == MapOf(env, before) && after.at.Keys == before.at.Keys
      && (Inv(env, before) ==> Inv(env, after)) && (EntriesRecorded(env, before) ==> EntriesRecorded(env, after))
    }

    lemma IsCarried(before: State<K, V>)
      requires (Valid() || Sound()) && M() == MapOf(env, before) && at.Keys == before.at.Keys
      requires (Inv(env, before) ==> Valid()) && (EntriesRecorded(env, before) ==> Recording())
      ensures Carried(env, before, Snap())
    {
      hide IsGeometry, Inv, Intact, Valid, Sound, M, MapOf, Scheduling, Recording, EntriesRecorded;
      Core();
      RecordingIs(Snap());
    }

    lemma CarriedSelf()
      requires Valid() || Sound()
      ensures Carried(env, Snap(), Snap())
    {
      hide IsGeometry, Inv, Intact, Valid, Sound, M, MapOf, Scheduling, EntriesRecorded;
      Core();
    }

    static lemma CarriedOn(env: Env<K>, before: State<K, V>, between: State<K, V>, after: State<K, V>)
      requires Carried(env, before, between) && Carried(env, between, after)
      ensures Carried(env, before, after)
    {
      hide Inv, Intact, MapOf, EntriesRecorded;
    }

    /** The key is in two live slots: the one it had in `mid`, and another. */
    ghost predicate StoredTwice(mid: State<K, V>, key: K)
      reads this, ctrl, data
    {
      key in mid.at && key in at && HeldTwice(ctrl[..], data[..], key, mid.at[key], at[key])
    }

    /** The slot map has the key at this location. */
    ghost predicate AtLocation(loc: Location, key: K)
      reads this
    {
      InLevel(loc) && key in at && at[key] == Offset(geometry.caps, loc.level) + loc.slot
    }

    /** What the table is once a key has been written: with a new key, the map gains it; with one that was
        stored all along, no slot map makes the table sound. */
    lemma Written(before: State<K, V>, mid: State<K, V>, key: K, value: V)
      requires 1 <= d < U32_LIMIT && IsGeometry(geometry, d) && geometry.slots != 1 && Scheduling()
      requires Carried(env, before, mid) && Put(env, mid, Snap(), key, value)
      ensures key in at && at[key] < ctrl.Length && at[key] < data.Length && ctrl[at[key]].Full?
              && data[at[key]] == Entry(key, value)
      ensures key !in before.at ==> Sound() && M() == MapOf(env, before)[key := value] && key in M()
      ensures key !in before.at && Inv(env, before) ==> Valid() && (Tight(env, mid) ==> TightFilter())
      ensures key !in before.at && EntriesRecorded(env, before) ==> Recording()
      ensures key in before.at ==> StoredTwice(mid, key) && !Sound()
    {
      hide IsGeometry, Inv, Intact, Valid, Sound, M, MapOf, Scheduling, SummaryLevel, LevelAt, Record, Target,
           IsSchedule, Recording, EntriesRecorded, HeldTwice, Tight;
      PutMeans(env, mid, Snap(), key, value);
      RecordingIs(Snap());
      assert Snap().ctrl == ctrl[..] && Snap().data == data[..];
      if key in before.at {
        NotSound(key, mid.at[key], at[key]);
      } else {
        Represents(Snap(), MapOf(env, Snap()));
      }
    }

    lemma WrittenHere(loc: Location, key: K, value: V)
      requires AtLocation(loc, key) && at[key] < ctrl.Length && at[key] < data.Length && ctrl[at[key]].Full?
      requires data[at[key]] == Entry(key, value) && key in M() && M()[key] == value
      ensures LiveEntryAt(loc, key)
    {
      hide M, Offset;
    }

    /** With a key in two live slots, no slot map makes the table sound. */
    lemma NotSound(key: K, s: nat, s': nat)
      requires HeldTwice(ctrl[..], data[..], key, s, s')
      ensures !Sound()
    {
      hide IsGeometry, Scheduling, Stored, HeldTwice;
      if Sound() {
        SoundEnvOf(env, Snap());
        TwiceIsNotStored(ctrl[..], data[..], env.keys, at, key, s, s');
      }
    }

    /** Extends the schedule to the placement's query position, then writes the entry. A new key joins the
        map; one that was stored all along is then in two live slots. */
    method PlaceNewEntry(key: K, value: V, hash: Word, fs: FilterSlot, fp: bv8, p: Placement, ghost logical: nat)
      requires (Valid() || Sound()) && len < geometry.maxInsertions
      requires hash == env.keys.hash(key) && Routes(env.route, geometry.caps, ctrl[..], hash, p, logical)
      requires fs == FilterSlotOf(env, Snap(), key) && fp == env.keys.Fp(key)
      modifies `len, `levelLen, `levelTombs, `exceptional, `at, `highWater, `schedule, ctrl, data, filter
      ensures Put(env, old(Snap()), Snap(), key, value) && AtLocation(Location(p.level, p.slot), key)
      ensures |levelLen| == |geometry.caps| && OneMore(old(Occ()), Occ(), p.level)
      ensures exceptional == old(exceptional)
      ensures highWater == Larger(old(highWater), p.phi)
      ensures old(NoTombstones()) ==> NoTombstones()
      ensures Wrote(env, old(Snap()), Snap(), p.level, Offset(geometry.caps, p.level) + p.slot, key, value)
      ensures key !in old(at) ==> Sound() && M() == old(M())[key := value] && at.Keys == old(at).Keys + {key}
                                  && LiveEntryAt(Location(p.level, p.slot), key)
      ensures key !in old(at) && old(Valid()) ==> Valid() && (old(TightFilter()) ==> TightFilter())
      ensures key !in old(at) && old(Recording()) ==> Recording()
      ensures key in old(at) ==> StoredTwice(old(Snap()), key) && !Sound()
    {
      hide Inv, Intact, Sound, Valid, M, MapOf, IsGeometry, Scheduling, Tight, NoTombstones, LiveEntryAt, TightFilter,
           Routes, Wrote, Put, AtLocation, Offset, Recording, EntriesRecorded, Carried, StoredTwice;
      Core();
      ghost var before := Snap();
      RecordingIs(before);
      TightIs(before);
      CarriedSelf();
      WriteRouted(key, value, hash, fs, fp, p, logical);
      Written(before, before, key, value);
      if key !in before.at {
        WrittenHere(Location(p.level, p.slot), key, value);
      }
    }

    /** The schedule's and the entry's fields, and what was written. */
    method WriteRouted(key: K, value: V, hash: Word, fs: FilterSlot, fp: bv8, p: Placement, ghost logical: nat)
      requires (Valid() || Sound()) && len < geometry.maxInsertions
      requires hash == env.keys.hash(key) && Routes(env.route, geometry.caps, ctrl[..], hash, p, logical)
      requires fs == FilterSlotOf(env, Snap(), key) && fp == env.keys.Fp(key)
      modifies `len, `levelLen, `levelTombs, `exceptional, `at, `highWater, `schedule, ctrl, data, filter
      ensures Put(env, old(Snap()), Snap(), key, value) && AtLocation(Location(p.level, p.slot), key)
      ensures |levelLen| == |geometry.caps| && OneMore(old(Occ()), Occ(), p.level)
      ensures exceptional == old(exceptional)
      ensures highWater == Larger(old(highWater), p.phi)
      ensures old(NoTombstones()) ==> NoTombstones()
      ensures Wrote(env, old(Snap()), Snap(), p.level, Offset(geometry.caps, p.level) + p.slot, key, value)
      ensures at.Keys == old(at).Keys + {key}
    {
      hide Inv, Intact, Sound, Valid, M, MapOf, IsGeometry, Scheduling, Target, FreeProbe, IsSchedule, NoTombstones,
           Position, Routes, Wrote, Put, Offset, SummaryLevel, TightFilter, Recording, WriteNew, OneMore, AtLocation;
      ghost var before := Snap();
      RaiseFor(key, hash, p, logical);
      ghost var raised := Snap();
      WriteNewEntry(key, value, fs, fp, p.level, p.slot, false);
      IsPut(env, before, raised, Snap(), p.level, Offset(geometry.caps, p.level) + p.slot, key, value, false);
      WroteOne(raised, p.level, p.slot, key, value);
    }

    /** A written entry in the table's fields. */
    lemma WroteOne(raised: State<K, V>, level: nat, slot: nat, key: K, value: V)
      requires level < |geometry.caps| == |raised.levelTombs| == |raised.levelLen| && InLevel(Location(level, slot))
      requires var s := Offset(geometry.caps, level) + slot;
               && s < |raised.ctrl| && s < |raised.data|
               && (raised.ctrl[s] == Tombstone ==> raised.levelTombs[level] > 0)
      requires var fs := FilterSlotOf(env, raised, key);
               fs.index < |raised.filter| && fs.bin < |raised.filter[fs.index].bins|
      requires Snap() == WriteNew(env, raised, level, Offset(geometry.caps, level) + slot, key, value, false)
      ensures OneMore(Occupancy(raised.levelLen, raised.len), Occ(), level) && |levelLen| == |geometry.caps|
      ensures AtLocation(Location(level, slot), key) && at.Keys == raised.at.Keys + {key}
      ensures exceptional == raised.exceptional && highWater == raised.highWater
    {
      hide Offset, SummaryLevel, Record;
    }

    /** Raises the schedule for a placement, whose slot is then a target for the key, and there to be written. */
    method RaiseFor(ghost key: K, ghost hash: Word, p: Placement, ghost logical: nat)
      requires (Valid() || Sound()) && hash == env.keys.hash(key)
      requires Routes(env.route, geometry.caps, ctrl[..], hash, p, logical)
      modifies `highWater, `schedule
      ensures Snap() == old(Snap()).(highWater := highWater, schedule := schedule)
      ensures highWater == Larger(old(highWater), p.phi) <= QUERY_POSITION_CAP && old(schedule) <= schedule
      ensures IsSchedule(schedule, geometry.caps, highWater)
      ensures p.level < |geometry.caps| == |levelTombs| == |levelLen| && InLevel(Location(p.level, p.slot))
      ensures var s := Offset(geometry.caps, p.level) + p.slot;
              && s < ctrl.Length == data.Length && (ctrl[s] == Tombstone ==> levelTombs[p.level] > 0)
              && Target(env, Snap(), key, p.level, s, false)
      ensures var fs := FilterSlotOf(env, Snap(), key); fs.index < filter.Length && fs.bin < |filter[fs.index].bins|
    {
      hide Inv, Intact, Sound, Valid, M, MapOf, IsGeometry, Scheduling, Target, FreeProbe, IsSchedule, Position,
           Routes, Offset, TightFilter, Recording;
      RoutedSlot(key, hash, p, logical);
      RaiseHighWater(p.phi, p, hash, logical);
      ScheduleIs();
      ReachesTarget(key, hash, p, logical);
    }

    /** A slot some probe leads to is free, and there to be written. */
    lemma RoutedSlot(key: K, hash: Word, p: Placement, logical: nat)
      requires (Valid() || Sound()) && Routes(env.route, geometry.caps, ctrl[..], hash, p, logical)
      ensures p.phi <= QUERY_POSITION_CAP
      ensures p.level < |geometry.caps| == |levelTombs| == |levelLen| && InLevel(Location(p.level, p.slot))
      ensures var s := Offset(geometry.caps, p.level) + p.slot;
              && s < ctrl.Length == data.Length && IsFree(ctrl[s]) && (ctrl[s] == Tombstone ==> levelTombs[p.level] > 0)
      ensures var fs := FilterSlotOf(env, Snap(), key); fs.index < filter.Length && fs.bin < |filter[fs.index].bins|
    {
      hide IsGeometry, Sound, Valid, Intact, Inv, Scheduling, Offset, LevelProbeLimit, QueryPosition.Phi, WordCount,
           ValidFilter, Readout, OnRoute, MapOf, LevelAt;
      Facts();
      RoutedInside(hash, p.level, logical, p.slot);
      WriteReady(env, Snap(), p.level, Offset(geometry.caps, p.level) + p.slot, key, true);
    }

    /** `extend_probe_schedule` on the table's fields. */
    method RaiseHighWater(phi: nat, ghost p: Placement, ghost hash: Word, ghost logical: nat)
      requires (Valid() || Sound()) && phi <= QUERY_POSITION_CAP
      modifies `highWater, `schedule
      ensures Sound() && M() == old(M()) && highWater == Larger(old(highWater), phi)
      ensures old(Valid()) ==> Valid()
      ensures Snap() == old(Snap()).(highWater := highWater, schedule := schedule)
      ensures old(schedule) <= schedule
      ensures old(TightFilter()) ==> TightFilter()
      ensures old(Recording()) ==> Recording()
    {
      hide Inv, Intact, Sound, Valid, M, IsGeometry, Scheduling, Reflects, IsSchedule, Recording, EntriesRecorded;
      Facts();
      ScheduleIs();
      ghost var before := Snap();
      RecordingIs(before);
      schedule, highWater := ExtendProbeSchedule(schedule, geometry.caps, highWater, phi);
      ExtendKeepsIntact(env, before, schedule, highWater);
      if Inv(env, before) {
        ExtendKeepsInv(env, before, schedule, highWater);
      }
      assert Snap() == before.(schedule := schedule, highWater := highWater);
      Represents(Snap(), MapOf(env, before));
      SameTight(env, before, Snap());
      RecordingIs(Snap());
    }

    lemma ScheduleIs()
      requires Valid() || Sound()
      ensures IsSchedule(schedule, geometry.caps, highWater) && |geometry.caps| <= MAX_LEVELS
              && highWater <= QUERY_POSITION_CAP
    {
      hide IsSchedule, IsGeometry, EntriesFindable, EntriesRouted, SoundEnv, Scheduling, Stored, Counted;
    }

    /** Once the schedule covers a placement's position, its slot is a target for the key. */
    lemma ReachesTarget(key: K, hash: Word, p: Placement, logical: nat)
      requires Valid() || Sound()
      requires hash == env.keys.hash(key) && Routes(env.route, geometry.caps, ctrl[..], hash, p, logical)
      requires p.phi <= highWater
      ensures p.level < |geometry.caps|
              && Target(env, Snap(), key, p.level, Offset(geometry.caps, p.level) + p.slot, false)
    {
      hide Valid, Inv, Intact, Sound, IsGeometry, Scheduling, Offset, LevelProbeLimit, IsSchedule, QueryPosition.Phi;
      LevelProbeLimitExact(p.level, logical);
      RoutedInside(hash, p.level, logical, p.slot);
      assert RouteAt(env.route, geometry.caps, hash, highWater, Offset(geometry.caps, p.level) + p.slot, p.level,
                     logical);
    }

    /** The key's entry was written, with nothing else changed, at the slot a target chose for it. */
    twostate predicate PlacedBy(hash: Word, key: K, value: V, target: BatchTarget, loc: Location)
      reads this, ctrl, data, filter
    {
      && geometry == old(geometry) && |old(levelLen)| == |old(geometry).caps| && loc.level < |geometry.caps|
      && Wrote(env, old(Snap()), Snap(), loc.level, Offset(geometry.caps, loc.level) + loc.slot, key, value)
      && exists phi: nat, logical: nat :: old(Chosen(hash, target, Placement(loc.level, loc.slot, phi), logical))
    }

    /** Places a key taken for absent through one target, if that target has a slot for it. */
    method PlaceThrough(key: K, value: V, hash: Word, target: BatchTarget)
        returns (r: Option<Location>, ghost seat: Seat)
      requires (Valid() || Sound()) && len < geometry.maxInsertions && hash == env.keys.hash(key)
      modifies `len, `levelLen, `levelTombs, `exceptional, `at, `highWater, `schedule, ctrl, data, filter
      ensures |levelLen| == |geometry.caps| == |old(levelLen)|
      ensures r.None? ==> Snap() == old(Snap()) && Sound() && M() == old(M()) && (old(Valid()) ==> Valid())
                          && |old(levelLen)| == |old(geometry.caps)| && old(Stuck(hash, target))
      ensures r.Some? ==> Put(env, old(Snap()), Snap(), key, value) && AtLocation(r.value, key)
      ensures r.Some? ==> Allowed(Plan(), old(Occ()), target, r.value.level)
                          && OneMore(old(Occ()), Occ(), r.value.level)
      ensures exceptional == old(exceptional)
      ensures r.Some? ==> PlacedBy(hash, key, value, target, r.value)
      ensures r.Some? ==> Through(old(Seen()), hash, target, seat)
                          && SeatedAt(env, old(Snap()), Snap(), key, value, seat)
      ensures old(NoTombstones()) ==> NoTombstones()
      ensures r.Some? && key !in old(at) ==> Sound() && M() == old(M())[key := value]
                                             && at.Keys == old(at).Keys + {key} && LiveEntryAt(r.value, key)
      ensures r.Some? && key !in old(at) && old(Valid()) ==> Valid() && (old(TightFilter()) ==> TightFilter())
      ensures r.None? && old(TightFilter()) ==> TightFilter()
      ensures (r.Some? ==> key !in old(at)) && old(Recording()) ==> Recording()
      ensures r.Some? && key in old(at) ==> StoredTwice(old(Snap()), key) && !Sound()
    {
      hide Inv, Intact, Sound, Valid, M, IsGeometry, Scheduling, TightFilter, NoTombstones, Chosen, Stuck, Allowed,
           LiveEntryAt, Routes, Wrote, Put, Offset, Recording, StoredTwice, Seen, Through, SeatedAt, OnLevel;
      Core();
      var p;
      ghost var logical, before := 0, Snap();
      seat := Seat(0, 0, false);
      p, logical := ChooseSlotForNewKey(hash, target);
      if p.None? {
        return None, seat;
      }
      TargetAllows(hash, target, p.value, logical);
      IsThrough(hash, target, p.value, logical);
      seat := SeatOf(p.value);
      var fs := env.filterSlot(hash, filter.Length);
      PlaceNewEntry(key, value, hash, fs, env.keys.fingerprint(hash), p.value, logical);
      assert p.value == Placement(p.value.level, p.value.slot, p.value.phi);
      SeatWritten(before, p.value, key, value);
      return Some(Location(p.value.level, p.value.slot)), seat;
    }

    /** A placement's entry is at its seat. */
    lemma SeatWritten(before: State<K, V>, p: Placement, key: K, value: V)
      requires before.caps == geometry.caps && InLevel(Location(p.level, p.slot))
      requires Wrote(env, before, Snap(), p.level, Offset(geometry.caps, p.level) + p.slot, key, value)
      requires highWater == Larger(before.highWater, p.phi)
      ensures SeatedAt(env, before, Snap(), key, value, SeatOf(p))
    {
      hide Wrote, SeatedAt;
      WroteIsSeated(env, before, Snap(), p.level, Offset(geometry.caps, p.level) + p.slot, p.phi, key, value);
    }

    /** A level has one more live entry. */
    static ghost predicate OneMore(before: Occupancy, after: Occupancy, level: nat)
    {
      level < |before.levels| && after == Occupancy(before.levels[level := before.levels[level] + 1], before.len + 1)
    }

    lemma TargetAllows(hash: Word, target: BatchTarget, p: Placement, logical: nat)
      requires |levelLen| == |geometry.caps| && Chosen(hash, target, p, logical)
      ensures Routes(env.route, geometry.caps, ctrl[..], hash, p, logical) && Allowed(Plan(), Occ(), target, p.level)
      ensures p.level < |geometry.caps|
    {
      hide Allowed;
    }

    /** Only exceptional placement reaches this scan; the insertion limit leaves it a free slot. */
    method FirstFreeSlot() returns (level: nat, slot: nat)
      requires (Valid() || Sound()) && len < geometry.maxInsertions
      ensures level < |geometry.caps| && OnLevel(geometry.caps, level, Offset(geometry.caps, level) + slot)
      ensures Offset(geometry.caps, level) + slot < ctrl.Length && IsFree(ctrl[Offset(geometry.caps, level) + slot])
      ensures forall s: nat :: s < Offset(geometry.caps, level) + slot ==> !IsFree(ctrl[s])
    {
      hide Inv, Intact, Sound, Valid, IsGeometry, Scheduling, Offset;
      SomeSlotFree();
      LevelCounters();
      ghost var free: nat :| free < ctrl.Length && IsFree(ctrl[free]);
      level := 0;
      OffsetZero(geometry.caps);
      while true
        invariant level <= |geometry.caps| && Offset(geometry.caps, level) <= free
        invariant forall s: nat :: s < Offset(geometry.caps, level) ==> !IsFree(ctrl[s])
        decreases |geometry.caps| - level
      {
        LevelBelow(level, free);
        LevelInside(geometry.caps, level);
        slot := 0;
        while slot < geometry.caps[level]
          invariant slot <= geometry.caps[level]
          invariant Offset(geometry.caps, level) + slot <= free
          invariant forall s: nat :: s < Offset(geometry.caps, level) + slot ==> !IsFree(ctrl[s])
        {
          if IsFree(ctrl[Offset(geometry.caps, level) + slot]) {
            return;
          }
          slot := slot + 1;
        }
        level := level + 1;
      }
    }

    lemma SomeSlotFree()
      requires (Valid() || Sound()) && len < geometry.maxInsertions
      ensures exists s: nat :: s < ctrl.Length && IsFree(ctrl[s])
    {
      hide Inv, Intact, Sound, Valid, IsGeometry, Scheduling, Offset;
      Facts();
      RoomMeansFree(env, Snap());
      ghost var s: nat :| s < |Snap().ctrl| && IsFree(Snap().ctrl[s]);
      assert ctrl[s] == Snap().ctrl[s];
    }

    /** A slot at or past a level's start but inside the arena leaves a level to scan. */
    lemma LevelBelow(level: nat, s: nat)
      requires level <= |geometry.caps| && Offset(geometry.caps, level) <= s < Offset(geometry.caps, |geometry.caps|)
      ensures level < |geometry.caps|
    {
    }

    /** Places a key outside its routes and marks the epoch. A new key joins the map; one that was stored all
        along is then in two live slots. */
    method PlaceOutside(key: K, value: V, fs: FilterSlot, fp: bv8) returns (r: Option<Location>)
      requires (Valid() || Sound()) && len < geometry.maxInsertions
      requires fs == FilterSlotOf(env, Snap(), key) && fp == env.keys.Fp(key)
      modifies `len, `levelLen, `levelTombs, `exceptional, `at, ctrl, data, filter
      ensures r.Some? && exceptional && Put(env, old(Snap()), Snap(), key, value) && AtLocation(r.value, key)
              && key in at
      ensures Outside(old(Seen()), Seat(at[key], 0, true))
              && SeatedAt(env, old(Snap()), Snap(), key, value, Seat(at[key], 0, true))
      ensures len == old(len) + 1
      ensures old(NoTombstones()) ==> NoTombstones()
      ensures key !in old(at) ==> Sound() && M() == old(M())[key := value] && at.Keys == old(at).Keys + {key}
                                  && LiveEntryAt(r.value, key)
      ensures key !in old(at) && old(Valid()) ==> Valid() && (old(TightFilter()) ==> TightFilter())
      ensures key !in old(at) && old(Recording()) ==> Recording()
      ensures key in old(at) ==> StoredTwice(old(Snap()), key) && !Sound()
    {
      hide Inv, Intact, Sound, Valid, M, MapOf, IsGeometry, Scheduling, Target, Tight, IsSchedule, NoTombstones,
           LiveEntryAt, TightFilter, Put, Offset, Recording, EntriesRecorded, Carried, StoredTwice, SummaryLevel,
           Record, SeatedAt, Seen, Outside;
      Core();
      ghost var before := Snap();
      RecordingIs(before);
      TightIs(before);
      IsCarried(before);
      ScheduleIs();
      var level, slot := FirstFreeSlot();
      FirstIsOutside(Offset(geometry.caps, level) + slot);
      FreeIsTarget(key, level, slot);
      WriteNewEntry(key, value, fs, fp, level, slot, true);
      IsPut(env, before, before, Snap(), level, Offset(geometry.caps, level) + slot, key, value, true);
      PutIsSeated(env, before, Snap(), key, value);
      r := Some(Location(level, slot));
      Written(before, before, key, value);
      if key !in before.at {
        WrittenHere(Location(level, slot), key, value);
      }
    }

    lemma FirstIsOutside(s: nat)
      requires s < ctrl.Length && IsFree(ctrl[s]) && forall x: nat :: x < s ==> !IsFree(ctrl[x])
      ensures Outside(Seen(), Seat(s, 0, true))
    {
    }

    /** Any free slot is there to be written once the epoch is exceptional. */
    lemma FreeIsTarget(key: K, level: nat, slot: nat)
      requires Valid() || Sound()
      requires level < |geometry.caps| && OnLevel(geometry.caps, level, Offset(geometry.caps, level) + slot)
      requires Offset(geometry.caps, level) + slot < ctrl.Length && IsFree(ctrl[Offset(geometry.caps, level) + slot])
      ensures level < |geometry.caps| == |levelTombs| == |levelLen| && InLevel(Location(level, slot))
      ensures var s := Offset(geometry.caps, level) + slot;
              && Target(env, Snap(), key, level, s, true) && s < data.Length
              && (ctrl[s] == Tombstone ==> levelTombs[level] > 0)
      ensures var fs := FilterSlotOf(env, Snap(), key); fs.index < filter.Length && fs.bin < |filter[fs.index].bins|
    {
      hide IsGeometry, Sound, Valid, Intact, Inv, Scheduling, Offset, WordCount, ValidFilter, Readout, OnRoute, MapOf,
           LevelAt;
      Facts();
      WriteReady(env, Snap(), level, Offset(geometry.caps, level) + slot, key, true);
    }

    // ---- Rebuild ----

    /** The table's user hasher during a rebuild, which survives `hashes` keys and has hashed `hashed`;
        `None` is a panic. */
    method HashKey(key: K, hashed: nat, hashes: nat) returns (h: Option<Word>)
      ensures h == if hashed < hashes then Some(env.keys.hash(key)) else None
    {
      return if hashed < hashes then Some(env.keys.hash(key)) else None;
    }

    /** Places an entry known to be absent from the generation being rebuilt: through its active
        target, or outside its routes. */
    method PlaceUnique(key: K, value: V, hash: Word) returns (ghost seat: Seat)
      requires Valid() && key !in at && len < geometry.maxInsertions && hash == env.keys.hash(key)
      modifies this, scheduler, ctrl, data, filter
      ensures Valid() && M() == old(M())[key := value] && at.Keys == old(at).Keys + {key} && len == old(len) + 1
      ensures SameArena(old(geometry), old(scheduler), old(ctrl), old(data), old(filter)) && stale == old(stale)
      ensures Seats(old(Seen()), hash, seat) && SeatedAt(env, old(Snap()), Snap(), key, value, seat)
      ensures old(NoTombstones()) ==> NoTombstones()
      ensures old(TightFilter()) ==> TightFilter()
    {
      hide Inv, Intact, Sound, Valid, M, IsGeometry, Scheduling, TightFilter, NoTombstones, StuckIn, Allowed,
           LiveEntryAt, PlacedBy, Put, StoredTwice, AtLocation, Recording, SeatedAt, Seen, Through, ThroughActive,
           ActiveStuck, Outside, ActiveIn;
      ghost var view := Seen();
      SeenIs(Snap());
      var target := ActiveTarget();
      ghost var index := ActiveIndex(view, target, hash);
      var placed;
      placed, seat := PlaceThrough(key, value, hash, target);
      if placed.None? {
        SeenIs(Snap());
        var fs := env.filterSlot(hash, filter.Length);
        placed := PlaceOutside(key, value, fs, env.keys.fingerprint(hash));
        seat := Seat(at[key], 0, true);
      }
    }

    /** The batch the scheduler names is the view's active one, and decides what placement does. */
    lemma ActiveIndex(v: View, target: BatchTarget, hash: Word) returns (index: nat)
      requires (Valid() || Sound()) && v == Seen()
      requires exists i: nat :: Active(scheduler.batchEnds, len, i) && target == TargetOf(i)
      ensures Leveled(v) && ActiveIn(v, index) && target == TargetOf(index)
      ensures ActiveStuck(v, hash) <==> StuckIn(v, hash, target)
      ensures AllStuck(v, hash) <==> StuckIn(v, hash, target)
                                     && OthersStuck(v, hash, target, Larger(|v.plan.caps|, 1))
      ensures forall seat: Seat :: Through(v, hash, target, seat) ==>
                                     ThroughActive(v, hash, seat) && !ActiveStuck(v, hash)
    {
      hide Inv, Intact, Sound, Valid, IsGeometry, Scheduling, Active, ActiveIn, StuckIn, Through, ThroughActive,
           ActiveStuck, AllStuck, OthersStuck, Seen;
      SeenIs(Snap());
      index :| Active(scheduler.batchEnds, len, index) && target == TargetOf(index);
      ActiveDecides(v, hash, index);
    }

    twostate predicate SameArena(g: Geometry, s: BatchScheduler, c: array<Control>, v: array<Slot<K, V>>,
                                 f: array<MetadataWord>)
      reads this
    {
      geometry == g && scheduler == s && ctrl == c && data == v && filter == f
    }

    /** The scheduler's target for the present live count. */
    method ActiveTarget() returns (target: BatchTarget)
      requires Valid() || Sound()
      modifies scheduler
      ensures Sound() && (old(Valid()) ==> Valid()) && M() == old(M()) && Snap() == old(Snap())
      ensures exists index: nat :: Active(scheduler.batchEnds, len, index) && target == TargetOf(index)
    {
      hide Inv, Intact, Sound, Valid, M, IsGeometry;
      Facts();
      ghost var before := Snap();
      target := scheduler.Target(len);
      assert Active(scheduler.batchEnds, len, scheduler.currentBatchIndex);
      Represents(before, MapOf(env, before));
    }

    /** The previous generation as a rebuild reads it. */
    static ghost predicate Source(previous: State<K, V>, oldCtrl: seq<Control>, oldData: seq<Slot<K, V>>)
    {
      && oldCtrl == previous.ctrl && oldData == previous.data
      && |oldCtrl| == |oldData| == Offset(previous.caps, |previous.caps|)
      && (forall s :: 0 <= s < |oldCtrl| ==> Proper(oldCtrl[s]))
      && Readout(oldCtrl, oldData, previous.at)
    }

    /** What the generation being filled holds once the cursor has passed `next`. */
    ghost predicate Holding(previous: State<K, V>, next: nat)
      reads this, scheduler, ctrl, data, filter
    {
      && Valid() && TightFilter() && NoTombstones() && stale == 0
      && at.Keys == Moved(previous.at, next) && len == |at.Keys| && M().Keys == at.Keys && ReadsOff(previous, M())
      && Building(previous, next)
    }

    /** The fields are what a rebuild has built of the previous generation's first `next` slots. */
    ghost predicate Building(previous: State<K, V>, next: nat)
      reads this, ctrl, data, filter
    {
      exists seats: seq<Seat> :: |seats| == next && BuiltWith(env, d, previous, Snap(), seats)
    }

    /** The map binds keys as the previous generation's slots do. */
    static ghost predicate ReadsOff(previous: State<K, V>, m: map<K, V>)
    {
      forall k :: k in m ==> k in previous.at && previous.at[k] < |previous.data|
                             && previous.data[previous.at[k]].Entry?
                             && m[k] == previous.data[previous.at[k]].value
    }

    /** Copies one entry across; `false` is a panicking hasher. */
    method MoveEntry(oldData: array<Slot<K, V>>, slot: nat, hashes: nat, ghost previous: State<K, V>,
                     ghost passed: nat)
        returns (done: bool)
      requires Holding(previous, passed) && Source(previous, previous.ctrl, oldData[..]) && oldData != data
      requires passed <= slot < |previous.ctrl| && slot < oldData.Length && previous.ctrl[slot].Full?
      requires forall s :: passed <= s < slot ==> !previous.ctrl[s].Full?
      requires |previous.at| <= geometry.maxInsertions
      modifies this, scheduler, ctrl, data, filter
      ensures SameArena(old(geometry), old(scheduler), old(ctrl), old(data), old(filter))
      ensures done ==> Holding(previous, slot + 1) && len == old(len) + 1
      ensures done <==> old(len) < hashes
      ensures old(len) < |previous.at|
    {
      hide IsGeometry, Inv, Intact, Sound, Valid, TightFilter, NoTombstones, M, Moved, Holding, ReadsOff, BuiltWith,
           Seats, SeatedAt, Seen;
      ghost var seats := HoldingAt(previous, passed, slot);
      var entry := oldData[slot];
      var hash := HashKey(entry.key, len, hashes);
      if hash.None? {
        return false;
      }
      ghost var keys, m, before := at.Keys, M(), Snap();
      SeenIs(before);
      ghost var seat := PlaceUnique(entry.key, entry.value, hash.value);
      HoldingNext(previous, passed, slot, keys, m, before, seats, seat);
      return true;
    }

    /** What a held generation says of the next slot to move. */
    lemma HoldingAt(previous: State<K, V>, passed: nat, slot: nat) returns (seats: seq<Seat>)
      requires Holding(previous, passed) && Source(previous, previous.ctrl, previous.data)
      requires passed <= slot < |previous.ctrl| && previous.ctrl[slot].Full?
      requires forall s :: passed <= s < slot ==> !previous.ctrl[s].Full?
      ensures Valid() && TightFilter() && NoTombstones() && stale == 0 && len == |at.Keys|
      ensures slot < |previous.data| && previous.data[slot].Entry? && previous.data[slot].key !in at
      ensures len < |previous.at| && at.Keys == Moved(previous.at, passed) == M().Keys && ReadsOff(previous, M())
      ensures |seats| == passed && BuiltWith(env, d, previous, Snap(), seats)
    {
      hide IsGeometry, Inv, Intact, Sound, Valid, TightFilter, NoTombstones, M, Moved, BuiltWith;
      MovedStep(previous.ctrl, previous.data, previous.at, passed, slot);
      seats :| |seats| == passed && BuiltWith(env, d, previous, Snap(), seats);
    }

    /** With the entry of the next live slot placed, the generation holds one slot more. */
    lemma HoldingNext(previous: State<K, V>, passed: nat, slot: nat, keys: set<K>, m: map<K, V>,
                      before: State<K, V>, seats: seq<Seat>, seat: Seat)
      requires Source(previous, previous.ctrl, previous.data) && keys == Moved(previous.at, passed) == m.Keys
      requires passed <= slot < |previous.ctrl| && previous.ctrl[slot].Full? && previous.data[slot].Entry?
      requires forall s :: passed <= s < slot ==> !previous.ctrl[s].Full?
      requires ReadsOff(previous, m)
      requires Valid() && TightFilter() && NoTombstones() && stale == 0 && len == |keys| + 1
      requires at.Keys == keys + {previous.data[slot].key}
               && M() == m[previous.data[slot].key := previous.data[slot].value]
      requires |seats| == passed && BuiltWith(env, d, previous, before, seats)
      requires before.caps == geometry.caps && before.maxInsertions == geometry.maxInsertions
      requires Seats(ViewOf(env, d, before), env.keys.hash(previous.data[slot].key), seat)
               && SeatedAt(env, before, Snap(), previous.data[slot].key, previous.data[slot].value, seat)
      ensures Holding(previous, slot + 1)
    {
      hide IsGeometry, Inv, Intact, Sound, Valid, TightFilter, NoTombstones, M, Moved, BuiltWith, Seats, SeatedAt;
      MovedStep(previous.ctrl, previous.data, previous.at, passed, slot);
      PassesLive(previous, passed, slot, before, seats, seat);
    }

    /** The slots from `passed` on up to a live one are passed, and its entry is seated. */
    lemma PassesLive(previous: State<K, V>, passed: nat, slot: nat, before: State<K, V>, seats: seq<Seat>, seat: Seat)
      requires |seats| == passed <= slot && LiveSlot(previous, slot)
      requires forall s: nat :: passed <= s < slot ==> !LiveSlot(previous, s)
      requires BuiltWith(env, d, previous, before, seats)
      requires before.caps == geometry.caps && before.maxInsertions == geometry.maxInsertions
      requires Seats(ViewOf(env, d, before), env.keys.hash(previous.data[slot].key), seat)
               && SeatedAt(env, before, Snap(), previous.data[slot].key, previous.data[slot].value, seat)
      ensures Building(previous, slot + 1)
    {
      hide AllSeated, Built, Seated, Seats, CanSeat, Fresh;
      var start := Fresh(geometry.caps, geometry.maxInsertions);
      var more := PassDead(env, d, previous, start, seats, slot);
      BareCanSeat(env, before, previous.data[slot].key, seat);
      PassSlot(env, d, previous, start, more, seat, Bare(Snap()));
      assert BuiltWith(env, d, previous, Snap(), more + [seat]);
    }

    /** Copies a level's entries into this generation, in slot order, or stops at the first the hasher does
        not survive. */
    method MoveLevel(oldCtrl: array<Control>, oldData: array<Slot<K, V>>, oldCaps: seq<nat>, level: nat, hashes: nat,
                     ghost previous: State<K, V>)
        returns (done: bool)
      requires level < |oldCaps| && oldCaps == previous.caps && Holding(previous, Offset(oldCaps, level))
      requires Source(previous, oldCtrl[..], oldData[..]) && oldData != data && oldCtrl != ctrl
      requires |previous.at| <= geometry.maxInsertions && len <= hashes
      modifies this, scheduler, ctrl, data, filter
      ensures SameArena(old(geometry), old(scheduler), old(ctrl), old(data), old(filter))
      ensures done ==> Holding(previous, Offset(oldCaps, level + 1)) && len <= hashes
      ensures !done ==> hashes < |previous.at|
    {
      hide IsGeometry, Inv, Intact, Sound, Valid, Moved, Holding, Offset;
      LevelInside(oldCaps, level);
      var base := Offset(oldCaps, level);
      var scan := new OccupiedIndices();
      while true
        invariant fresh(scan) && Holding(previous, base + scan.next) && scan.Valid(oldCtrl[base..], oldCaps[level])
        invariant scan.next <= oldCaps[level] && Source(previous, oldCtrl[..], oldData[..]) && len <= hashes
        invariant SameArena(old(geometry), old(scheduler), old(ctrl), old(data), old(filter))
        decreases oldCaps[level] - scan.next
      {
        ghost var passed := scan.next;
        var slot := scan.Step(oldCtrl, base, oldCaps[level], false);
        if slot.None? {
          PassRest(previous, base + passed, Offset(oldCaps, level + 1));
          return true;
        }
        done := MoveEntry(oldData, base + slot.value, hashes, previous, base + passed);
        if !done {
          return;
        }
      }
    }

    /** With no live slot up to `end`, nothing is left to move before it. */
    lemma PassRest(previous: State<K, V>, next: nat, end: nat)
      requires Holding(previous, next) && Source(previous, previous.ctrl, previous.data) && next <= end
      requires forall s :: next <= s < end && s < |previous.ctrl| ==> !previous.ctrl[s].Full?
      ensures Holding(previous, end)
    {
      hide IsGeometry, Inv, Intact, Sound, Tight, Valid, BuiltWith;
      MovedSkip(previous.ctrl, previous.data, previous.at, next, end);
      var seats: seq<Seat> :| |seats| == next && BuiltWith(env, d, previous, Snap(), seats);
      PassesDead(previous, seats, end);
    }

    lemma PassesDead(previous: State<K, V>, seats: seq<Seat>, end: nat)
      requires |seats| <= end && BuiltWith(env, d, previous, Snap(), seats)
      requires forall s: nat :: |seats| <= s < end ==> !LiveSlot(previous, s)
      ensures Building(previous, end)
    {
      hide AllSeated, Built, Fresh;
      var more := PassDead(env, d, previous, Fresh(geometry.caps, geometry.maxInsertions), seats, end);
      assert BuiltWith(env, d, previous, Snap(), more);
    }

    /** Moves every entry into a fresh generation of the new geometry, with a hasher that survives `hashes`
        keys. If those are too few, the table is exactly as it was; otherwise it holds the same entries,
        seated one by one in slot order at `seats`, has no tombstones, and its filter reflects exactly the live
        keys, whatever the old one had lost. Its epoch is exceptional only if some entry met a generation in
        which its active target had no slot. */
    method TryResizeTo(g: Geometry, hashes: nat) returns (done: bool, ghost seats: seq<Seat>)
      requires (Valid() || Sound()) && IsGeometry(g, d) && g.slots != 1 && len <= g.maxInsertions
      modifies this
      ensures Sound() && M() == old(M()) && len == old(len) && at.Keys == old(at).Keys
      ensures old(Valid()) || done ==> Valid()
      ensures done ==> Recording() && fresh(scheduler) && fresh(ctrl) && fresh(data) && fresh(filter)
                       && geometry == g && NoTombstones() && stale == 0 && TightFilter()
      ensures !done ==> SameArena(old(geometry), old(scheduler), old(ctrl), old(data), old(filter))
                        && Snap() == old(Snap()) && stale == old(stale)
      ensures done <==> old(len) <= hashes
      ensures done ==> |seats| == old(ctrl.Length) && BuiltWith(env, d, old(Snap()), Snap(), seats)
      ensures done ==> (exceptional <==>
                        exists s: nat ::
                          s < |seats| && Strays(env, d, old(Snap()), Fresh(g.caps, g.maxInsertions), seats, s))
      ensures old(Recording()) ==> Recording()
    {
      hide IsGeometry, Inv, Intact, Sound, SoundEnv, Moved, Holding, Source, Valid, TightFilter, M, MapOf,
           NoTombstones, Offset, Recording, EntriesRecorded, BuiltWith, Strays, Fresh, Building;
      seats := [];
      ghost var previous, before := Snap(), M();
      RecordingIs(previous);
      Facts();
      SourceFacts();
      var replaced := Current();
      StartGeneration(g);
      NothingMoved(previous);
      done := MoveAll(replaced.ctrl, replaced.data, replaced.geometry.caps, hashes, previous);
      if !done {
        Install(replaced, previous.at);
        Represents(previous, before);
        RecordingIs(previous);
        return;
      }
      seats := AllMoved(previous, before);
      ExceptionalIs(previous, seats);
      ValidIsSound();
      TightIsRecording();
    }

    /** The epoch a completed rebuild leaves. */
    lemma ExceptionalIs(previous: State<K, V>, seats: seq<Seat>)
      requires BuiltWith(env, d, previous, Snap(), seats)
      ensures exceptional <==>
              exists s: nat ::
                s < |seats| && Strays(env, d, previous, Fresh(geometry.caps, geometry.maxInsertions), seats, s)
    {
      hide AllSeated, Built, Strays;
      ExceptionalIffStray(env, d, previous, Fresh(geometry.caps, geometry.maxInsertions), seats, |seats|);
    }

    method MoveAll(oldCtrl: array<Control>, oldData: array<Slot<K, V>>, oldCaps: seq<nat>, hashes: nat,
                   ghost previous: State<K, V>)
        returns (done: bool)
      requires oldCaps == previous.caps && Holding(previous, 0) && Source(previous, oldCtrl[..], oldData[..])
      requires oldData != data && oldCtrl != ctrl && |previous.at| <= geometry.maxInsertions
      modifies this, scheduler, ctrl, data, filter
      ensures SameArena(old(geometry), old(scheduler), old(ctrl), old(data), old(filter))
      ensures done ==> Holding(previous, oldCtrl.Length) && len <= hashes
      ensures !done ==> hashes < |previous.at|
    {
      hide IsGeometry, Inv, Intact, Sound, Valid, Moved, Holding, Offset;
      OffsetZero(oldCaps);
      NothingHeld(previous);
      var level := 0;
      while level < |oldCaps|
        invariant level <= |oldCaps| && Holding(previous, Offset(oldCaps, level))
                  && Source(previous, oldCtrl[..], oldData[..]) && len <= hashes
        invariant SameArena(old(geometry), old(scheduler), old(ctrl), old(data), old(filter))
      {
        done := MoveLevel(oldCtrl, oldData, oldCaps, level, hashes, previous);
        if !done {
          return;
        }
        level := level + 1;
      }
      done := true;
    }

    lemma SourceFacts()
      requires Valid() || Sound()
      ensures Source(Snap(), ctrl[..], data[..])
    {
      hide IsGeometry, Inv, Intact, Sound, Scheduling;
      Facts();
    }

    /** A fresh generation holds what a cursor that has passed nothing has moved. */
    lemma NothingMoved(previous: State<K, V>)
      requires Valid() && TightFilter() && NoTombstones() && M() == map[] && at == map[] && len == 0 && stale == 0
      requires Snap() == Fresh(geometry.caps, geometry.maxInsertions)
      ensures Holding(previous, 0)
    {
      hide IsGeometry, Inv, Intact, Sound;
      assert BuiltWith(env, d, previous, Snap(), []);
    }

    lemma NothingHeld(previous: State<K, V>)
      requires Holding(previous, 0)
      ensures len == 0
    {
      hide IsGeometry, Inv, Intact, Sound, Tight, Valid, Building;
      NoneMoved(previous.at);
    }

    /** Once the cursor has passed every slot, all entries have moved. */
    lemma AllMoved(previous: State<K, V>, before: map<K, V>) returns (seats: seq<Seat>)
      requires Source(previous, previous.ctrl, previous.data) && Holding(previous, |previous.ctrl|)
      requires Intact(env, previous) && before == MapOf(env, previous)
      ensures Valid() && M() == before && at.Keys == previous.at.Keys && len == |previous.at| && stale == 0
      ensures TightFilter() && NoTombstones()
      ensures |seats| == |previous.ctrl| && BuiltWith(env, d, previous, Snap(), seats)
    {
      hide IsGeometry, Inv, Intact, Sound, Tight, Valid, Scheduling, BuiltWith;
      seats :| |seats| == |previous.ctrl| && BuiltWith(env, d, previous, Snap(), seats);
      MovedAll(previous.ctrl, previous.data, previous.at, |previous.ctrl|);
      assert |previous.at.Keys| == |previous.at|;
    }

    /** The table's present generation. */
    function Current(): Generation<K, V>
      reads this
    {
      Generation(geometry, scheduler, ctrl, data, filter, len, levelLen, levelTombs, highWater, exceptional, schedule,
                 stale)
    }

    /** `swap_generation`, one way: puts a generation's fields in place. */
    method Install(g: Generation<K, V>, ghost slots: map<K, nat>)
      modifies this
      ensures Current() == g && at == slots
    {
      InstallArena(g);
      InstallCounters(g);
      at := slots;
    }

    method InstallArena(g: Generation<K, V>)
      modifies `geometry, `scheduler, `ctrl, `data, `filter
      ensures geometry == g.geometry && scheduler == g.scheduler && ctrl == g.ctrl && data == g.data
              && filter == g.filter
    {
      geometry, scheduler, ctrl, data, filter := g.geometry, g.scheduler, g.ctrl, g.data, g.filter;
    }

    method InstallCounters(g: Generation<K, V>)
      modifies `len, `levelLen, `levelTombs, `highWater, `exceptional, `schedule, `stale
      ensures len == g.len && levelLen == g.levelLen && levelTombs == g.levelTombs
      ensures highWater == g.highWater && exceptional == g.exceptional && schedule == g.schedule && stale == g.stale
    {
      len, levelLen, levelTombs := g.len, g.levelLen, g.levelTombs;
      highWater, exceptional, schedule, stale := g.highWater, g.exceptional, g.schedule, g.stale;
    }

    /** Installs an empty generation. */
    method StartGeneration(g: Geometry)
      requires SoundEnv(env) && 1 <= d < U32_LIMIT && IsGeometry(g, d) && g.slots != 1
      modifies this
      ensures Valid() && TightFilter() && NoTombstones() && M() == map[] && at == map[] && len == 0 && stale == 0
      ensures geometry == g && fresh(scheduler) && fresh(ctrl) && fresh(data) && fresh(filter)
      ensures Snap() == Fresh(geometry.caps, geometry.maxInsertions)
    {
      hide IsGeometry, WordCount, SoundEnv, Inv, Intact, Sound, Valid, TightFilter, M, Offset;
      ArenaSize(g, d);
      var newCtrl, newData, newFilter := AllocateArena(g);
      var newScheduler := new BatchScheduler(g.quotas);
      var zeros := seq(|g.caps|, _ => 0);
      Install(Generation(g, newScheduler, newCtrl, newData, newFilter, 0, zeros, zeros, 0, false, [], 0), map[]);
      Started();
    }

    // ---- Growth ----

    /** A rebuild at `slots` slots; `false` is an unwind, which changes nothing: the table would be too large,
        or the hasher does not survive the entries. */
    method ResizeWithTransition(slots: nat, hashes: nat) returns (done: bool)
      requires (Valid() || Sound()) && slots != 1 && (slots <= MAX_ELASTIC_SLOTS ==> len <= LimitOf(slots, d))
      modifies this
      ensures Sound() && M() == old(M()) && len == old(len) && at.Keys == old(at).Keys
      ensures old(Valid()) || done ==> Valid()
      ensures done ==> Recording() && fresh(scheduler) && fresh(ctrl) && fresh(data) && fresh(filter)
                       && geometry.slots == slots && geometry.maxInsertions == LimitOf(slots, d)
                       && NoTombstones() && stale == 0 && TightFilter()
      ensures !done ==> SameArena(old(geometry), old(scheduler), old(ctrl), old(data), old(filter))
                        && Snap() == old(Snap()) && stale == old(stale)
      ensures done <==> slots <= MAX_ELASTIC_SLOTS && old(len) <= hashes
      ensures done ==> Rebuilt(env, d, old(Snap()), Snap()) && geometry.caps == CapsOf(slots)
      ensures old(Recording()) ==> Recording()
    {
      hide Inv, Intact, Sound, Valid, M, NoTombstones, TightFilter, Scheduling, Recording, BuiltWith, Strays;
      Facts();
      var g := ForSlots(slots, d);
      if g.None? {
        return false;
      }
      LimitIs(g.value, d);
      ghost var seats;
      done, seats := TryResizeTo(g.value, hashes);
    }

    lemma SameSize()
      requires Valid() || Sound()
      ensures geometry.slots <= MAX_ELASTIC_SLOTS && geometry.maxInsertions == LimitOf(geometry.slots, d)
              && geometry.slots != 1 && geometry.caps == CapsOf(geometry.slots) && geometry.slots == data.Length
      ensures len <= geometry.maxInsertions <= U32_LIMIT && 1 <= d
    {
      hide Inv, Intact, Sound, Scheduling;
      Facts();
      LimitIs(geometry, d);
    }

    /** Doubling growth once the insertion limit is reached; `false` is an unwind, which changes nothing: the
        table is already the largest, or the hasher does not survive the entries. */
    method Grow(hashes: nat) returns (done: bool)
      requires (Valid() || Sound()) && len >= geometry.maxInsertions
      modifies this
      ensures Sound() && M() == old(M()) && len == old(len) && at.Keys == old(at).Keys
      ensures old(Valid()) || done ==> Valid()
      ensures !done ==> SameArena(old(geometry), old(scheduler), old(ctrl), old(data), old(filter))
                        && Snap() == old(Snap()) && stale == old(stale)
      ensures done ==> fresh(scheduler) && fresh(ctrl) && fresh(data) && fresh(filter) && len < geometry.maxInsertions
                       && Recording()
      ensures done ==> geometry.slots == NextSlots(old(geometry.slots))
      ensures done <==> !CannotGrow(old(Snap()), hashes)
      ensures done ==> Roomy(env, d, old(Snap()), Snap())
      ensures Carried(env, old(Snap()), Snap())
      ensures old(Recording()) ==> Recording()
    {
      hide Inv, Intact, Sound, Valid, M, MapOf, NoTombstones, TightFilter, Scheduling, IsGeometry, LimitOf, Recording,
           EntriesRecorded, Carried, Rebuilt, CapsOf;
      Core();
      ghost var before := Snap();
      RecordingIs(before);
      SameSize();
      var doubled := SaturatingAdd(geometry.slots, geometry.slots);
      var slots := if geometry.slots == 0 then INITIAL_CAPACITY else doubled;
      GrowthMakesRoom(geometry.slots, slots, d);
      done := ResizeWithTransition(slots, hashes);
      IsCarried(before);
      if done {
        SameSize();
      }
    }

    /** Default `reserve`: afterwards the insertion limit covers `additional` more entries. `false` is an
        unwind, which changes nothing: it had to grow, and no table is large enough or the hasher does not
        survive the entries. Growing restores a filter that had lost keys. */
    method Reserve(additional: nat, hashes: nat) returns (done: bool)
      requires (Valid() || Sound()) && additional < USIZE_LIMIT
      modifies this
      ensures Sound() && M() == old(M()) && (old(Valid()) ==> Valid())
      ensures done ==> geometry.maxInsertions >= SaturatingAdd(len, additional)
      ensures SaturatingAdd(old(len), additional) <= old(geometry.maxInsertions) ==> done && Snap() == old(Snap())
      ensures done && SaturatingAdd(old(len), additional) > old(geometry.maxInsertions) ==>
                Valid() && Recording()
                && LeastDoubling(Larger(old(geometry.slots), INITIAL_CAPACITY), SaturatingAdd(old(len), additional), d,
                                 geometry.slots)
                && Rebuilt(env, d, old(Snap()), Snap())
      ensures done <==> SaturatingAdd(old(len), additional) <= old(geometry.maxInsertions)
                        || (old(len) <= hashes
                            && exists slots: nat :: slots <= MAX_ELASTIC_SLOTS
                                 && LeastDoubling(Larger(old(geometry.slots), INITIAL_CAPACITY),
                                                  SaturatingAdd(old(len), additional), d, slots))
      ensures !done ==> Snap() == old(Snap())
      ensures old(Recording()) ==> Recording()
    {
      hide Inv, Intact, Sound, Valid, M, NoTombstones, TightFilter, Scheduling, IsGeometry, LimitOf, Recording,
           Rebuilt, CapsOf, LeastDoubling;
      Core();
      SameSize();
      var needed := SaturatingAdd(len, additional);
      if needed <= geometry.maxInsertions {
        return true;
      }
      var slots;
      ghost var doublings;
      slots, doublings := CapacityFor(Larger(geometry.slots, INITIAL_CAPACITY), needed, d);
      if slots.None? {
        NoLeast(Larger(geometry.slots, INITIAL_CAPACITY), needed, d);
        return false;
      }
      OnlyLeast(Larger(geometry.slots, INITIAL_CAPACITY), needed, slots.value);
      AtLeastStart(Larger(geometry.slots, INITIAL_CAPACITY), doublings);
      HoldsNeeded(Larger(geometry.slots, INITIAL_CAPACITY), needed, slots.value);
      done := ResizeWithTransition(slots.value, hashes);
    }

    lemma OnlyLeast(start: nat, needed: nat, slots: nat)
      requires LeastDoubling(start, needed, d, slots)
      ensures forall other: nat :: LeastDoubling(start, needed, d, other) ==> other == slots
    {
      hide LeastDoubling;
      forall other: nat | LeastDoubling(start, needed, d, other) ensures other == slots {
        LeastUnique(start, needed, d, other, slots);
      }
    }

    lemma HoldsNeeded(start: nat, needed: nat, slots: nat)
      requires LeastDoubling(start, needed, d, slots) && slots > 0
      ensures LimitOf(slots, d) >= needed
    {
      hide MaxInsertions;
      LimitIsMax(slots, d);
    }

    /** Default `shrink_to`: keeps every entry and room for `minCapacity`, and never grows. When it
        completes, no smaller doubling of the first allocation would do. `false` is an unwind, which changes
        nothing: no doubling is large enough, or a smaller one is and the hasher does not survive the
        entries. */
    method ShrinkTo(minCapacity: nat, hashes: nat) returns (done: bool)
      requires (Valid() || Sound()) && minCapacity < USIZE_LIMIT
      modifies this
      ensures Sound() && M() == old(M()) && geometry.slots <= old(geometry.slots) && (old(Valid()) ==> Valid())
      ensures done && geometry.slots < old(geometry.slots) ==>
                Valid() && Recording() && geometry.maxInsertions >= minCapacity && geometry.maxInsertions >= len
      ensures done && old(len) == 0 && minCapacity == 0 ==> geometry.slots == 0
      ensures done && (old(len) > 0 || minCapacity > 0) ==>
                exists slots: nat :: LeastDoubling(INITIAL_CAPACITY, Larger(Larger(len, minCapacity), INITIAL_CAPACITY),
                                                   d, slots)
                  && geometry.slots == if slots < old(geometry.slots) then slots else old(geometry.slots)
      ensures done <==> (old(len) == 0 && minCapacity == 0)
                        || exists slots: nat :: slots < USIZE_LIMIT
                             && LeastDoubling(INITIAL_CAPACITY,
                                              Larger(Larger(old(len), minCapacity), INITIAL_CAPACITY), d, slots)
                             && (slots >= old(geometry.slots) || old(len) <= hashes)
      ensures !done || geometry.slots == old(geometry.slots) ==> Snap() == old(Snap())
      ensures done && geometry.slots < old(geometry.slots) ==> Rebuilt(env, d, old(Snap()), Snap())
      ensures old(Recording()) ==> Recording()
    {
      hide Inv, Intact, Sound, Valid, M, NoTombstones, TightFilter, Scheduling, IsGeometry, LimitOf, LeastDoubling,
           Recording, Rebuilt, CapsOf;
      Core();
      SameSize();
      if len == 0 && minCapacity == 0 {
        if geometry.slots > 0 {
          LimitOfZero(d);
          done := ResizeWithTransition(0, hashes);
        } else {
          done := true;
        }
        return;
      }
      var lower := Larger(Larger(len, minCapacity), INITIAL_CAPACITY);
      var slots;
      ghost var doublings;
      slots, doublings := CapacityFor(INITIAL_CAPACITY, lower, d);
      if slots.None? {
        NoLeast(INITIAL_CAPACITY, lower, d);
        return false;
      }
      OnlyLeast(INITIAL_CAPACITY, lower, slots.value);
      if slots.value >= geometry.slots {
        return true;
      }
      AtLeastStart(INITIAL_CAPACITY, doublings);
      HoldsNeeded(INITIAL_CAPACITY, lower, slots.value);
      done := ResizeWithTransition(slots.value, hashes);
    }

    // ---- Insertion ----

    /** A key landed through the active target of the epoch's batch plan. */
    twostate predicate LandedOn(level: nat)
      reads this
    {
      && geometry == old(geometry) && geometry.slots >= 2 && QuotasDefined(None, geometry.caps, d)
      && Lands(Plan(), old(Occ()), Occ())
      && level < |old(levelLen)| && levelLen == old(levelLen)[level := old(levelLen)[level] + 1]
    }

    /** A key's entry was written at the slot the active target of the live count chose for it. */
    twostate predicate LandedAt(key: K, value: V, level: nat)
      reads this, ctrl, data, filter
    {
      exists index: nat, slot: nat :: old(Active(scheduler.batchEnds, len, index))
        && PlacedBy(env.keys.hash(key), key, value, TargetOf(index), Location(level, slot))
    }

    /** Places a key taken for absent through the active target, if that has a reachable slot for it. */
    method LandThrough(key: K, value: V, hash: Word)
        returns (r: Option<Location>, target: BatchTarget, ghost seat: Seat)
      requires (Valid() || Sound()) && hash == env.keys.hash(key) && len < geometry.maxInsertions
      modifies this, scheduler, ctrl, data, filter
      ensures SameArena(old(geometry), old(scheduler), old(ctrl), old(data), old(filter)) && stale == old(stale)
      ensures r.Some? ==> Put(env, old(Snap()), Snap(), key, value) && AtLocation(r.value, key)
                          && LandedAt(key, value, r.value.level)
      ensures r.Some? && key !in old(at) ==> Sound() && M() == old(M())[key := value] && (old(Valid()) ==> Valid())
                                             && LiveEntryAt(r.value, key) && LandedOn(r.value.level)
      ensures r.Some? && key in old(at) ==> StoredTwice(old(Snap()), key) && !Sound()
      ensures r.None? ==> Snap() == old(Snap()) && old(StuckActive(hash)) && Sound() && M() == old(M())
                          && (old(Valid()) ==> Valid())
      ensures (r.Some? ==> key !in old(at)) && old(Recording()) ==> Recording()
      ensures r.Some? ==> ThroughActive(old(Seen()), hash, seat) && !ActiveStuck(old(Seen()), hash)
                          && SeatedAt(env, old(Snap()), Snap(), key, value, seat)
      ensures r.None? ==> ActiveStuck(old(Seen()), hash) && IsActive(old(Seen()), target)
                          && StuckIn(old(Seen()), hash, target)
    {
      hide Inv, Intact, Sound, Valid, M, NoTombstones, TightFilter, Scheduling, IsGeometry, StuckIn, LandedOn, Allowed,
           LiveEntryAt, Lands, Chosen, Wrote, Put, Offset, Recording, StoredTwice, SeatedAt, Through, ThroughActive,
           ActiveStuck, AllStuck, ActiveIn, Seen;
      ghost var view := Seen();
      SeenIs(Snap());
      target := ActiveTarget();
      ghost var before, plan := Occ(), Plan();
      ghost var index := ActiveIndex(view, target, hash);
      r, seat := PlaceThrough(key, value, hash, target);
      if r.Some? && key !in old(at) {
        LandsOnPlan(before, plan, target, r.value.level);
        LandedIs(r.value.level);
      }
    }

    /** The target of the view's active batch. */
    static ghost predicate IsActive(v: View, target: BatchTarget)
    {
      Leveled(v) && exists index: nat :: ActiveIn(v, index) && target == TargetOf(index)
    }

    /** Inserts a key taken for absent: through the active target, else another target, else after a
        same-size rebuild, else outside its routes, as `Inserts` says. `None` is an unwind that leaves the map
        as it was. A key that was stored all along is written a second time, into `mid`. */
    method InsertForVacant(key: K, value: V, hash: Word, hashes: nat)
        returns (r: Option<Location>, ghost landed: bool, ghost grown: State<K, V>, ghost mid: State<K, V>,
                 ghost seat: Seat)
      requires (Valid() || Sound()) && hash == env.keys.hash(key)
      modifies this, scheduler, ctrl, data, filter
      ensures fresh(Repr() - old(Repr()))
      ensures r.None? ==> Sound() && M() == old(M()) && (old(Valid()) ==> Valid())
      ensures r.Some? ==> Carried(env, old(Snap()), mid) && Put(env, mid, Snap(), key, value)
                          && AtLocation(r.value, key)
      ensures r.Some? && key !in old(at) ==> Sound() && M() == old(M())[key := value] && (old(Valid()) ==> Valid())
                                             && LiveEntryAt(r.value, key)
      ensures r.Some? && key in old(at) ==> StoredTwice(mid, key) && !Sound()
      ensures landed ==> r.Some? && LandedAt(key, value, r.value.level) && mid == old(Snap())
                         && stale == old(stale) && SameArena(old(geometry), old(scheduler), old(ctrl), old(data),
                                                             old(filter))
      ensures landed && key !in old(at) ==> LandedOn(r.value.level)
      ensures !landed ==> old(len >= geometry.maxInsertions) || old(StuckActive(hash))
      ensures (r.Some? ==> key !in old(at)) && old(Recording()) ==> Recording()
      ensures Inserts(env, d, old(Snap()), hashes, grown, mid, Snap(), key, value, seat, r.Some?)
      ensures r.None? ==> len == old(len)
    {
      hide Inv, Intact, Sound, Valid, M, MapOf, NoTombstones, TightFilter, Scheduling, IsGeometry, StuckIn, StuckActive,
           LandedOn, LandedAt, Allowed, LiveEntryAt, Lands, Recording, EntriesRecorded, Put, Carried, StoredTwice,
           AtLocation, Offset, Roomy, Ready, Settles, SeatedAt, RecoveryDue, ActiveStuck, ThroughActive, IsActive,
           Seen, CannotGrow, Spent, CapsOf;
      CarriedSelf();
      ghost var before := Snap();
      seat := Seat(0, 0, false);
      var full := len >= geometry.maxInsertions;
      var done, left := true, hashes;
      RoomLeft(before, hashes);
      if full {
        done, left := PrepareRoom(hashes);
      }
      grown, mid := Snap(), Snap();
      if !done {
        return None, false, grown, mid, seat;
      }
      SeenIs(grown);
      var target;
      r, target, seat := LandThrough(key, value, hash);
      landed := r.Some? && !full;
      if r.Some? {
        ActiveSettles(grown, key, seat);
      } else {
        SeenIs(Snap());
        r, mid, seat := PlaceAfterTargetFailure(key, value, hash, target, left);
        CarriedOn(env, before, grown, mid);
      }
    }

    /** A table below its limit has room as it is. */
    lemma RoomLeft(st: State<K, V>, hashes: nat)
      requires Snap() == st
      ensures len < geometry.maxInsertions ==>
                !CannotGrow(st, hashes) && Spent(st) == 0 && Roomy(env, d, st, st)
    {
      hide Rebuilt;
    }

    /** Grows a table that has reached its limit; `left` is how many more keys the hasher survives. */
    method PrepareRoom(hashes: nat) returns (done: bool, left: nat)
      requires (Valid() || Sound()) && len >= geometry.maxInsertions
      modifies this
      ensures Sound() && Carried(env, old(Snap()), Snap()) && len == old(len) && fresh(Repr() - old(Repr()))
      ensures M() == old(M()) && at.Keys == old(at).Keys && (old(Valid()) ==> Valid())
      ensures done <==> !CannotGrow(old(Snap()), hashes)
      ensures done ==> len < geometry.maxInsertions && Roomy(env, d, old(Snap()), Snap())
                       && left == hashes - Spent(old(Snap()))
      ensures !done ==> Snap() == old(Snap())
      ensures old(Recording()) ==> Recording()
    {
      hide Inv, Intact, Sound, Valid, M, MapOf, Scheduling, IsGeometry, Recording, EntriesRecorded, Carried, Rebuilt,
           CapsOf;
      CarriedSelf();
      Core();
      KeysOfMap();
      ghost var before := Snap();
      Fields(before);
      done := Grow(hashes);
      left := if done then hashes - len else 0;
    }

    lemma Fields(st: State<K, V>)
      requires Snap() == st
      ensures st.len == len && st.maxInsertions == geometry.maxInsertions && st.exceptional == exceptional
              && st.at == at && st.caps == geometry.caps
    {
    }

    /** A key that lands through the active target settles at once. */
    lemma ActiveSettles(grown: State<K, V>, key: K, seat: Seat)
      requires ThroughActive(ViewOf(env, d, grown), env.keys.hash(key), seat)
               && !ActiveStuck(ViewOf(env, d, grown), env.keys.hash(key))
      ensures !RecoveryDue(env, d, grown, key) && Ready(env, d, grown, grown, key)
              && Settles(env, d, grown, grown, key, seat)
    {
      hide ThroughActive, ActiveIn, StuckIn, OthersStuck;
    }

    /** So does one that another target has a slot for. */
    lemma OtherSettles(grown: State<K, V>, target: BatchTarget, key: K, seat: Seat)
      requires var v, hash := ViewOf(env, d, grown), env.keys.hash(key);
               IsActive(v, target) && StuckIn(v, hash, target) && ThroughOther(v, hash, target, seat)
      ensures !AllStuck(ViewOf(env, d, grown), env.keys.hash(key)) && Settles(env, d, grown, grown, key, seat)
    {
      hide ThroughOther, ActiveIn, StuckIn, OthersStuck;
      var v, hash := ViewOf(env, d, grown), env.keys.hash(key);
      var index: nat :| ActiveIn(v, index) && target == TargetOf(index);
      OtherDecides(v, hash, index, seat);
    }

    /** With neither the active target nor any other left, none has a slot. */
    lemma NoneLeft(v: View, hash: Word, target: BatchTarget)
      requires IsActive(v, target) && StuckIn(v, hash, target)
               && OthersStuck(v, hash, target, Larger(|v.plan.caps|, 1))
      ensures AllStuck(v, hash)
    {
      hide ActiveIn, StuckIn, OthersStuck;
    }

    /** Another target, then a same-size rebuild, then placement outside the routes. */
    method PlaceAfterTargetFailure(key: K, value: V, hash: Word, target: BatchTarget, hashes: nat)
        returns (r: Option<Location>, ghost mid: State<K, V>, ghost seat: Seat)
      requires (Valid() || Sound()) && hash == env.keys.hash(key) && len < geometry.maxInsertions
      requires IsActive(Seen(), target) && StuckIn(Seen(), hash, target)
      modifies this, scheduler, ctrl, data, filter
      ensures fresh(Repr() - old(Repr())) && Carried(env, old(Snap()), mid)
      ensures r.None? ==> Sound() && M() == old(M()) && (old(Valid()) ==> Valid())
      ensures r.Some? ==> Put(env, mid, Snap(), key, value) && AtLocation(r.value, key)
      ensures r.Some? && key !in old(at) ==> Sound() && M() == old(M())[key := value] && (old(Valid()) ==> Valid())
                                             && LiveEntryAt(r.value, key)
      ensures r.Some? && key in old(at) ==> StoredTwice(mid, key) && !Sound()
      ensures old(exceptional) ==> r.Some? && mid == old(Snap())
      ensures r.None? <==> RecoveryDue(env, d, old(Snap()), key) && hashes < old(len)
      ensures r.Some? ==> Ready(env, d, old(Snap()), mid, key) && Settles(env, d, old(Snap()), mid, key, seat)
                          && SeatedAt(env, mid, Snap(), key, value, seat)
      ensures r.None? ==> Snap() == old(Snap()) && len == old(len)
      ensures (r.Some? ==> key !in old(at)) && old(Recording()) ==> Recording()
    {
      hide Inv, Intact, Sound, Valid, M, MapOf, NoTombstones, TightFilter, Scheduling, IsGeometry, StuckIn, Allowed,
           LiveEntryAt, LimitOf, Routes, LandedOn, LandedAt, StuckActive, Wrote, Put, Carried, StoredTwice, Offset,
           Recording, EntriesRecorded, SeatedAt, Seen, AllStuck, OthersStuck, ThroughOther, Rebuilt, CapsOf,
           IsActive, ThroughSome, Outside, Seats;
      Core();
      ghost var before := Snap();
      Fields(before);
      SeenIs(before);
      RecordingIs(before);
      IsCarried(before);
      mid := before;
      seat := Seat(0, 0, false);
      r, seat := PlaceThroughOther(key, value, hash, target);
      if r.Some? {
        OtherSettles(before, target, key, seat);
        return;
      }
      SeenIs(Snap());
      NoneLeft(Seen(), hash, target);
      if exceptional {
        var fs := env.filterSlot(hash, filter.Length);
        r := PlaceOutside(key, value, fs, env.keys.fingerprint(hash));
        seat := Seat(at[key], 0, true);
        return;
      }
      r, mid, seat := RecoverAndPlace(key, value, hash, hashes);
    }

    /** Places a key taken for absent through the first other target that has a slot for it. */
    method PlaceThroughOther(key: K, value: V, hash: Word, target: BatchTarget)
        returns (r: Option<Location>, ghost seat: Seat)
      requires (Valid() || Sound()) && hash == env.keys.hash(key) && len < geometry.maxInsertions
      modifies `len, `levelLen, `levelTombs, `exceptional, `at, `highWater, `schedule, ctrl, data, filter
      ensures r.None? ==> Snap() == old(Snap()) && Sound() && M() == old(M()) && (old(Valid()) ==> Valid())
      ensures r.None? ==> OthersStuck(old(Seen()), hash, target, Larger(|geometry.caps|, 1))
      ensures r.Some? ==> Put(env, old(Snap()), Snap(), key, value) && AtLocation(r.value, key)
      ensures r.Some? ==> ThroughOther(old(Seen()), hash, target, seat)
                          && SeatedAt(env, old(Snap()), Snap(), key, value, seat)
      ensures r.Some? && key !in old(at) ==> Sound() && M() == old(M())[key := value] && (old(Valid()) ==> Valid())
                                             && LiveEntryAt(r.value, key)
      ensures r.Some? && key in old(at) ==> StoredTwice(old(Snap()), key) && !Sound()
      ensures (r.Some? ==> key !in old(at)) && old(Recording()) ==> Recording()
    {
      hide Inv, Intact, Sound, Valid, M, IsGeometry, Scheduling, TightFilter, NoTombstones, Allowed, OthersStuck,
           LiveEntryAt, Routes, Wrote, Put, Offset, Recording, StoredTwice, Seen, ThroughOther, SeatedAt, OnLevel;
      Core();
      ghost var before := Snap();
      seat := Seat(0, 0, false);
      var p;
      ghost var logical;
      p, logical := ChooseSlotOnOtherTargets(hash, target);
      if p.None? {
        return None, seat;
      }
      seat := SeatOf(p.value);
      var fs := env.filterSlot(hash, filter.Length);
      PlaceNewEntry(key, value, hash, fs, env.keys.fingerprint(hash), p.value, logical);
      SeatWritten(before, p.value, key, value);
      return Some(Location(p.value.level, p.value.slot)), seat;
    }

    /** A rebuild at the same size, and the last attempts after it. */
    method RecoverAndPlace(key: K, value: V, hash: Word, hashes: nat)
        returns (r: Option<Location>, ghost mid: State<K, V>, ghost seat: Seat)
      requires (Valid() || Sound()) && hash == env.keys.hash(key) && len < geometry.maxInsertions
      modifies this, scheduler, ctrl, data, filter
      ensures fresh(Repr() - old(Repr())) && Carried(env, old(Snap()), mid)
      ensures r.None? ==> Sound() && M() == old(M()) && (old(Valid()) ==> Valid())
      ensures r.Some? ==> Put(env, mid, Snap(), key, value) && AtLocation(r.value, key)
      ensures r.Some? && key !in old(at) ==> Sound() && M() == old(M())[key := value] && (old(Valid()) ==> Valid())
                                             && LiveEntryAt(r.value, key)
      ensures r.Some? && key in old(at) ==> StoredTwice(mid, key) && !Sound()
      ensures r.None? <==> hashes < old(len)
      ensures r.Some? ==> Rebuilt(env, d, old(Snap()), mid) && Seats(ViewOf(env, d, mid), hash, seat)
                          && mid.caps == old(geometry).caps && mid.maxInsertions == old(geometry).maxInsertions
                          && SeatedAt(env, mid, Snap(), key, value, seat)
      ensures r.None? ==> Snap() == old(Snap()) && len == old(len)
      ensures (r.Some? ==> key !in old(at)) && old(Recording()) ==> Recording()
    {
      hide Inv, Intact, Sound, Valid, M, MapOf, NoTombstones, TightFilter, Scheduling, IsGeometry, StuckIn, Allowed,
           LiveEntryAt, LimitOf, Routes, LandedOn, LandedAt, StuckActive, Wrote, Put, Carried, StoredTwice, Offset,
           AtLocation, Recording, EntriesRecorded, SeatedAt, Seen, AllStuck, OthersStuck, ThroughOther, Rebuilt, CapsOf,
           IsActive, ThroughSome, Outside, Seats;
      Core();
      ghost var before := Snap();
      RecordingIs(before);
      IsCarried(before);
      mid, seat := before, Seat(0, 0, false);
      SameSize();
      var done := ResizeWithTransition(geometry.slots, hashes);
      if !done {
        return None, mid, seat;
      }
      IsCarried(before);
      mid := Snap();
      SameSize();
      Fields(mid);
      SeenIs(mid);
      r, seat := LandOrPlaceOutside(key, value, hash);
    }

    /** The last attempts, on a rebuilt table: the active target, then outside the routes. */
    method LandOrPlaceOutside(key: K, value: V, hash: Word) returns (r: Option<Location>, ghost seat: Seat)
      requires (Valid() || Sound()) && hash == env.keys.hash(key) && len < geometry.maxInsertions
      modifies this, scheduler, ctrl, data, filter
      ensures SameArena(old(geometry), old(scheduler), old(ctrl), old(data), old(filter))
      ensures r.Some? && Put(env, old(Snap()), Snap(), key, value) && AtLocation(r.value, key)
      ensures key !in old(at) ==> Sound() && M() == old(M())[key := value] && (old(Valid()) ==> Valid())
                                  && LiveEntryAt(r.value, key)
      ensures key !in old(at) && old(Recording()) ==> Recording()
      ensures key in old(at) ==> StoredTwice(old(Snap()), key) && !Sound()
      ensures Seats(old(Seen()), hash, seat) && SeatedAt(env, old(Snap()), Snap(), key, value, seat)
    {
      hide Inv, Intact, Sound, Valid, M, MapOf, NoTombstones, TightFilter, Scheduling, IsGeometry, LiveEntryAt,
           LandedOn, LandedAt, StuckActive, Put, StoredTwice, AtLocation, Recording, SeatedAt, Seen, ActiveStuck,
           ThroughActive, Outside, IsActive, StuckIn;
      var target;
      ghost var before := Snap();
      SeenIs(before);
      r, target, seat := LandThrough(key, value, hash);
      if r.None? {
        SeenIs(Snap());
        var fs := env.filterSlot(hash, filter.Length);
        r := PlaceOutside(key, value, fs, env.keys.fingerprint(hash));
        seat := Seat(at[key], 0, true);
      }
    }

    /** A placement through the active target is a landing of the batch plan. */
    lemma LandsOnPlan(before: Occupancy, plan: EpochPlan, target: BatchTarget, level: nat)
      requires (Valid() || Sound()) && plan == Plan() && |before.levels| == |geometry.caps| && level < |before.levels|
      requires Occ() == Occupancy(before.levels[level := before.levels[level] + 1], before.len + 1)
      requires before.len < geometry.maxInsertions && Allowed(plan, before, target, level)
      requires exists index: nat :: Active(scheduler.batchEnds, before.len, index) && target == TargetOf(index)
      ensures geometry.slots >= 2 && QuotasDefined(None, geometry.caps, d) && Lands(plan, before, Occ())
    {
      hide Inv, Intact, Sound, Active, Allowed;
      Facts();
      FreeSlotsExact(level);
      assert Free(plan, Occ(), level) >= 0;
      var index: nat :| Active(scheduler.batchEnds, before.len, index) && target == TargetOf(index);
      assert scheduler.batchEnds == BatchEnds(plan);
      assert Active(BatchEnds(plan), before.len, index) && Allowed(plan, before, TargetOf(index), level);
    }

    twostate lemma LandedIs(level: nat)
      requires geometry == old(geometry) && geometry.slots >= 2 && QuotasDefined(None, geometry.caps, d)
      requires Lands(Plan(), old(Occ()), Occ())
      requires level < |old(levelLen)| && levelLen == old(levelLen)[level := old(levelLen)[level] + 1]
      ensures LandedOn(level)
    {
      hide Lands, QuotasDefined;
    }

    /** Overwrites the value of a live slot and returns the one it held. */
    method ReplaceValue(loc: Location, value: V, ghost key: K) returns (previous: V)
      requires (Valid() || Sound()) && LiveEntryAt(loc, key)
      modifies data
      ensures Sound() && (old(Valid()) ==> Valid())
      ensures LiveEntryAt(loc, key) && previous == old(M())[key] && M() == old(M())[key := value]
      ensures old(Recording()) ==> Recording()
    {
      hide IsGeometry, Inv, Intact, Sound, Valid, M, MapOf, Scheduling, Offset, Recording, EntriesRecorded;
      Facts();
      ghost var before := Snap();
      RecordingIs(before);
      var s := Offset(geometry.caps, loc.level) + loc.slot;
      previous := data[s].value;
      data[s] := Entry(data[s].key, value);
      assert Snap() == before.(data := before.data[s := Entry(before.data[s].key, value)]);
      Overwritten(before, s, value);
    }

    /** What the table is once a live slot's value is overwritten. */
    lemma Overwritten(before: State<K, V>, s: nat, value: V)
      requires 1 <= d < U32_LIMIT && IsGeometry(geometry, d) && geometry.slots != 1 && Scheduling()
      requires Intact(env, before) && s < |before.ctrl| && s < |before.data| && before.ctrl[s].Full?
               && before.data[s].Entry?
      requires Snap() == before.(data := before.data[s := Entry(before.data[s].key, value)])
      ensures Sound() && M() == MapOf(env, before)[before.data[s].key := value] && (Inv(env, before) ==> Valid())
      ensures EntriesRecorded(env, before) ==> Recording()
    {
      hide IsGeometry, Inv, Intact, Sound, Valid, M, MapOf, Scheduling, Recording, EntriesRecorded;
      ReplaceKeepsIntact(env, before, s, value);
      if Inv(env, before) {
        ReplaceKeepsInv(env, before, s, value);
      }
      Represents(Snap(), MapOf(env, Snap()));
      RecordingIs(Snap());
    }

    /** `insert`, on any table with its entries in place. On a valid one the map is afterwards the old one
        with the key bound to the value, unless a rebuild unwound, which leaves the map as it was. `landed`
        marks a key placed through the active batch target without growth, which fails only if the table is
        full or the target has no reachable slot. `Inserts` says what happens then, and exactly when the
        insertion unwinds, for a hasher that survives `hashes` keys of its rebuilds: with enough of them only
        where the table is full and already the largest.
        Where the filter may have lost keys, the lookup decides. A stored key that it finds is replaced. One
        that it misses is taken for absent and written a second time, into `mid`, the same entries after any
        growth or rebuild: then the key is in two live slots, and no slot map makes the table sound. */
    method Insert(key: K, value: V, hashes: nat)
        returns (r: Inserted<V>, ghost landed: Option<nat>, ghost grown: State<K, V>, ghost mid: State<K, V>,
                 ghost seat: Seat)
      requires Valid() || Sound()
      modifies this, scheduler, ctrl, data, filter
      ensures fresh(Repr() - old(Repr()))
      ensures old(Valid()) ==> Valid() && M() == if r.Unwound? then old(M()) else old(M())[key := value]
      ensures r.Replaced? <==> old(Answer(env, Snap(), key)).Some?
      ensures old(Valid()) ==> (r.Replaced? <==> key in old(M()))
      ensures r.Replaced? ==> key in old(M()) && r.previous == old(M())[key] && at == old(at)
      ensures r.Replaced? || (r.New? && key !in old(M())) ==> Sound() && M() == old(M())[key := value]
      ensures r.Unwound? ==> Sound() && M() == old(M())
      ensures r.New? ==> Carried(env, old(Snap()), mid) && Put(env, mid, Snap(), key, value)
      ensures r.New? && key in old(M()) ==> StoredTwice(mid, key) && !Sound()
      ensures landed.Some? ==> r.New? && LandedAt(key, value, landed.value) && mid == old(Snap())
                               && stale == old(stale) && SameArena(old(geometry), old(scheduler), old(ctrl), old(data),
                                                                   old(filter))
      ensures landed.Some? && key !in old(M()) ==> LandedOn(landed.value)
      ensures landed.None? && !r.Replaced? ==> old(len >= geometry.maxInsertions)
                                               || old(StuckActive(env.keys.hash(key)))
      ensures !r.Replaced? ==> Inserts(env, d, old(Snap()), hashes, grown, mid, Snap(), key, value, seat, r.New?)
      ensures r.Unwound? && 2 * old(len) <= hashes ==>
                old(len >= geometry.maxInsertions && NextSlots(geometry.slots) > MAX_ELASTIC_SLOTS)
      ensures old(Recording()) ==> Recording()
    {
      hide IsGeometry, Inv, Intact, Sound, Valid, M, Scheduling, FullScan, Lands, Offset, Stuck, StuckActive, Chosen,
           Wrote, Active, Recording, Carried, Put, StoredTwice, Findable, LiveEntryAt, Inserts, Answer;
      ghost var before := Snap();
      SameSize();
      Fields(before);
      KeysOfMap();
      RecordingIsFound(key);
      var found := Find(key);
      if found.Some? {
        var previous := ReplaceValue(found.value, value, key);
        return Replaced(previous), None, before, Snap(), Seat(0, 0, false);
      }
      var loc;
      ghost var through;
      loc, through, grown, mid, seat := InsertForVacant(key, value, env.keys.hash(key), hashes);
      landed := if through then Some(loc.value.level) else None;
      r := if loc.Some? then New else Unwound;
      if loc.None? {
        Fields(Snap());
        WhyUnwound(before, hashes, grown, mid, key, value, seat);
      }
    }

    /** An insertion whose hasher survives every entry twice unwinds only where growth is due and the table is
        already the largest. */
    lemma WhyUnwound(before: State<K, V>, hashes: nat, grown: State<K, V>, mid: State<K, V>, key: K, value: V,
                     seat: Seat)
      requires Inserts(env, d, before, hashes, grown, mid, Snap(), key, value, seat, false) && Snap().len == before.len
      ensures 2 * before.len <= hashes ==>
                before.len >= before.maxInsertions && NextSlots(|before.data|) > MAX_ELASTIC_SLOTS
    {
      hide Roomy, RecoveryDue;
    }

    lemma RecordingIsFound(key: K)
      requires Valid() || Sound()
      ensures Sound() && (Recording() && key in M() ==> Answer(env, Snap(), key).Some?)
      ensures Answer(env, Snap(), key).Some? ==> key in M()
    {
      hide IsGeometry, Inv, Intact, Sound, Valid, M, Scheduling, Recording;
      Facts();
      if Recording() {
        RecordingIsValid();
        Present(key);
      }
    }

    lemma KeysOfMap()
      requires Valid() || Sound()
      ensures M().Keys == at.Keys
    {
      hide IsGeometry, Inv, Intact, Sound, Scheduling;
      Facts();
    }

    // ---- Removal ----

    /** Moves a live entry out of its slot and leaves `c` there. */
    method TakeOut(loc: Location, c: Control) returns (key: K, value: V)
      requires (Valid() || Sound()) && InLevel(loc) && Offset(geometry.caps, loc.level) + loc.slot < ctrl.Length
      requires ctrl[Offset(geometry.caps, loc.level) + loc.slot].Full? && IsFree(c)
      modifies `len, `levelLen, `levelTombs, `at, ctrl
      ensures Sound() && (old(Valid()) ==> Valid())
      ensures key in old(M()) && value == old(M())[key] && M() == old(M()) - {key}
      ensures ctrl[..] == old(ctrl[..])[Offset(geometry.caps, loc.level) + loc.slot := c] && at == old(at) - {key}
      ensures key in old(at) && old(at)[key] == Offset(geometry.caps, loc.level) + loc.slot
      ensures CanVacate(old(Snap()), loc.level, old(at)[key])
              && Snap() == Vacate(old(Snap()), loc.level, old(at)[key], c)
      ensures old(Snap()).data[old(at)[key]] == Entry(key, value)
      ensures old(Recording()) ==> Recording()
    {
      hide IsGeometry, Inv, Intact, Sound, Valid, M, MapOf, Scheduling, Offset, Recording, EntriesRecorded;
      Core();
      ghost var before := Snap();
      RecordingIs(before);
      var s := Offset(geometry.caps, loc.level) + loc.slot;
      VacateReady(env, before, loc.level, s);
      SlotKey(s);
      key, value := data[s].key, data[s].value;
      Uncount(loc.level, c == Tombstone);
      ctrl[s] := c;
      at := at - {key};
      assert Snap() == Vacate(before, loc.level, s, c);
      Vacated(before, loc.level, s, c);
    }

    /** What the table is once a live slot of `before` is free. */
    lemma Vacated(before: State<K, V>, level: nat, s: nat, c: Control)
      requires 1 <= d < U32_LIMIT && IsGeometry(geometry, d) && geometry.slots != 1 && Scheduling()
      requires Intact(env, before) && OnLevel(before.caps, level, s) && s < |before.ctrl| && before.ctrl[s].Full?
               && IsFree(c)
      requires CanVacate(before, level, s) && Snap() == Vacate(before, level, s, c)
      ensures Sound() && M() == MapOf(env, before) - {before.data[s].key} && (Inv(env, before) ==> Valid())
      ensures EntriesRecorded(env, before) ==> Recording()
    {
      hide IsGeometry, Inv, Intact, Sound, Valid, M, MapOf, Scheduling, OnLevel, Recording, EntriesRecorded;
      VacateKeepsIntact(env, before, level, s, c);
      if Inv(env, before) {
        VacateKeepsInv(env, before, level, s, c);
      }
      Represents(Snap(), MapOf(env, Snap()));
      RecordingIs(Snap());
    }

    /** The counter updates of a departed entry. */
    method Uncount(level: nat, tombstone: bool)
      requires level < |levelLen| == |levelTombs| && levelLen[level] > 0 && len > 0
      modifies `len, `levelLen, `levelTombs
      ensures len == old(len) - 1 && levelLen == old(levelLen)[level := old(levelLen)[level] - 1]
      ensures levelTombs == if tombstone then old(levelTombs)[level := old(levelTombs)[level] + 1] else old(levelTombs)
    {
      levelLen := levelLen[level := levelLen[level] - 1];
      if tombstone {
        levelTombs := levelTombs[level := levelTombs[level] + 1];
      }
      len := len - 1;
    }

    /** A live slot holds an entry of the map. */
    lemma SlotKey(s: nat)
      requires (Valid() || Sound()) && s < ctrl.Length && ctrl[s].Full?
      ensures s < data.Length && data[s].Entry? && data[s].key in at && at[data[s].key] == s
      ensures data[s].key in M() && M()[data[s].key] == data[s].value
    {
      hide IsGeometry, EntriesFindable, EntriesRouted, Counted, SoundEnv, Scheduling, IsSchedule;
      assert ctrl[..][s] == ctrl[s];
    }

    /** `extract_finish` after moving the entry out: a tombstone, with cleanup deferred. */
    method Extract(loc: Location) returns (key: K, value: V)
      requires (Valid() || Sound()) && InLevel(loc) && Offset(geometry.caps, loc.level) + loc.slot < ctrl.Length
      requires ctrl[Offset(geometry.caps, loc.level) + loc.slot].Full?
      modifies `len, `levelLen, `levelTombs, `at, `stale, ctrl
      ensures Sound() && (old(Valid()) ==> Valid())
      ensures key in old(M()) && value == old(M())[key] && M() == old(M()) - {key}
      ensures ctrl[..] == old(ctrl[..])[Offset(geometry.caps, loc.level) + loc.slot := Tombstone]
              && at == old(at) - {key}
      ensures old(at)[key] == Offset(geometry.caps, loc.level) + loc.slot && stale == old(stale) + 1
      ensures CanVacate(old(Snap()), loc.level, old(at)[key])
              && Snap() == Vacate(old(Snap()), loc.level, old(at)[key], Tombstone)
      ensures old(Snap()).data[old(at)[key]] == Entry(key, value)
      ensures old(Recording()) ==> Recording()
    {
      hide IsGeometry, Inv, Intact, Sound, Valid, M, Scheduling, Offset, Recording, EntriesRecorded;
      key, value := TakeOut(loc, Tombstone);
      Core();
      ghost var after := Snap();
      RecordingIs(after);
      stale := stale + 1;
      Represents(after, MapOf(env, after));
      RecordingIs(Snap());
    }

    /** A level's tombstones exceed the cleanup threshold. */
    static predicate NeedsCleanup(tombs: nat, capacity: nat)
    {
      tombs > CleanupThreshold(capacity)
    }

    /** Same-size cleanup when a level passed its tombstone threshold, otherwise a filter refresh once
        departed keys passed theirs, otherwise nothing. An unwind out of the cleanup changes nothing; one
        out of the refresh, `cut`, leaves a filter of the keys before that slot. Either unwinds exactly if it is
        due and the hasher does not survive the entries. */
    method SettleAfterDeletes(needsCleanup: bool, hashes: nat) returns (done: bool, ghost cut: Option<nat>)
      requires Valid() || Sound()
      modifies this, filter
      ensures Sound() && fresh(Repr() - old(Repr())) && M() == old(M())
      ensures cut.None? && old(Valid()) ==> Valid()
      ensures done && (needsCleanup || old(stale) > RefreshDeletes(old(geometry).maxInsertions)) ==>
                Valid() && Recording()
      ensures done ==> cut.None? && stale <= RefreshDeletes(geometry.maxInsertions) && (needsCleanup ==> NoTombstones())
      ensures !needsCleanup ==> ctrl == old(ctrl) && ctrl[..] == old(ctrl[..]) && data == old(data)
                                && filter == old(filter)
                                && scheduler == old(scheduler) && levelTombs == old(levelTombs)
                                && geometry == old(geometry) && (done || cut.Some?)
      ensures !done && cut.None? ==> needsCleanup && Snap() == old(Snap()) && geometry == old(geometry)
      ensures cut.Some? ==> !needsCleanup && old(stale) > RefreshDeletes(old(geometry).maxInsertions) && stale == 0
                            && RefreshedUpTo(env, old(Snap()), Snap(), cut.value)
                            && (Valid() <==> Covered(env, old(Snap()), cut.value))
      ensures !needsCleanup && old(stale) <= RefreshDeletes(old(geometry).maxInsertions) ==>
                done && Snap() == old(Snap()) && stale == old(stale)
      ensures done <==> (!needsCleanup && old(stale) <= RefreshDeletes(old(geometry).maxInsertions))
                        || old(len) <= hashes
      ensures done && needsCleanup ==> Rebuilt(env, d, old(Snap()), Snap()) && geometry.slots == old(geometry.slots)
      ensures old(Recording()) && cut.None? ==> Recording()
    {
      hide IsGeometry, Inv, Intact, Valid, Sound, M, Scheduling, TightFilter, NoTombstones, LimitOf, Covered,
           RefreshedUpTo, Recording, Rebuilt, CapsOf;
      Core();
      cut := None;
      if needsCleanup {
        SameSize();
        done := ResizeWithTransition(geometry.slots, hashes);
      } else if stale > RefreshDeletes(geometry.maxInsertions) {
        ghost var stop;
        LenIsKeys();
        done, stop := RefreshMembership(hashes);
        if !done {
          cut := Some(stop);
        }
      } else {
        done := true;
      }
    }

    lemma LenIsKeys()
      requires Valid() || Sound()
      ensures len == |at|
    {
      hide IsGeometry, Inv, Intact, Sound, Valid, Scheduling;
      Facts();
    }

    /** `remove` at a live location: the key leaves the map and nothing else does, whether or not the
        cleanup behind it completes. Only an unwind out of a filter refresh, `cut`, can leave the table
        less than valid, and does so exactly when keys past that slot were not covered. */
    method Remove(loc: Location, hashes: nat) returns (key: K, value: V, settled: bool, ghost cut: Option<nat>)
      requires (Valid() || Sound()) && InLevel(loc) && Offset(geometry.caps, loc.level) + loc.slot < ctrl.Length
      requires ctrl[Offset(geometry.caps, loc.level) + loc.slot].Full?
      modifies this, ctrl, filter
      ensures Sound() && fresh(Repr() - old(Repr()))
      ensures key in old(M()) && value == old(M())[key] && M() == old(M()) - {key}
      ensures old(at)[key] == old(Offset(geometry.caps, loc.level)) + loc.slot
      ensures cut.None? && old(Valid()) ==> Valid()
      ensures settled && (NeedsCleanup(old(levelTombs)[loc.level] + 1, old(geometry).caps[loc.level])
                          || old(stale) >= RefreshDeletes(old(geometry).maxInsertions)) ==>
                Valid() && Recording()
      ensures settled ==> cut.None? && stale <= RefreshDeletes(geometry.maxInsertions)
      ensures settled && loc.level < |levelTombs| == |geometry.caps| ==>
                NoTombstones() || !NeedsCleanup(levelTombs[loc.level], geometry.caps[loc.level])
      ensures CanVacate(old(Snap()), loc.level, old(at)[key]) && old(Snap()).data[old(at)[key]] == Entry(key, value)
      ensures cut.Some? ==> RefreshedUpTo(env, Vacate(old(Snap()), loc.level, old(at)[key], Tombstone), Snap(),
                                          cut.value)
                            && (Valid() <==> Covered(env, Vacate(old(Snap()), loc.level, old(at)[key], Tombstone),
                                                     cut.value))
      ensures !NeedsCleanup(old(levelTombs)[loc.level] + 1, old(geometry).caps[loc.level])
              && old(stale) < RefreshDeletes(old(geometry).maxInsertions) ==>
                settled && Snap() == Vacate(old(Snap()), loc.level, old(at)[key], Tombstone) && stale == old(stale) + 1
                && ctrl == old(ctrl) && data == old(data) && filter == old(filter) && scheduler == old(scheduler)
                && geometry == old(geometry)
      ensures settled <==> (!NeedsCleanup(old(levelTombs)[loc.level] + 1, old(geometry).caps[loc.level])
                            && old(stale) < RefreshDeletes(old(geometry).maxInsertions))
                           || old(len) <= hashes + 1
      ensures old(Recording()) && cut.None? ==> Recording()
    {
      hide IsGeometry, Inv, Intact, Valid, Sound, M, Scheduling, Offset, NoTombstones, CleanupThreshold, Covered,
           RefreshedUpTo, Recording, Rebuilt;
      key, value := Extract(loc);
      LevelCounters();
      settled, cut := SettleAfterDeletes(NeedsCleanup(levelTombs[loc.level], geometry.caps[loc.level]), hashes);
    }

    /** No level is past its cleanup threshold, and counted deletes are within theirs. */
    ghost predicate Tidy()
      reads this
    {
      && (forall l :: 0 <= l < |geometry.caps| && l < |levelTombs| ==>
                        !NeedsCleanup(levelTombs[l], geometry.caps[l]))
      && stale <= RefreshDeletes(geometry.maxInsertions)
    }

    /** Without tombstones every level is within its threshold. */
    lemma NothingToClean()
      requires (Valid() || Sound()) && NoTombstones()
      ensures forall l :: 0 <= l < |geometry.caps| && l < |levelTombs| ==>
                            !NeedsCleanup(levelTombs[l], geometry.caps[l])
    {
      hide IsGeometry, EntriesFindable, EntriesRouted, SoundEnv, Scheduling, Stored, Offset, CleanupThreshold;
      forall l | 0 <= l < |geometry.caps| && l < |levelTombs|
        ensures !NeedsCleanup(levelTombs[l], geometry.caps[l])
      {
        var region := Region(geometry.caps, ctrl[..], l);
        LevelInside(geometry.caps, l);
        assert forall i :: 0 <= i < |region| ==> region[i] == ctrl[..][Offset(geometry.caps, l) + i];
        CountExtremes(region);
      }
    }

    lemma SameCounters(before: State<K, V>)
      requires Snap() == before
      ensures levelTombs == before.levelTombs && geometry.caps == before.caps
    {
    }

    /** Deferred cleanup after a bulk-removal scan: any level past its threshold triggers it. */
    method FinishDeferredRemovals(hashes: nat) returns (done: bool, ghost cut: Option<nat>)
      requires Valid() || Sound()
      modifies this, filter
      ensures Sound() && fresh(Repr() - old(Repr())) && M() == old(M())
      ensures cut.None? && old(Valid()) ==> Valid()
      ensures done && !old(Tidy()) ==> Valid() && Recording()
      ensures cut.None? ==> (done <==> Tidy())
      ensures done ==> cut.None?
      ensures done <==> old(Tidy()) || old(len) <= hashes
      ensures !done && cut.None? ==> Snap() == old(Snap())
      ensures cut.Some? ==> RefreshedUpTo(env, old(Snap()), Snap(), cut.value)
                            && (Valid() <==> Covered(env, old(Snap()), cut.value))
      ensures old(Recording()) && cut.None? ==> Recording()
    {
      hide IsGeometry, Inv, Intact, Valid, Sound, M, Scheduling, NoTombstones, CleanupThreshold, Covered,
           RefreshedUpTo, Recording;
      LevelCounters();
      ghost var before := Snap();
      var any, level := false, 0;
      while level < |geometry.caps| && !any
        invariant level <= |geometry.caps| && forall l :: 0 <= l < level ==>
                                                            !NeedsCleanup(levelTombs[l], geometry.caps[l])
        invariant any ==> level < |geometry.caps| && NeedsCleanup(levelTombs[level], geometry.caps[level])
        decreases |geometry.caps| - level, if any then 0 else 1
      {
        if NeedsCleanup(levelTombs[level], geometry.caps[level]) {
          any := true;
        } else {
          level := level + 1;
        }
      }
      assert any ==> !Tidy() by {
        if any {
          assert NeedsCleanup(levelTombs[level], geometry.caps[level]);
        }
      }
      done, cut := SettleAfterDeletes(any, hashes);
      LevelCounters();
      if done && any {
        NothingToClean();
      } else if cut.None? && any {
        SameCounters(before);
        assert NeedsCleanup(levelTombs[level], geometry.caps[level]);
      }
    }

    // ---- Filter refresh ----

    method ClearMembership()
      modifies filter
      ensures forall i :: 0 <= i < filter.Length ==> filter[i] == CLEAR_WORD
      ensures ValidFilter(filter[..]) && Reflects(filter[..], {})
    {
      forall i | 0 <= i < filter.Length {
        filter[i] := CLEAR_WORD;
      }
      ClearReflects(filter[..]);
    }

    /** Records one live entry of `before` in the filter being rebuilt. */
    method RecordSlot(level: nat, slot: nat, ghost before: State<K, V>, ghost passed: nat)
      requires Intact(env, before) && Source(before, before.ctrl, before.data) && before.caps == geometry.caps
               && level < |geometry.caps|
      requires data[..] == before.data && filter.Length == |before.filter|
      requires var s := Offset(geometry.caps, level) + slot;
               && slot < geometry.caps[level] && passed <= s < |before.ctrl| && before.ctrl[s].Full?
               && forall x :: passed <= x < s ==> !before.ctrl[x].Full?
      requires ValidFilter(filter[..]) && Reflects(filter[..], Marks(env, before, Moved(before.at, passed)))
      modifies filter
      ensures ValidFilter(filter[..])
      ensures Reflects(filter[..], Marks(env, before, Moved(before.at, Offset(geometry.caps, level) + slot + 1)))
    {
      hide Reflects, Marks, Moved, Offset, LevelAt, ValidFilter, Stored, EntriesFindable, EntriesRouted, Counted,
           IsSchedule, SoundKeys, SoundRouter, WordCount;
      ghost var s := Offset(geometry.caps, level) + slot;
      MovedStep(before.ctrl, before.data, before.at, passed, s);
      var key := data[Offset(geometry.caps, level) + slot].key;
      var fs := env.filterSlot(env.keys.hash(key), filter.Length);
      MarksGrow(env, before, Moved(before.at, passed), key);
      LevelAtOf(geometry.caps, level, s);
      FilterReady(env, before, key);
      ghost var words := filter[..];
      FourBins(words, fs.index);
      RecordKeeps(words, fs, SummaryLevel(level), fs, SummaryLevel(level));
      RecordReflects(words, Marks(env, before, Moved(before.at, passed)), fs, SummaryLevel(level));
      filter[fs.index] := RecordWord(filter[fs.index], fs, SummaryLevel(level));
      assert filter[..] == Record(words, fs, SummaryLevel(level));
    }

    static ghost predicate Reflecting(env: Env<K>, before: State<K, V>, words: seq<MetadataWord>, next: nat)
    {
      |words| == |before.filter| && ValidFilter(words) && Reflects(words, Marks(env, before, Moved(before.at, next)))
    }

    /** Re-records one level's live entries, or as many of them as `budget` allows. `cut` is the slot whose
        hash panicked with the budget spent. */
    method RefreshLevel(level: nat, budget: nat, ghost before: State<K, V>, ghost hashes: nat)
        returns (left: nat, ghost cut: Option<nat>, done: bool)
      requires Intact(env, before) && Source(before, before.ctrl, before.data) && before.caps == geometry.caps
               && level < |geometry.caps|
      requires ctrl[..] == before.ctrl && data[..] == before.data
      requires Reflecting(env, before, filter[..], Offset(geometry.caps, level))
      requires |Moved(before.at, Offset(geometry.caps, level))| + budget == hashes
      modifies filter
      ensures done <==> cut.None?
      ensures done ==> Reflecting(env, before, filter[..], Offset(geometry.caps, level + 1))
                       && |Moved(before.at, Offset(geometry.caps, level + 1))| + left == hashes
      ensures !done ==> CutAt(before, cut.value, hashes) && Reflecting(env, before, filter[..], cut.value)
    {
      hide Intact, Reflects, Marks, Moved, Offset, ValidFilter, Readout, CutAt;
      LevelInside(geometry.caps, level);
      var base := Offset(geometry.caps, level);
      var scan := new OccupiedIndices();
      left, cut, done := budget, None, true;
      while true
        invariant fresh(scan) && scan.Valid(ctrl[base..], geometry.caps[level]) && scan.next <= geometry.caps[level]
        invariant Reflecting(env, before, filter[..], base + scan.next)
                  && |Moved(before.at, base + scan.next)| + left == hashes
        decreases geometry.caps[level] - scan.next
      {
        ghost var passed := scan.next;
        var slot := scan.Step(ctrl, base, geometry.caps[level], false);
        if slot.None? {
          MovedSkip(before.ctrl, before.data, before.at, base + passed, Offset(geometry.caps, level + 1));
          return;
        }
        AtSlot(before, base + passed, base + slot.value, hashes);
        if left == 0 {
          return left, Some(base + slot.value), false;
        }
        RecordSlot(level, slot.value, before, base + passed);
        left := left - 1;
      }
    }

    /** The refresh hashed exactly `hashes` keys, those before `stop`, and then met the key at `stop`. */
    static ghost predicate CutAt(before: State<K, V>, stop: nat, hashes: nat)
    {
      |Moved(before.at, stop)| == hashes < |before.at| && exists k :: k in before.at && before.at[k] == stop
    }

    /** The next live slot of a scan, counted. */
    static lemma AtSlot(before: State<K, V>, passed: nat, slot: nat, hashes: nat)
      requires Source(before, before.ctrl, before.data) && passed <= slot < |before.ctrl| && before.ctrl[slot].Full?
      requires forall x :: passed <= x < slot ==> !before.ctrl[x].Full?
      ensures Moved(before.at, slot) == Moved(before.at, passed)
              && |Moved(before.at, slot + 1)| == |Moved(before.at, passed)| + 1
      ensures |Moved(before.at, passed)| == hashes ==> CutAt(before, slot, hashes)
    {
      hide Moved;
      MovedStep(before.ctrl, before.data, before.at, passed, slot);
      MovedSkip(before.ctrl, before.data, before.at, passed, slot);
      MovedCount(before.at, passed, before.data[slot].key, slot);
      MovedFewer(before.at, slot, before.data[slot].key);
    }

    /** `refresh_membership` under a user hasher that panics on its `hashes + 1`-st key: re-records the
        filter from the live entries, level by level. Nothing but the filter changes. It completes if
        the keys are few enough, and otherwise leaves a filter of exactly the keys before slot `stop`,
        whose own hash panicked. Then the table stays valid if and only if those keys covered all later
        ones. */
    method RefreshMembership(hashes: nat) returns (done: bool, ghost stop: nat)
      requires Sound()
      modifies `stale, filter
      ensures Sound() && M() == old(M()) && stale == 0 && RefreshedUpTo(env, old(Snap()), Snap(), stop)
      ensures done <==> |at| <= hashes
      ensures done ==> Valid() && TightFilter()
      ensures !done ==> CutAt(old(Snap()), stop, hashes)
      ensures Valid() <==> Covered(env, old(Snap()), stop)
      ensures done ==> Recording()
    {
      hide IsGeometry, Inv, Intact, Valid, Sound, M, MapOf, Tight, Scheduling, Reflecting, Source, Offset, Moved,
           RefreshedUpTo, Covered, Recording;
      Facts();
      SourceFacts();
      ghost var before := Snap();
      ClearMembership();
      stale := 0;
      NothingReflected(before, filter[..]);
      OffsetZero(geometry.caps);
      var level, left := 0, hashes;
      done := true;
      ghost var cut := None;
      while level < |geometry.caps| && done
        invariant level <= |geometry.caps| && ctrl[..] == before.ctrl && data[..] == before.data && stale == 0
        invariant done ==> Reflecting(env, before, filter[..], Offset(geometry.caps, level))
                           && |Moved(before.at, Offset(geometry.caps, level))| + left == hashes
        invariant !done ==> cut.Some? && CutAt(before, cut.value, hashes)
                            && Reflecting(env, before, filter[..], cut.value)
        decreases |geometry.caps| - level
      {
        left, cut, done := RefreshLevel(level, left, before, hashes);
        level := level + 1;
      }
      stop := if done then Offset(geometry.caps, |geometry.caps|) else cut.value;
      if done {
        EveryKeyPassed(before);
      }
      Refreshed(before, stop, done);
    }

    static lemma EveryKeyPassed(before: State<K, V>)
      requires Source(before, before.ctrl, before.data) && |before.ctrl| == Offset(before.caps, |before.caps|)
      ensures Moved(before.at, Offset(before.caps, |before.caps|)) == before.at.Keys
    {
      MovedAll(before.ctrl, before.data, before.at, Offset(before.caps, |before.caps|));
    }

    /** What a refresh that stopped at `stop` has made of the table. */
    lemma Refreshed(before: State<K, V>, stop: nat, done: bool)
      requires 1 <= d < U32_LIMIT && IsGeometry(geometry, d) && geometry.slots != 1 && Scheduling()
               && Intact(env, before)
      requires Snap() == before.(filter := filter[..]) && Reflecting(env, before, filter[..], stop)
      requires done ==> Moved(before.at, stop) == before.at.Keys
      ensures RefreshedUpTo(env, before, Snap(), stop) && Sound() && M() == MapOf(env, before)
      ensures Valid() <==> Covered(env, before, stop)
      ensures done ==> Valid() && TightFilter() && Recording()
    {
      hide IsGeometry, Intact, MapOf, Tight, Reflects, Marks, Moved, ValidFilter, Covered, Scheduling;
      RefreshMeaning(env, before, Snap(), stop);
      if done {
        RefreshComplete(env, before, Snap(), stop);
        TightIsRecording();
        RecordingIsValid();
      }
    }

    lemma NothingReflected(before: State<K, V>, words: seq<MetadataWord>)
      requires |words| == |before.filter| && ValidFilter(words) && Reflects(words, {})
      ensures Reflecting(env, before, words, 0) && |Moved(before.at, 0)| == 0
    {
      assert Moved(before.at, 0) == {};
      assert Marks(env, before, {}) == {};
    }

    // ---- Clearing ----

    /** The table holds what is left of a map once every slot before `next` is vacated, and every
        slot before `wiped` is EMPTY. */
    ghost predicate Left(full: map<K, nat>, m: map<K, V>, next: nat, wiped: nat)
      reads this, scheduler, ctrl, data, filter
    {
      && Sound() && at == Remaining(full, full, next) && M() == Remaining(m, full, next)
      && forall s :: 0 <= s < wiped && s < ctrl.Length ==> ctrl[s] == Empty
    }

    lemma AllLeft()
      requires Valid() || Sound()
      ensures Left(at, M(), 0, 0)
    {
      hide IsGeometry, Inv, Intact, Sound, Valid, M, Scheduling;
      Core();
      KeysOfMap();
    }

    lemma LeftFacts(full: map<K, nat>, m: map<K, V>, next: nat, wiped: nat)
      requires Left(full, m, next, wiped)
      ensures Sound() && M() == Remaining(m, full, next) && at == Remaining(full, full, next)
      ensures forall s :: 0 <= s < wiped && s < ctrl.Length ==> ctrl[s] == Empty
    {
      hide Sound, M, Remaining;
    }

    /** No slot between `passed` and `slot` is live, so nothing there was left. */
    lemma LeftBetween(full: map<K, nat>, m: map<K, V>, passed: nat, slot: nat, wiped: nat)
      requires Left(full, m, passed, wiped) && passed <= slot
      requires forall s :: passed <= s < slot && s < ctrl.Length ==> !ctrl[s].Full?
      ensures forall k :: k in full && full[k] >= passed ==>
                full[k] > slot || (full[k] == slot < data.Length && Holds(data[slot], k))
      ensures Left(full, m, slot, wiped)
    {
      hide IsGeometry, Inv, Intact, Sound, Valid, M, MapOf, Scheduling;
      LeftFacts(full, m, passed, wiped);
      Facts();
      forall k | k in full && full[k] >= passed
        ensures full[k] > slot || (full[k] == slot < data.Length && Holds(data[slot], k))
      {
        assert k in at;
        assert LiveAt(ctrl[..], data[..], k, at[k]);
      }
      assert Remaining(full, full, slot) == Remaining(full, full, passed);
      assert Remaining(m, full, slot) == Remaining(m, full, passed);
    }

    /** A value's destructor, of which `drops` return before one panics, `false`. */
    method DropValue(value: V, dropped: nat, drops: nat) returns (survived: bool)
      ensures survived <==> dropped < drops
    {
      survived := dropped < drops;
    }

    /** Vacates one live slot to EMPTY, then drops its value. */
    method DropSlot(level: nat, slot: nat, dropped: nat, drops: nat, ghost full: map<K, nat>, ghost m: map<K, V>,
                    ghost passed: nat, ghost wiped: nat) returns (survived: bool)
      requires level < |geometry.caps| && slot < geometry.caps[level] && Left(full, m, passed, wiped)
      requires var s := Offset(geometry.caps, level) + slot;
               && passed <= s < ctrl.Length && ctrl[s].Full? && wiped <= s
               && forall x :: passed <= x < s ==> !ctrl[x].Full?
      modifies `len, `levelLen, `levelTombs, `at, ctrl
      ensures Left(full, m, Offset(geometry.caps, level) + slot + 1, wiped) && (survived <==> dropped < drops)
      ensures |Moved(full, Offset(geometry.caps, level) + slot + 1)| == |Moved(full, passed)| + 1
      ensures |Moved(full, passed)| < |full| && exists k :: k in full && full[k] == Offset(geometry.caps, level) + slot
      ensures ctrl[..] == old(ctrl[..])[Offset(geometry.caps, level) + slot := Empty]
      ensures old(Valid()) ==> Valid()
      ensures old(Recording()) ==> Recording()
    {
      hide IsGeometry, Inv, Intact, Sound, Valid, M, Offset, Scheduling, Recording;
      ghost var s := Offset(geometry.caps, level) + slot;
      LeftFacts(full, m, passed, wiped);
      LeftBetween(full, m, passed, s, wiped);
      var key, value := TakeOut(Location(level, slot), Empty);
      assert forall k :: k in full && full[k] >= passed && k != key ==> full[k] > s;
      forall x | 0 <= x < wiped && x < ctrl.Length ensures ctrl[x] == Empty {
        assert ctrl[..][x] == old(ctrl[..])[x];
      }
      MovedOne(full, passed, s, key);
      survived := DropValue(value, dropped, drops);
    }

    /** `drain_reset` of one level: moves every entry out, then wipes its controls. `already` values have been
        dropped before it, `dropped` after it. `done` is false when a drop panicked; then the entries at or
        past slot `kept` are still stored. */
    method DrainLevel(level: nat, already: nat, drops: nat, ghost full: map<K, nat>, ghost m: map<K, V>)
        returns (done: bool, dropped: nat, ghost kept: nat)
      requires level < |geometry.caps| && Left(full, m, Offset(geometry.caps, level), Offset(geometry.caps, level))
      requires |Moved(full, Offset(geometry.caps, level))| == already <= drops
      modifies `len, `levelLen, `levelTombs, `at, ctrl
      ensures done ==> Left(full, m, Offset(geometry.caps, level + 1), Offset(geometry.caps, level + 1))
      ensures !done ==> Left(full, m, kept, 0)
      ensures done ==> |Moved(full, Offset(geometry.caps, level + 1))| == dropped <= drops
      ensures !done ==> CutAfter(full, kept, drops) && drops < |full|
      ensures old(Valid()) ==> Valid()
      ensures old(Recording()) ==> Recording()
    {
      hide IsGeometry, Inv, Intact, Sound, Valid, M, Left, Offset, Remaining, Scheduling, Recording, Moved;
      LeftFacts(full, m, Offset(geometry.caps, level), Offset(geometry.caps, level));
      Facts();
      LevelInside(geometry.caps, level);
      ghost var base := Offset(geometry.caps, level);
      var scan := new OccupiedIndices();
      var survived := true;
      dropped := already;
      while true
        invariant fresh(scan) && scan.Valid(ctrl[base..], geometry.caps[level]) && scan.next <= geometry.caps[level]
        invariant Left(full, m, base + scan.next, base) && |Moved(full, base + scan.next)| == dropped <= drops
        invariant (old(Valid()) ==> Valid()) && (old(Recording()) ==> Recording())
        decreases geometry.caps[level] - scan.next
      {
        var more;
        more, survived := DrainNext(scan, level, dropped, drops, full, m);
        if !survived {
          LeftWiped(full, m, base + scan.next, base);
          return false, dropped, base + scan.next;
        }
        if !more {
          break;
        }
        dropped := dropped + 1;
      }
      WipeLevel(level, full, m);
      return true, dropped, 0;
    }

    /** One step of a level's drain: `more` is false once the level holds nothing. */
    method DrainNext(scan: OccupiedIndices, level: nat, dropped: nat, drops: nat, ghost full: map<K, nat>,
                     ghost m: map<K, V>)
        returns (more: bool, survived: bool)
      requires level < |geometry.caps| && ctrl.Length == Offset(geometry.caps, |geometry.caps|)
      requires Left(full, m, Offset(geometry.caps, level) + scan.next, Offset(geometry.caps, level))
      requires Offset(geometry.caps, level) <= ctrl.Length
               && scan.Valid(ctrl[Offset(geometry.caps, level)..], geometry.caps[level])
      requires scan.next <= geometry.caps[level]
      modifies scan, `len, `levelLen, `levelTombs, `at, ctrl
      ensures scan.Valid(ctrl[Offset(geometry.caps, level)..], geometry.caps[level])
      ensures more ==> old(scan.next) < scan.next <= geometry.caps[level]
                       && Left(full, m, Offset(geometry.caps, level) + scan.next, Offset(geometry.caps, level))
      ensures !more ==> survived && Left(full, m, Offset(geometry.caps, level + 1), Offset(geometry.caps, level))
      ensures !more ==> |Moved(full, Offset(geometry.caps, level + 1))|
                        == |Moved(full, Offset(geometry.caps, level) + old(scan.next))|
      ensures more ==> (survived <==> dropped < drops)
                       && |Moved(full, Offset(geometry.caps, level) + scan.next)|
                          == |Moved(full, Offset(geometry.caps, level) + old(scan.next))| + 1
                       && |Moved(full, Offset(geometry.caps, level) + old(scan.next))| < |full|
                       && exists k :: k in full && full[k] + 1 == Offset(geometry.caps, level) + scan.next
      ensures old(Valid()) ==> Valid()
      ensures old(Recording()) ==> Recording()
    {
      hide IsGeometry, Inv, Intact, Sound, Valid, M, Left, Offset, Remaining, Scheduling, Recording, Moved;
      LeftFacts(full, m, Offset(geometry.caps, level) + scan.next, Offset(geometry.caps, level));
      ArenaProper();
      LevelCounters();
      LevelInside(geometry.caps, level);
      ghost var passed, before := scan.next, ctrl[Offset(geometry.caps, level)..];
      var slot := scan.Step(ctrl, Offset(geometry.caps, level), geometry.caps[level], false);
      if slot.None? {
        LeftBetween(full, m, Offset(geometry.caps, level) + passed, Offset(geometry.caps, level + 1),
                    Offset(geometry.caps, level));
        NoneBetween(full, m, Offset(geometry.caps, level) + passed, Offset(geometry.caps, level + 1),
                    Offset(geometry.caps, level));
        return false, true;
      }
      more := true;
      survived := DropSlot(level, slot.value, dropped, drops, full, m, Offset(geometry.caps, level) + passed,
                           Offset(geometry.caps, level));
      scan.StillValid(before, ctrl[Offset(geometry.caps, level)..], geometry.caps[level]);
    }

    /** No key was left between two positions with nothing live between them. */
    lemma NoneBetween(full: map<K, nat>, m: map<K, V>, passed: nat, next: nat, wiped: nat)
      requires Left(full, m, passed, wiped) && Left(full, m, next, wiped) && passed <= next
      ensures Moved(full, next) == Moved(full, passed)
    {
      hide IsGeometry, Inv, Intact, Sound, Valid, M, Scheduling;
      LeftFacts(full, m, passed, wiped);
      LeftFacts(full, m, next, wiped);
      assert forall k :: k in Remaining(full, full, passed) <==> k in full && full[k] >= passed;
      assert forall k :: k in Remaining(full, full, next) <==> k in full && full[k] >= next;
    }

    lemma LeftWiped(full: map<K, nat>, m: map<K, V>, next: nat, wiped: nat)
      requires Left(full, m, next, wiped)
      ensures Left(full, m, next, 0)
    {
      hide Sound, M, Remaining;
    }

    /** Resets a drained level's controls and tombstone count. */
    method WipeLevel(level: nat, ghost full: map<K, nat>, ghost m: map<K, V>)
      requires level < |geometry.caps| && Left(full, m, Offset(geometry.caps, level + 1), Offset(geometry.caps, level))
      modifies `levelTombs, ctrl
      ensures Left(full, m, Offset(geometry.caps, level + 1), Offset(geometry.caps, level + 1))
      ensures old(Valid()) ==> Valid()
      ensures old(Recording()) ==> Recording()
    {
      hide IsGeometry, Inv, Intact, Sound, Valid, M, MapOf, Offset, Remaining, Scheduling, Recording, EntriesRecorded;
      LeftFacts(full, m, Offset(geometry.caps, level + 1), Offset(geometry.caps, level));
      Facts();
      LevelInside(geometry.caps, level);
      NothingOn(level, full, m);
      ghost var before := Snap();
      RecordingIs(before);
      WipeKeepsInv(env, before, level);
      var base, cap := Offset(geometry.caps, level), geometry.caps[level];
      forall s | base <= s < base + cap {
        ctrl[s] := Empty;
      }
      levelTombs := levelTombs[level := 0];
      assert ctrl[..] == Wiped(before.caps, before.ctrl, level);
      assert Snap() == before.(ctrl := Wiped(before.caps, before.ctrl, level),
                               levelTombs := before.levelTombs[level := 0]);
      Represents(Snap(), MapOf(env, Snap()));
      RecordingIs(Snap());
    }

    /** Once every slot up to the next level is vacated, the level holds nothing. */
    lemma NothingOn(level: nat, full: map<K, nat>, m: map<K, V>)
      requires level < |geometry.caps| && Left(full, m, Offset(geometry.caps, level + 1), Offset(geometry.caps, level))
      ensures forall s: nat :: OnLevel(geometry.caps, level, s) && s < ctrl.Length ==> !ctrl[s].Full?
    {
      hide IsGeometry, Inv, Intact, Sound, Valid, M, Offset, Scheduling;
      LeftFacts(full, m, Offset(geometry.caps, level + 1), Offset(geometry.caps, level));
      Facts();
      LevelInside(geometry.caps, level);
      assert forall s :: 0 <= s < ctrl.Length ==> ctrl[..][s] == ctrl[s];
    }

    /** `clear`: drains level by level, then resets placement, lookup and filter state. `done` is false
        exactly if fewer than all values, `drops`, survive their drop; then exactly the entries at or past
        slot `kept` are still in the map: those dropped, and the one that panicked right before that slot, have
        left it. */
    method Clear(drops: nat) returns (done: bool, ghost kept: nat)
      requires Valid() || Sound()
      modifies this, scheduler, ctrl, filter
      ensures Sound() && (old(Valid()) || done ==> Valid()) && geometry == old(geometry) && ctrl == old(ctrl)
      ensures done ==> M() == map[] && TightFilter() && Emptied() && stale == 0 && !exceptional && highWater == 0
      ensures done <==> old(len) <= drops
      ensures !done ==> M() == Remaining(old(M()), old(at), kept) && CutAfter(old(at), kept, drops)
      ensures old(Recording()) ==> Recording()
    {
      hide IsGeometry, Inv, Intact, Sound, Valid, M, Left, Offset, Remaining, TightFilter, Scheduling, SoundEnv,
           WordCount, Recording, Moved, CutAfter;
      LenIsKeys();
      AllLeft();
      ghost var full, m := at, M();
      OffsetZero(geometry.caps);
      NoneMoved(at);
      var level, dropped := 0, 0;
      while level < |geometry.caps|
        invariant level <= |geometry.caps| && Left(full, m, Offset(geometry.caps, level), Offset(geometry.caps, level))
        invariant (old(Valid()) ==> Valid()) && (old(Recording()) ==> Recording())
        invariant geometry == old(geometry) && scheduler == old(scheduler) && ctrl == old(ctrl) && filter == old(filter)
        invariant |Moved(full, Offset(geometry.caps, level))| == dropped <= drops
      {
        done, dropped, kept := DrainLevel(level, dropped, drops, full, m);
        if !done {
          LeftFacts(full, m, kept, 0);
          return;
        }
        level := level + 1;
      }
      NothingLeft(full, m);
      Facts();
      EmptyCounters();
      ResetAfterClear();
      ValidIsSound();
      return true, 0;
    }

    lemma NothingLeft(full: map<K, nat>, m: map<K, V>)
      requires Left(full, m, Offset(geometry.caps, |geometry.caps|), Offset(geometry.caps, |geometry.caps|))
      ensures Sound() && at == map[] && forall s :: 0 <= s < ctrl.Length ==> ctrl[s] == Empty
      ensures |Moved(full, Offset(geometry.caps, |geometry.caps|))| == |full|
    {
      hide IsGeometry, Inv, Intact, Sound, Valid, M, Scheduling;
      LeftFacts(full, m, Offset(geometry.caps, |geometry.caps|), Offset(geometry.caps, |geometry.caps|));
      Facts();
      assert forall k :: k in at ==> LiveAt(ctrl[..], data[..], k, at[k]);
      assert at.Keys == {};
      var end := Offset(geometry.caps, |geometry.caps|);
      assert forall k :: k in full && full[k] >= end ==> k in Remaining(full, full, end);
      assert Moved(full, end) == full.Keys;
      assert |full.Keys| == |full|;
    }

    /** An arena with every control EMPTY and every counter zero. */
    ghost predicate Emptied()
      reads this, ctrl
    {
      && len == 0 && at == map[] && (forall s :: 0 <= s < ctrl.Length ==> ctrl[s] == Empty)
      && |levelLen| == |levelTombs| == |geometry.caps|
      && forall l :: 0 <= l < |levelLen| ==> levelLen[l] == 0 && levelTombs[l] == 0
    }

    /** Resets placement, lookup and filter state once every level is empty. */
    method ResetAfterClear()
      requires SoundEnv(env) && 1 <= d < U32_LIMIT && IsGeometry(geometry, d) && geometry.slots != 1 && Scheduling()
      requires ctrl.Length == data.Length == geometry.slots && filter.Length == WordCount(geometry.slots) && Emptied()
      modifies `highWater, `exceptional, `schedule, `stale, scheduler, filter
      ensures Valid() && M() == map[] && TightFilter() && Emptied() && stale == 0 && !exceptional && highWater == 0
      ensures Recording()
    {
      hide IsGeometry, Inv, Intact, Sound, Valid, M, TightFilter, Reflects, ValidFilter, WordCount, SoundEnv,
           Recording;
      scheduler.Reset();
      highWater, exceptional, schedule, stale := 0, false, [], 0;
      ClearMembership();
      Started();
      TightIsRecording();
    }

    /** With every control EMPTY, all level counters are zero. */
    lemma EmptyCounters()
      requires (Valid() || Sound()) && forall s :: 0 <= s < ctrl.Length ==> ctrl[s] == Empty
      ensures |levelLen| == |levelTombs| && forall l :: 0 <= l < |levelLen| ==> levelLen[l] == 0 && levelTombs[l] == 0
    {
      hide IsGeometry, EntriesFindable, EntriesRouted, SoundEnv, Scheduling, IsSchedule, Stored, Region;
      forall l | 0 <= l < |levelLen| ensures levelLen[l] == 0 && levelTombs[l] == 0 {
        EmptyRegion(geometry.caps, ctrl[..], l);
      }
    }

    /** `wipe_all` after a drain has moved the values out: everything resets at once. */
    method WipeAll()
      requires Valid() || Sound()
      modifies this, scheduler, ctrl, filter
      ensures Valid() && M() == map[] && TightFilter() && Emptied() && stale == 0 && !exceptional && highWater == 0
      ensures geometry == old(geometry)
      ensures Recording()
    {
      hide IsGeometry, Inv, Intact, Sound, Valid, M, TightFilter, WordCount, SoundEnv, Recording;
      Facts();
      ClearLevels();
      ResetAfterClear();
    }

    /** Clears every level's controls and counters. */
    method ClearLevels()
      modifies `len, `levelLen, `levelTombs, `at, ctrl
      ensures Emptied()
    {
      forall s | 0 <= s < ctrl.Length {
        ctrl[s] := Empty;
      }
      levelLen, levelTombs := seq(|geometry.caps|, _ => 0), seq(|geometry.caps|, _ => 0);
      len, at := 0, map[];
    }

    // ---- Batches over an insert-only epoch ----

    /** The epoch is in the shape of some batch: see `InBatch`. */
    ghost predicate InSomeBatch()
      reads this
      requires QuotasDefined(None, geometry.caps, d)
    {
      exists batch: nat :: InBatch(Plan(), Occ(), batch)
    }

    lemma PlanValid()
      requires Valid() && geometry.slots >= 2
      ensures QuotasDefined(None, geometry.caps, d) && ValidPlan(Plan())
    {
      hide Inv, Intact, Sound, Scheduling;
      TablePlanIsValid(geometry.slots, d, Plan());
    }

    /** An empty epoch is in the first batch's shape. */
    lemma EmptyEpochInBatch()
      requires Valid() && geometry.slots >= 2 && Emptied()
      ensures QuotasDefined(None, geometry.caps, d) && InSomeBatch()
    {
      hide Inv, Intact, Sound, Scheduling, IsGeometry;
      PlanValid();
      Facts();
      assert InBatch(Plan(), Occ(), 0);
    }

    /** A landing keeps the epoch in the shape of a batch, so by induction every insert-only epoch whose
        keys land through their targets has the occupancy the batch results describe. */
    twostate lemma LandingKeepsEpoch(level: nat)
      requires old(Valid()) && Valid() && LandedOn(level) && old(InSomeBatch())
      ensures QuotasDefined(None, geometry.caps, d) && InSomeBatch()
    {
      hide Inv, Intact, Sound, Scheduling, IsGeometry, Valid, InBatch, Lands, QuotasDefined, ValidPlan;
      PlanValid();
      var batch: nat :| InBatch(Plan(), old(Occ()), batch);
      var batch' := LandingKeepsBatch(Plan(), old(Occ()), Occ(), batch);
    }
  }

  datatype BuildError = CapacityOverflow

  /** No doubling of the first allocation that a table can have accepts this many entries. */
  ghost predicate TooLarge(capacity: nat, d: nat)
  {
    capacity > 0 && forall k: nat :: Doubled(k) <= MAX_ELASTIC_SLOTS ==> MaxInsertions(Doubled(k), d) < capacity
  }

  /** `try_with_insert_budget`: an empty table with room for `capacity` entries, on the least doubling of
      the first allocation that accepts them; an error exactly when none does. */
  method WithInsertBudget<K(==), V>(env: Env<K>, capacity: nat, d: nat) returns (r: Result<Table<K, V>, BuildError>)
    requires SoundEnv(env) && capacity < USIZE_LIMIT && 1 <= d < U32_LIMIT
    ensures r.Err? <==> TooLarge(capacity, d)
    ensures r.Ok? ==> fresh(r.value) && fresh(r.value.Repr()) && r.value.Valid() && r.value.M() == map[]
                      && r.value.env == env && r.value.d == d && r.value.geometry.maxInsertions >= capacity
                      && r.value.len == 0 && r.value.stale == 0 && !r.value.exceptional
                      && r.value.levelLen == r.value.levelTombs == seq(|r.value.geometry.caps|, _ => 0)
    ensures r.Ok? ==> if capacity == 0 then r.value.geometry.slots == 0
                      else LeastDoubling(INITIAL_CAPACITY, capacity, d, r.value.geometry.slots)
  {
    hide IsGeometry, Inv;
    var g := ForInsertBudget(capacity, d);
    if g.None? {
      return Err(BuildError.CapacityOverflow);
    }
    var table := new Table<K, V>.FromGeometry(env, d, g.value);
    LeastIsReachable(g.value, capacity, d);
    return Ok(table);
  }

  lemma LeastIsReachable(g: Geometry, capacity: nat, d: nat)
    requires IsGeometry(g, d) && g.maxInsertions >= capacity
    requires capacity > 0 ==> LeastDoubling(INITIAL_CAPACITY, capacity, d, g.slots)
    ensures !TooLarge(capacity, d)
  {
    hide QuotasDefined, MaxInsertions;
    if capacity > 0 {
      var k: nat :| g.slots == DoubledFrom(INITIAL_CAPACITY, k);
      assert Doubled(k) == g.slots;
    }
  }
}
