/** The invariant of an Elastic table, on values: which query routes entries sit on, what the filter
    and the per-level counters know of them, and why a scheduled lookup cannot miss one. */
module ElasticState {
  import opened Controls
  import opened Wrappers
  import opened Store
  import opened Membership
  import opened ElasticSchedule

  // ---- Levels in one arena ----

  /** First slot of a level; levels lie one after another. */
  function Offset(caps: seq<nat>, level: nat): nat
    requires level <= |caps|
  {
    if level == 0 then 0 else Offset(caps, level - 1) + caps[level - 1]
  }

  lemma OffsetZero(caps: seq<nat>)
    ensures Offset(caps, 0) == 0
  {
  }

  lemma {:induction false} OffsetsOrdered(caps: seq<nat>, a: nat, b: nat)
    requires a < b <= |caps|
    ensures Offset(caps, a) + caps[a] <= Offset(caps, b)
    decreases b
  {
    if a + 1 < b {
      OffsetsOrdered(caps, a, b - 1);
    }
  }

  /** Slot `s` lies on level `level`. */
  predicate OnLevel(caps: seq<nat>, level: nat, s: nat)
  {
    level < |caps| && Offset(caps, level) <= s < Offset(caps, level) + caps[level]
  }

  lemma LevelUnique(caps: seq<nat>, a: nat, b: nat, s: nat)
    requires OnLevel(caps, a, s) && OnLevel(caps, b, s)
    ensures a == b
  {
    if a < b {
      OffsetsOrdered(caps, a, b);
    } else if b < a {
      OffsetsOrdered(caps, b, a);
    }
  }

  /** The level a slot lies on, counted down from the last. */
  function LevelFrom(caps: seq<nat>, level: nat, s: nat): nat
    requires level < |caps|
  {
    if level == 0 || Offset(caps, level) <= s then level else LevelFrom(caps, level - 1, s)
  }

  function LevelAt(caps: seq<nat>, s: nat): nat
  {
    if caps == [] then 0 else LevelFrom(caps, |caps| - 1, s)
  }

  lemma {:induction false} LevelFromFinds(caps: seq<nat>, level: nat, s: nat)
    requires level < |caps| && s < Offset(caps, level) + caps[level]
    ensures OnLevel(caps, LevelFrom(caps, level, s), s)
    decreases level
  {
    if level > 0 && s < Offset(caps, level) {
      LevelFromFinds(caps, level - 1, s);
    }
  }

  /** Every slot of the arena lies on the level computed for it, and on no other. */
  lemma LevelAtIs(caps: seq<nat>, s: nat)
    requires s < Offset(caps, |caps|)
    ensures OnLevel(caps, LevelAt(caps, s), s)
  {
    LevelFromFinds(caps, |caps| - 1, s);
  }

  lemma LevelAtOf(caps: seq<nat>, level: nat, s: nat)
    requires OnLevel(caps, level, s)
    ensures s < Offset(caps, |caps|) && LevelAt(caps, s) == level
  {
    OffsetsOrdered(caps, level, |caps|);
    LevelAtIs(caps, s);
    LevelUnique(caps, level, LevelAt(caps, s), s);
  }

  /** A level's controls. */
  function Region(caps: seq<nat>, ctrl: seq<Control>, level: nat): (r: seq<Control>)
    requires level < |caps| && |ctrl| == Offset(caps, |caps|)
    ensures |r| == caps[level]
  {
    OffsetsOrdered(caps, level, |caps|);
    ctrl[Offset(caps, level)..Offset(caps, level) + caps[level]]
  }

  /** Route-summary bit of a level; the last bit stands for every deeper level. */
  function SummaryLevel(level: nat): nat
  {
    if level < LAST_BIT then level else LAST_BIT
  }

  // ---- Routes ----

  /** Slot choice on a level by hash, level, logical probe and slot count; `None` when the bounded
      rejection sampling runs out of words. */
  type Router = (Word, nat, nat, nat) -> Option<nat>

  ghost predicate SoundRouter(route: Router)
  {
    forall hash, level, logical, upper ::
      route(hash, level, logical, upper).Some? ==> route(hash, level, logical, upper).value < upper
  }

  /** What a table is built over: its key hashing, filter location and routing. */
  datatype Env<!K> = Env(keys: Keys<K>, filterSlot: (Word, nat) -> FilterSlot, route: Router)

  ghost predicate SoundEnv<K>(env: Env<K>)
  {
    && SoundKeys(env.keys) && SoundRouter(env.route)
    && forall h: Word, words: nat :: SlotFits(env.filterSlot(h, words), words)
  }

  /** Probes a lookup tries: level zero's first, then whatever the schedule covers. */
  predicate Reachable(level: nat, logical: nat, high: nat)
  {
    (level == 0 && logical == 0) || Scheduled(level, logical, high)
  }

  ghost predicate RouteAt(route: Router, caps: seq<nat>, hash: Word, high: nat, s: nat, level: nat, logical: nat)
  {
    && level < |caps| && Reachable(level, logical, high)
    && route(hash, level, logical, caps[level]).Some?
    && s == Offset(caps, level) + route(hash, level, logical, caps[level]).value
  }

  /** Some reachable probe of the hash leads to slot `s`. */
  ghost predicate OnRoute(route: Router, caps: seq<nat>, hash: Word, high: nat, s: nat)
  {
    exists level: nat, logical: nat :: RouteAt(route, caps, hash, high, s, level, logical)
  }

  // ---- The table's state and invariant ----

  datatype State<!K, V> = State(
    caps: seq<nat>, maxInsertions: nat, ctrl: seq<Control>, data: seq<Slot<K, V>>, filter: seq<MetadataWord>,
    len: nat, levelLen: seq<nat>, levelTombs: seq<nat>,
    highWater: nat, exceptional: bool, schedule: seq<PhiRoute>, at: map<K, nat>)

  function FilterSlotOf<K, V>(env: Env<K>, st: State<K, V>, key: K): FilterSlot
  {
    env.filterSlot(env.keys.hash(key), |st.filter|)
  }

  ghost predicate Sized<K, V>(st: State<K, V>)
  {
    && |st.caps| <= MAX_LEVELS && |st.ctrl| == |st.data| == Offset(st.caps, |st.caps|)
    && |st.filter| == WordCount(|st.data|) && ValidFilter(st.filter)
    && st.len == |st.at| <= st.maxInsertions <= |st.data|
    && st.highWater <= QUERY_POSITION_CAP && IsSchedule(st.schedule, st.caps, st.highWater)
  }

  /** Per-level counters agree with the controls. */
  ghost predicate Counted(caps: seq<nat>, ctrl: seq<Control>, levelLen: seq<nat>, levelTombs: seq<nat>)
  {
    && |ctrl| == Offset(caps, |caps|) && |levelLen| == |levelTombs| == |caps|
    && forall l :: 0 <= l < |caps| ==>
         levelLen[l] == Lives(Region(caps, ctrl, l)) && levelTombs[l] == Tombs(Region(caps, ctrl, l))
  }

  /** The lookup reaches the key before it asks the filter: level zero's first probe leads to it, or that
      probe's draw fails and the lookup is a full scan. */
  ghost predicate SkipsFilter<K, V>(env: Env<K>, st: State<K, V>, key: K)
    requires key in st.at
  {
    && |st.caps| > 0
    && var first := env.route(env.keys.hash(key), 0, 0, st.caps[0]);
       first.None? || first == Some(st.at[key])
  }

  /** Some scheduled route on these levels fails its draw, which turns the lookup into a full scan. */
  ghost predicate LosesDraw<K, V>(env: Env<K>, st: State<K, V>, hash: Word, levels: iset<nat>)
  {
    exists i :: 0 <= i < |st.schedule| && FailsAt(env, st, hash, levels, i)
  }

  ghost predicate FailsAt<K, V>(env: Env<K>, st: State<K, V>, hash: Word, levels: iset<nat>, i: nat)
    requires i < |st.schedule|
  {
    var r := st.schedule[i];
    SummaryLevel(r.level) in levels && env.route(hash, r.level, r.logical, r.rangeUpper).None?
  }

  /** Level bits a filter word's bin carries. */
  ghost function BinOf(filter: seq<MetadataWord>, fs: FilterSlot): iset<nat>
  {
    iset x: nat | fs.index < |filter| && fs.bin < |filter[fs.index].bins| && x in filter[fs.index].bins[fs.bin]
  }

  ghost function LevelBit<K, V>(st: State<K, V>, key: K): nat
    requires key in st.at
  {
    SummaryLevel(LevelAt(st.caps, st.at[key]))
  }

  /** The lookup finds the stored key: without the filter, or because the filter admits it and either
      its bin leads to the key's level or the lookup ends in a full scan. */
  ghost predicate Findable<K, V>(env: Env<K>, st: State<K, V>, key: K)
    requires key in st.at
  {
    var fs := FilterSlotOf(env, st, key);
    || SkipsFilter(env, st, key)
    || Admits(st.filter, fs, LevelBit(st, key), st.exceptional
              || LosesDraw(env, st, env.keys.hash(key), BinOf(st.filter, fs)))
  }

  ghost predicate EntriesFindable<K, V>(env: Env<K>, st: State<K, V>)
  {
    forall k :: k in st.at ==> Findable(env, st, k)
  }

  /** The filter carries every live key's bits and level bit, as it does unless a refresh was interrupted. */
  ghost predicate EntriesRecorded<K, V>(env: Env<K>, st: State<K, V>)
  {
    forall k :: k in st.at ==> Recorded(st.filter, FilterSlotOf(env, st, k), LevelBit(st, k))
  }

  ghost predicate EntriesRouted<K, V>(env: Env<K>, st: State<K, V>)
  {
    forall k :: k in st.at ==> OnRoute(env.route, st.caps, env.keys.hash(k), st.highWater, st.at[k])
  }

  /** What holds of a table whatever its filter says: every live key sits in one slot, the level counters
      are exact, and unless the epoch placed something outside its routes, some reachable probe of every
      key leads to its slot. */
  ghost predicate Intact<K, V>(env: Env<K>, st: State<K, V>)
  {
    && SoundEnv(env) && Sized(st) && Counted(st.caps, st.ctrl, st.levelLen, st.levelTombs)
    && Stored(st.ctrl, st.data, env.keys, st.at)
    && (!st.exceptional ==> EntriesRouted(env, st))
  }

  /** The Elastic invariant: in addition the filter lets every lookup through to its key. */
  ghost predicate Inv<K, V>(env: Env<K>, st: State<K, V>)
  {
    Intact(env, st) && EntriesFindable(env, st)
  }

  ghost function MapOf<K, V>(env: Env<K>, st: State<K, V>): map<K, V>
  {
    Contents(st.data, st.at)
  }

  lemma ControlsProper<K, V>(env: Env<K>, st: State<K, V>)
    requires Intact(env, st)
    ensures forall i :: 0 <= i < |st.ctrl| ==> Proper(st.ctrl[i])
  {
    forall i | 0 <= i < |st.ctrl| ensures Proper(st.ctrl[i]) {
      if st.ctrl[i].Full? {
        assert st.ctrl[st.at[st.data[i].key]] == Full(env.keys.Fp(st.data[i].key));
      }
    }
  }

  lemma FilterReady<K, V>(env: Env<K>, st: State<K, V>, key: K)
    requires SoundEnv(env) && Sized(st) && |st.data| > 0
    ensures var fs := FilterSlotOf(env, st, key); fs.index < |st.filter| && fs.bin < 4 == |st.filter[fs.index].bins|
  {
    var fs := env.filterSlot(env.keys.hash(key), |st.filter|);
    assert SlotFits(fs, |st.filter|);
  }

  // ---- Raising the high-water mark ----

  /** A filter, schedule and exceptional mark that have only grown find every key they found. */
  lemma FindableGrows<K, V>(env: Env<K>, st: State<K, V>, st': State<K, V>, key: K)
    requires key in st.at && key in st'.at && st'.at[key] == st.at[key] && st'.caps == st.caps && Findable(env, st, key)
    requires |st'.filter| == |st.filter| && st.schedule <= st'.schedule && (st.exceptional ==> st'.exceptional)
    requires var fs := FilterSlotOf(env, st, key);
             && BinOf(st.filter, fs) <= BinOf(st'.filter, fs)
             && forall any: bool :: Admits(st.filter, fs, LevelBit(st, key), any) ==>
                                      Admits(st'.filter, fs, LevelBit(st, key), any)
    ensures Findable(env, st', key)
  {
    hide LevelAt, SummaryLevel, Admits;
    var fs, hash := FilterSlotOf(env, st, key), env.keys.hash(key);
    if LosesDraw(env, st, hash, BinOf(st.filter, fs)) {
      var i :| 0 <= i < |st.schedule| && FailsAt(env, st, hash, BinOf(st.filter, fs), i);
      assert FailsAt(env, st', hash, BinOf(st'.filter, fs), i);
    }
    if !SkipsFilter(env, st, key) {
      var any := st.exceptional || LosesDraw(env, st, hash, BinOf(st.filter, fs));
      assert Admits(st'.filter, fs, LevelBit(st, key), any);
      AdmitsAny(st'.filter, fs, LevelBit(st, key), any);
    }
  }

  lemma AdmitsAny(filter: seq<MetadataWord>, fs: FilterSlot, bit: nat, any: bool)
    requires Admits(filter, fs, bit, any)
    ensures Admits(filter, fs, bit, true) && (!any ==> Admits(filter, fs, bit, false))
  {
  }

  /** A higher mark with its schedule keeps every entry on a route. */
  lemma ExtendKeepsIntact<K, V>(env: Env<K>, st: State<K, V>, schedule: seq<PhiRoute>, high: nat)
    requires Intact(env, st) && st.highWater <= high <= QUERY_POSITION_CAP && IsSchedule(schedule, st.caps, high)
    ensures var st' := st.(schedule := schedule, highWater := high);
            Intact(env, st') && MapOf(env, st') == MapOf(env, st)
              && (EntriesRecorded(env, st) ==> EntriesRecorded(env, st'))
  {
    hide Scheduled, IsSchedule, ValidFilter, SoundKeys, SoundRouter, LevelAt;
    forall k | k in st.at && !st.exceptional ensures OnRoute(env.route, st.caps, env.keys.hash(k), high, st.at[k]) {
      var level: nat, logical: nat :|
          RouteAt(env.route, st.caps, env.keys.hash(k), st.highWater, st.at[k], level, logical);
      ScheduledHigher(level, logical, st.highWater, high);
      assert RouteAt(env.route, st.caps, env.keys.hash(k), high, st.at[k], level, logical);
    }
  }

  /** It keeps every key findable too. */
  lemma ExtendKeepsInv<K, V>(env: Env<K>, st: State<K, V>, schedule: seq<PhiRoute>, high: nat)
    requires Inv(env, st) && st.highWater <= high <= QUERY_POSITION_CAP && IsSchedule(schedule, st.caps, high)
    requires st.schedule <= schedule
    ensures var st' := st.(schedule := schedule, highWater := high);
            Inv(env, st') && MapOf(env, st') == MapOf(env, st)
              && (EntriesRecorded(env, st) ==> EntriesRecorded(env, st'))
  {
    hide Intact, MapOf, IsSchedule, Admits, Findable, LevelAt, BinOf, EntriesRecorded;
    ExtendKeepsIntact(env, st, schedule, high);
    var st' := st.(schedule := schedule, highWater := high);
    forall k | k in st'.at ensures Findable(env, st', k) {
      FindableGrows(env, st, st', k);
    }
  }

  lemma ScheduledHigher(level: nat, logical: nat, low: nat, high: nat)
    requires low <= high
    ensures Reachable(level, logical, low) ==> Reachable(level, logical, high)
  {
  }

  // ---- Counters under one control change ----

  lemma RegionUpdate(caps: seq<nat>, ctrl: seq<Control>, level: nat, s: nat, c: Control, l: nat)
    requires |ctrl| == Offset(caps, |caps|) && OnLevel(caps, level, s) && s < |ctrl| && l < |caps|
    ensures Region(caps, ctrl[s := c], l) ==
              if l == level then Region(caps, ctrl, l)[s - Offset(caps, level) := c] else Region(caps, ctrl, l)
  {
    OffsetsOrdered(caps, l, |caps|);
    if l < level {
      OffsetsOrdered(caps, l, level);
    } else if level < l {
      OffsetsOrdered(caps, level, l);
    }
  }

  function Adjust(n: nat, was: bool, now: bool): int
  {
    n - (if was then 1 else 0) + (if now then 1 else 0)
  }

  /** Counters of the changed level move by what the control changed. */
  lemma CountedUpdate(caps: seq<nat>, ctrl: seq<Control>, levelLen: seq<nat>, levelTombs: seq<nat>, level: nat, s: nat,
                      c: Control)
    requires Counted(caps, ctrl, levelLen, levelTombs) && OnLevel(caps, level, s) && s < |ctrl|
    ensures Adjust(levelLen[level], ctrl[s].Full?, c.Full?) >= 0
            && Adjust(levelTombs[level], ctrl[s] == Tombstone, c == Tombstone) >= 0
    ensures Counted(caps, ctrl[s := c],
                    levelLen[level := Adjust(levelLen[level], ctrl[s].Full?, c.Full?)],
                    levelTombs[level := Adjust(levelTombs[level], ctrl[s] == Tombstone, c == Tombstone)])
  {
    hide Lives, Tombs, Region, Offset;
    RegionCounts(caps, ctrl, level, s, c);
    forall l | 0 <= l < |caps| && l != level ensures Region(caps, ctrl[s := c], l) == Region(caps, ctrl, l) {
      RegionUpdate(caps, ctrl, level, s, c, l);
    }
  }

  lemma RegionCounts(caps: seq<nat>, ctrl: seq<Control>, level: nat, s: nat, c: Control)
    requires |ctrl| == Offset(caps, |caps|) && OnLevel(caps, level, s) && s < |ctrl|
    ensures Lives(Region(caps, ctrl[s := c], level)) == Adjust(Lives(Region(caps, ctrl, level)), ctrl[s].Full?, c.Full?)
    ensures Tombs(Region(caps, ctrl[s := c], level)) ==
            Adjust(Tombs(Region(caps, ctrl, level)), ctrl[s] == Tombstone, c == Tombstone)
  {
    hide Lives, Tombs;
    var region := Region(caps, ctrl, level);
    OffsetsOrdered(caps, level, |caps|);
    RegionUpdate(caps, ctrl, level, s, c, level);
    assert region[s - Offset(caps, level)] == ctrl[s];
    CountUpdate(region, s - Offset(caps, level), c);
  }

  // ---- Placing an entry ----

  /** Effect of `write_new_entry` on the state. */
  function WriteNew<K, V>(env: Env<K>, st: State<K, V>, level: nat, s: nat, key: K, value: V,
                          exceptional: bool): State<K, V>
    requires level < |st.levelLen| == |st.levelTombs| && s < |st.ctrl| && s < |st.data|
    requires st.ctrl[s] == Tombstone ==> st.levelTombs[level] > 0
    requires var fs := FilterSlotOf(env, st, key); fs.index < |st.filter| && fs.bin < |st.filter[fs.index].bins|
  {
    st.(ctrl := st.ctrl[s := Full(env.keys.Fp(key))],
        data := st.data[s := Entry(key, value)],
        filter := Record(st.filter, FilterSlotOf(env, st, key), SummaryLevel(level)),
        len := st.len + 1,
        levelLen := st.levelLen[level := st.levelLen[level] + 1],
        levelTombs := if st.ctrl[s] == Tombstone then st.levelTombs[level := st.levelTombs[level] - 1]
                      else st.levelTombs,
        exceptional := st.exceptional || exceptional,
        at := st.at[key := s])
  }

  /** `after` is `before` with the key's entry written at a slot of a level and recorded in the filter,
      and the schedule possibly extended. */
  ghost predicate Wrote<K, V>(env: Env<K>, before: State<K, V>, after: State<K, V>, level: nat, s: nat, key: K,
                              value: V)
  {
    && level < |before.levelLen| == |before.levelTombs| && s < |before.ctrl| && s < |before.data|
    && (before.ctrl[s] == Tombstone ==> before.levelTombs[level] > 0)
    && FilterSlotOf(env, before, key).index < |before.filter|
    && FilterSlotOf(env, before, key).bin < |before.filter[FilterSlotOf(env, before, key).index].bins|
    && after == WriteNew(env, before.(highWater := after.highWater, schedule := after.schedule), level, s, key, value,
                         false)
  }

  /** A free slot for an absent key: one a reachable probe of it leads to, or any free slot in an
      epoch marked exceptional. */
  ghost predicate Target<K, V>(env: Env<K>, st: State<K, V>, key: K, level: nat, s: nat, exceptional: bool)
  {
    && OnLevel(st.caps, level, s) && s < |st.ctrl| && IsFree(st.ctrl[s])
    && (st.exceptional || exceptional || OnRoute(env.route, st.caps, env.keys.hash(key), st.highWater, s))
  }

  /** The filter marks of some of the stored keys. */
  ghost function Marks<K, V>(env: Env<K>, st: State<K, V>, ks: set<K>): set<Mark>
  {
    set k | k in ks && k in st.at :: (FilterSlotOf(env, st, k), SummaryLevel(LevelAt(st.caps, st.at[k])))
  }

  /** The filter reflects the live keys and nothing of departed ones. */
  ghost predicate Tight<K, V>(env: Env<K>, st: State<K, V>)
  {
    Reflects(st.filter, Marks(env, st, st.at.Keys))
  }

  /** Writing an absent key into a free slot keeps entries in place, whatever the filter has lost, and adds
      exactly that entry. */
  lemma WriteKeepsIntact<K, V>(env: Env<K>, st: State<K, V>, level: nat, s: nat, key: K, value: V, exceptional: bool)
    requires Intact(env, st) && key !in st.at && st.len < st.maxInsertions
             && Target(env, st, key, level, s, exceptional)
    ensures level < |st.levelLen| == |st.levelTombs| && s < |st.ctrl| && s < |st.data| && OnLevel(st.caps, level, s)
    ensures st.ctrl[s] == Tombstone ==> st.levelTombs[level] > 0
    ensures FilterSlotOf(env, st, key).index < |st.filter|
    ensures FilterSlotOf(env, st, key).bin < |st.filter[FilterSlotOf(env, st, key).index].bins|
    ensures var st' := WriteNew(env, st, level, s, key, value, exceptional);
            Intact(env, st') && MapOf(env, st') == MapOf(env, st)[key := value]
  {
    hide OnRoute, Scheduled, IsSchedule, SoundRouter, SoundKeys, Record, LevelAt, Region, Offset, WordCount, Stored,
         Counted, Sized, ValidFilter;
    WriteReady(env, st, level, s, key, exceptional);
    var st' := WriteNew(env, st, level, s, key, value, exceptional);
    CountedUpdate(st.caps, st.ctrl, st.levelLen, st.levelTombs, level, s, Full(env.keys.Fp(key)));
    PlaceStored(st.ctrl, st.data, env.keys, st.at, s, key, value);
    var fs := FilterSlotOf(env, st, key);
    RecordKeeps(st.filter, fs, SummaryLevel(level), fs, SummaryLevel(level));
    CountersWritten(st, st', level, s);
    WriteSized(st, st', s, key);
  }

  /** Writing an absent key into a free slot keeps the invariant and adds exactly that entry. */
  lemma WriteKeepsInv<K, V>(env: Env<K>, st: State<K, V>, level: nat, s: nat, key: K, value: V, exceptional: bool)
    requires Inv(env, st) && key !in st.at && st.len < st.maxInsertions && Target(env, st, key, level, s, exceptional)
    ensures level < |st.levelLen| == |st.levelTombs| && s < |st.ctrl| && s < |st.data| && OnLevel(st.caps, level, s)
    ensures st.ctrl[s] == Tombstone ==> st.levelTombs[level] > 0
    ensures FilterSlotOf(env, st, key).index < |st.filter|
    ensures FilterSlotOf(env, st, key).bin < |st.filter[FilterSlotOf(env, st, key).index].bins|
    ensures var st' := WriteNew(env, st, level, s, key, value, exceptional);
            Inv(env, st') && MapOf(env, st') == MapOf(env, st)[key := value] && (Tight(env, st) ==> Tight(env, st'))
            && (EntriesRecorded(env, st) ==> EntriesRecorded(env, st'))
  {
    hide Intact, MapOf, OnLevel, Record, Tight, LevelAt, EntriesFindable, EntriesRecorded, Target, ValidFilter;
    WriteKeepsIntact(env, st, level, s, key, value, exceptional);
    WriteReady(env, st, level, s, key, exceptional);
    SoundEnvOf(env, st);
    var st' := WriteNew(env, st, level, s, key, value, exceptional);
    WriteRecords(env, st, st', level, s, key);
    if EntriesRecorded(env, st) {
      WriteRecordsAll(env, st, st', level, s, key);
    }
  }

  lemma SoundEnvOf<K, V>(env: Env<K>, st: State<K, V>)
    requires Intact(env, st)
    ensures SoundEnv(env) && Stored(st.ctrl, st.data, env.keys, st.at)
  {
    hide SoundEnv, Sized, Stored, EntriesRouted, Counted;
  }

  /** `after` is `before` with the key's entry written at a free slot, the schedule raised first if need be:
      a slot a reachable probe leads to, or any once the epoch is marked exceptional. */
  ghost predicate Put<K, V>(env: Env<K>, before: State<K, V>, after: State<K, V>, key: K, value: V)
  {
    && key in after.at && before.len < before.maxInsertions && |before.levelLen| == |before.levelTombs|
    && before.highWater <= after.highWater <= QUERY_POSITION_CAP && before.schedule <= after.schedule
    && IsSchedule(after.schedule, before.caps, after.highWater)
    && var s, level := after.at[key], LevelAt(before.caps, after.at[key]);
       var raised := before.(highWater := after.highWater, schedule := after.schedule);
       && level < |before.levelLen| && s < |before.data|
       && Target(env, raised, key, level, s, after.exceptional)
       && (before.ctrl[s] == Tombstone ==> before.levelTombs[level] > 0)
       && FilterSlotOf(env, before, key).index < |before.filter|
       && FilterSlotOf(env, before, key).bin < |before.filter[FilterSlotOf(env, before, key).index].bins|
       && after == WriteNew(env, raised, level, s, key, value, after.exceptional)
  }

  /** What a written entry amounts to: an absent key joins the map, and one that was stored all along is
      then in two live slots. */
  lemma PutMeans<K, V>(env: Env<K>, before: State<K, V>, after: State<K, V>, key: K, value: V)
    requires Intact(env, before) && Put(env, before, after, key, value)
    ensures var s := after.at[key];
            s < |after.ctrl| && s < |after.data| && after.ctrl[s].Full? && after.data[s] == Entry(key, value)
    ensures key !in before.at ==> Intact(env, after) && MapOf(env, after) == MapOf(env, before)[key := value]
    ensures key !in before.at && Inv(env, before) ==> Inv(env, after) && (Tight(env, before) ==> Tight(env, after))
    ensures key !in before.at && EntriesRecorded(env, before) ==> EntriesRecorded(env, after)
    ensures key in before.at ==> HeldTwice(after.ctrl, after.data, key, before.at[key], after.at[key])
  {
    hide Intact, Inv, SummaryLevel, LevelAt, Record, OnRoute, OnLevel, IsSchedule, EntriesRecorded, MapOf, HeldTwice,
         Tight;
    var s, level := after.at[key], LevelAt(before.caps, after.at[key]);
    var raised := before.(highWater := after.highWater, schedule := after.schedule);
    SoundEnvOf(env, before);
    if key in before.at {
      PlaceTwice(before.ctrl, before.data, env.keys, before.at, s, key, value);
    } else {
      ExtendKeepsIntact(env, before, after.schedule, after.highWater);
      WriteKeepsIntact(env, raised, level, s, key, value, after.exceptional);
      if EntriesRecorded(env, before) {
        RecordedIsEnough(env, before);
      }
      if Inv(env, before) {
        ExtendKeepsInv(env, before, after.schedule, after.highWater);
        SameTight(env, before, raised);
        WriteKeepsInv(env, raised, level, s, key, value, after.exceptional);
      }
    }
  }

  lemma SameTight<K, V>(env: Env<K>, before: State<K, V>, after: State<K, V>)
    requires after == before.(highWater := after.highWater, schedule := after.schedule)
    ensures Tight(env, before) ==> Tight(env, after)
  {
    hide SummaryLevel, LevelAt;
    assert Marks(env, after, after.at.Keys) == Marks(env, before, before.at.Keys);
  }

  /** A written entry is one the schedule, once raised, covers. */
  lemma IsPut<K, V>(env: Env<K>, before: State<K, V>, raised: State<K, V>, after: State<K, V>, level: nat, s: nat,
                    key: K, value: V, outside: bool)
    requires raised == before.(highWater := raised.highWater, schedule := raised.schedule)
    requires before.len < before.maxInsertions && before.highWater <= raised.highWater <= QUERY_POSITION_CAP
    requires before.schedule <= raised.schedule && IsSchedule(raised.schedule, before.caps, raised.highWater)
    requires level < |before.levelLen| == |before.levelTombs| && s < |before.data|
             && Target(env, raised, key, level, s, outside)
    requires before.ctrl[s] == Tombstone ==> before.levelTombs[level] > 0
    requires var fs := FilterSlotOf(env, before, key);
             fs.index < |before.filter| && fs.bin < |before.filter[fs.index].bins|
    requires after == WriteNew(env, raised, level, s, key, value, outside)
    ensures Put(env, before, after, key, value) && after.at[key] == s
    ensures !outside ==> Wrote(env, before, after, level, s, key, value)
  {
    hide SummaryLevel, LevelAt, Record, OnRoute, OnLevel, IsSchedule;
    LevelAtOf(before.caps, level, s);
  }

  /** What a write goes to is there. */
  lemma WriteReady<K, V>(env: Env<K>, st: State<K, V>, level: nat, s: nat, key: K, exceptional: bool)
    requires Intact(env, st) && Target(env, st, key, level, s, exceptional)
    ensures level < |st.levelLen| == |st.levelTombs| == |st.caps| && s < |st.data| && LevelAt(st.caps, s) == level
    ensures |st.ctrl| == Offset(st.caps, |st.caps|) && ValidFilter(st.filter)
    ensures st.ctrl[s] == Tombstone ==> st.levelTombs[level] > 0
    ensures var fs := FilterSlotOf(env, st, key); fs.index < |st.filter| && fs.bin < 4 == |st.filter[fs.index].bins|
  {
    hide OnRoute, Scheduled, IsSchedule, SoundRouter, SoundKeys, LevelAt, Region, Offset, WordCount, Stored,
         EntriesRouted;
    FilterReady(env, st, key);
    LevelAtOf(st.caps, level, s);
    CountedUpdate(st.caps, st.ctrl, st.levelLen, st.levelTombs, level, s, Full(env.keys.Fp(key)));
  }

  lemma WriteSized<K, V>(st: State<K, V>, st': State<K, V>, s: nat, key: K)
    requires Sized(st) && st.len < st.maxInsertions && key !in st.at && ValidFilter(st'.filter)
             && |st'.filter| == |st.filter|
    requires st' == st.(ctrl := st'.ctrl, data := st'.data, filter := st'.filter, len := st.len + 1,
                        levelLen := st'.levelLen,
                        levelTombs := st'.levelTombs, exceptional := st'.exceptional, at := st.at[key := s])
    requires |st'.ctrl| == |st.ctrl| && |st'.data| == |st.data|
    ensures Sized(st')
  {
    hide IsSchedule, ValidFilter, WordCount;
  }

  lemma CountersWritten<K, V>(st: State<K, V>, st': State<K, V>, level: nat, s: nat)
    requires s < |st.ctrl| && level < |st.levelLen| == |st.levelTombs| && IsFree(st.ctrl[s])
    requires st'.levelLen == st.levelLen[level := st.levelLen[level] + 1]
    requires Adjust(st.levelTombs[level], st.ctrl[s] == Tombstone, false) >= 0
    requires st'.levelTombs == if st.ctrl[s] == Tombstone then st.levelTombs[level := st.levelTombs[level] - 1]
                               else st.levelTombs
    ensures st'.levelLen == st.levelLen[level := Adjust(st.levelLen[level], false, true)]
    ensures st'.levelTombs == st.levelTombs[level := Adjust(st.levelTombs[level], st.ctrl[s] == Tombstone, false)]
  {
  }

  lemma WriteRecords<K, V>(env: Env<K>, st: State<K, V>, st': State<K, V>, level: nat, s: nat, key: K)
    requires SoundEnv(env) && ValidFilter(st.filter) && EntriesFindable(env, st) && LevelAt(st.caps, s) == level
    requires var fs := FilterSlotOf(env, st, key);
             && fs.index < |st.filter| && fs.bin < 4 && fs.bin < |st.filter[fs.index].bins|
             && st'.filter == Record(st.filter, fs, SummaryLevel(level))
    requires st'.caps == st.caps && st'.at == st.at[key := s] && key !in st.at
    requires st'.schedule == st.schedule && (st.exceptional ==> st'.exceptional)
    ensures ValidFilter(st'.filter) && EntriesFindable(env, st')
    ensures Tight(env, st) ==> Tight(env, st')
  {
    hide LevelAt, Reflects, SoundEnv, Findable, BinOf, Admits, Record;
    var fs, bit := FilterSlotOf(env, st, key), SummaryLevel(level);
    RecordKeeps(st.filter, fs, bit, fs, bit);
    forall k | k in st'.at
      ensures Findable(env, st', k)
    {
      if k == key {
        RecordedIsFindable(env, st', key);
      } else {
        RecordKeeps(st.filter, fs, bit, FilterSlotOf(env, st, k), LevelBit(st, k));
        BinGrows(st.filter, fs, bit, FilterSlotOf(env, st, k));
        FindableGrows(env, st, st', k);
      }
    }
    if Tight(env, st) {
      RecordReflects(st.filter, Marks(env, st, st.at.Keys), fs, bit);
      MarksOfWrite(env, st, st', s, key);
    }
  }

  lemma WriteRecordsAll<K, V>(env: Env<K>, st: State<K, V>, st': State<K, V>, level: nat, s: nat, key: K)
    requires ValidFilter(st.filter) && EntriesRecorded(env, st) && LevelAt(st.caps, s) == level
    requires var fs := FilterSlotOf(env, st, key);
             && fs.index < |st.filter| && fs.bin < 4 && fs.bin < |st.filter[fs.index].bins|
             && st'.filter == Record(st.filter, fs, SummaryLevel(level))
    requires st'.caps == st.caps && st'.at == st.at[key := s]
    ensures EntriesRecorded(env, st')
  {
    hide LevelAt, Recorded;
    var fs, bit := FilterSlotOf(env, st, key), SummaryLevel(level);
    RecordKeeps(st.filter, fs, bit, fs, bit);
    forall k | k in st'.at ensures Recorded(st'.filter, FilterSlotOf(env, st', k), LevelBit(st', k)) {
      if k != key {
        RecordKeeps(st.filter, fs, bit, FilterSlotOf(env, st, k), LevelBit(st, k));
      }
    }
  }

  /** A tight filter carries every live key. */
  lemma TightRecords<K, V>(env: Env<K>, st: State<K, V>)
    requires Tight(env, st)
    ensures EntriesRecorded(env, st)
  {
    hide LevelAt, SummaryLevel, Recorded;
    forall k | k in st.at ensures Recorded(st.filter, FilterSlotOf(env, st, k), LevelBit(st, k)) {
      assert k in st.at.Keys;
      assert (FilterSlotOf(env, st, k), SummaryLevel(LevelAt(st.caps, st.at[k]))) in Marks(env, st, st.at.Keys);
    }
  }

  lemma RecordedIsFindable<K, V>(env: Env<K>, st: State<K, V>, key: K)
    requires key in st.at && Recorded(st.filter, FilterSlotOf(env, st, key), LevelBit(st, key))
    ensures Findable(env, st, key)
  {
  }

  /** Recording every live key is enough for the invariant. */
  lemma RecordedIsEnough<K, V>(env: Env<K>, st: State<K, V>)
    requires Intact(env, st) && EntriesRecorded(env, st)
    ensures Inv(env, st)
  {
    hide Intact, LevelBit, Findable;
    forall k | k in st.at ensures Findable(env, st, k) {
      RecordedIsFindable(env, st, k);
    }
  }

  lemma BinGrows(filter: seq<MetadataWord>, fs: FilterSlot, bit: nat, other: FilterSlot)
    requires fs.index < |filter| && fs.bin < |filter[fs.index].bins|
    ensures BinOf(filter, other) <= BinOf(Record(filter, fs, bit), other)
  {
  }

  lemma MarksOfWrite<K, V>(env: Env<K>, st: State<K, V>, st': State<K, V>, s: nat, key: K)
    requires |st'.filter| == |st.filter| && st'.caps == st.caps && st'.at == st.at[key := s] && key !in st.at
    ensures Marks(env, st', st'.at.Keys)
         == Marks(env, st, st.at.Keys) + {(FilterSlotOf(env, st, key), SummaryLevel(LevelAt(st.caps, s)))}
  {
    hide LevelAt;
    var mark := (FilterSlotOf(env, st, key), SummaryLevel(LevelAt(st.caps, s)));
    var before, after := Marks(env, st, st.at.Keys), Marks(env, st', st'.at.Keys);
    forall m | m in before + {mark} ensures m in after {
      if m in before {
        var k :| k in st.at && m == (FilterSlotOf(env, st, k), SummaryLevel(LevelAt(st.caps, st.at[k])));
        assert k in st'.at.Keys && FilterSlotOf(env, st', k) == FilterSlotOf(env, st, k);
      } else {
        assert key in st'.at.Keys && FilterSlotOf(env, st', key) == FilterSlotOf(env, st, key);
      }
    }
    forall m | m in after ensures m in before + {mark} {
      var k :| k in st'.at && m == (FilterSlotOf(env, st', k), SummaryLevel(LevelAt(st'.caps, st'.at[k])));
      assert k != key ==> k in st.at.Keys;
    }
    assert after == before + {mark};
  }

  lemma MarksGrow<K, V>(env: Env<K>, st: State<K, V>, ks: set<K>, key: K)
    requires key in st.at
    ensures Marks(env, st, ks + {key}) == Marks(env, st, ks)
            + {(FilterSlotOf(env, st, key), SummaryLevel(LevelAt(st.caps, st.at[key])))}
  {
    hide LevelAt;
    var before, after := Marks(env, st, ks), Marks(env, st, ks + {key});
    var mark := (FilterSlotOf(env, st, key), SummaryLevel(LevelAt(st.caps, st.at[key])));
    assert key in ks + {key};
    forall m | m in before ensures m in after {
      var k :| k in ks && k in st.at && m == (FilterSlotOf(env, st, k), SummaryLevel(LevelAt(st.caps, st.at[k])));
      assert k in ks + {key};
    }
    forall m | m in after ensures m in before + {mark} {
      var k :| k in ks + {key} && k in st.at
          && m == (FilterSlotOf(env, st, k), SummaryLevel(LevelAt(st.caps, st.at[k])));
      assert k != key ==> k in ks;
    }
    assert after == before + {mark};
  }

  // ---- Removing, replacing, refreshing ----

  /** There is an entry at the slot to vacate, counted on its level. */
  predicate CanVacate<K, V>(st: State<K, V>, level: nat, s: nat)
  {
    && level < |st.levelLen| == |st.levelTombs| && s < |st.ctrl| && s < |st.data| && st.data[s].Entry?
    && st.len > 0 && st.levelLen[level] > 0
  }

  function Vacate<K, V>(st: State<K, V>, level: nat, s: nat, c: Control): State<K, V>
    requires CanVacate(st, level, s)
  {
    st.(ctrl := st.ctrl[s := c], len := st.len - 1, levelLen := st.levelLen[level := st.levelLen[level] - 1],
        levelTombs := if c == Tombstone then st.levelTombs[level := st.levelTombs[level] + 1] else st.levelTombs,
        at := st.at - {st.data[s].key})
  }

  /** Vacating a live slot, to a tombstone or straight to EMPTY, keeps the entries in place, whatever the
      filter has lost: no lookup stops at EMPTY, so the routes of the other keys still lead to them. */
  lemma VacateKeepsIntact<K, V>(env: Env<K>, st: State<K, V>, level: nat, s: nat, c: Control)
    requires Intact(env, st) && OnLevel(st.caps, level, s) && s < |st.ctrl| && st.ctrl[s].Full? && IsFree(c)
    ensures CanVacate(st, level, s)
    ensures var st' := Vacate(st, level, s, c);
            Intact(env, st') && MapOf(env, st') == MapOf(env, st) - {st.data[s].key}
              && (EntriesRecorded(env, st) ==> EntriesRecorded(env, st'))
  {
    hide OnRoute, Scheduled, IsSchedule, SoundRouter, SoundKeys, LevelAt, Region, Offset, WordCount, ValidFilter,
         Recorded, EntriesRecorded, Sized, EntriesRouted, Counted;
    VacateReady(env, st, level, s);
    var st' := Vacate(st, level, s, c);
    VacateStored(st.ctrl, st.data, env.keys, st.at, s, c);
    VacateCounts(st, level, s, c);
    SameFindable(env, st, st');
    SameRouted(env, st, st');
    VacateSized(st, level, s, c);
  }

  /** It keeps the invariant too: the other keys stay findable. */
  lemma VacateKeepsInv<K, V>(env: Env<K>, st: State<K, V>, level: nat, s: nat, c: Control)
    requires Inv(env, st) && OnLevel(st.caps, level, s) && s < |st.ctrl| && st.ctrl[s].Full? && IsFree(c)
    ensures CanVacate(st, level, s)
    ensures var st' := Vacate(st, level, s, c);
            Inv(env, st') && MapOf(env, st') == MapOf(env, st) - {st.data[s].key}
              && (EntriesRecorded(env, st) ==> EntriesRecorded(env, st'))
  {
    hide Intact, MapOf, OnLevel, EntriesFindable, EntriesRecorded;
    VacateKeepsIntact(env, st, level, s, c);
    SameFindable(env, st, Vacate(st, level, s, c));
  }

  lemma SameRouted<K, V>(env: Env<K>, st: State<K, V>, st': State<K, V>)
    requires st'.caps == st.caps && st'.highWater == st.highWater
    requires forall k :: k in st'.at ==> k in st.at && st'.at[k] == st.at[k]
    ensures EntriesRouted(env, st) ==> EntriesRouted(env, st')
  {
    hide OnRoute;
  }

  lemma VacateReady<K, V>(env: Env<K>, st: State<K, V>, level: nat, s: nat)
    requires Intact(env, st) && OnLevel(st.caps, level, s) && s < |st.ctrl| && st.ctrl[s].Full?
    ensures CanVacate(st, level, s)
  {
    hide OnRoute, IsSchedule, SoundRouter, SoundKeys, Region, Offset, WordCount, ValidFilter, EntriesRouted;
    CountedUpdate(st.caps, st.ctrl, st.levelLen, st.levelTombs, level, s, Empty);
  }

  lemma VacateCounts<K, V>(st: State<K, V>, level: nat, s: nat, c: Control)
    requires Counted(st.caps, st.ctrl, st.levelLen, st.levelTombs) && OnLevel(st.caps, level, s) && s < |st.ctrl|
    requires CanVacate(st, level, s) && st.ctrl[s].Full? && IsFree(c)
    ensures var st' := Vacate(st, level, s, c); Counted(st'.caps, st'.ctrl, st'.levelLen, st'.levelTombs)
  {
    hide Region, Offset;
    CountedUpdate(st.caps, st.ctrl, st.levelLen, st.levelTombs, level, s, c);
    var st' := Vacate(st, level, s, c);
    assert st'.levelTombs == st.levelTombs[level := Adjust(st.levelTombs[level], false, c == Tombstone)];
  }

  lemma VacateSized<K, V>(st: State<K, V>, level: nat, s: nat, c: Control)
    requires Sized(st) && CanVacate(st, level, s) && |st.at - {st.data[s].key}| == |st.at| - 1
    ensures Sized(Vacate(st, level, s, c))
  {
    hide IsSchedule, ValidFilter, WordCount;
  }

  lemma ReplaceKeepsIntact<K, V>(env: Env<K>, st: State<K, V>, s: nat, value: V)
    requires Intact(env, st) && s < |st.ctrl| && st.ctrl[s].Full?
    ensures s < |st.data| && st.data[s].Entry? && st.data[s].key in MapOf(env, st)
            && MapOf(env, st)[st.data[s].key] == st.data[s].value
    ensures var st' := st.(data := st.data[s := Entry(st.data[s].key, value)]);
            Intact(env, st') && MapOf(env, st') == MapOf(env, st)[st.data[s].key := value]
              && (EntriesRecorded(env, st) ==> EntriesRecorded(env, st'))
  {
    hide OnRoute, IsSchedule, LevelAt, Counted, ValidFilter, SoundRouter, SoundKeys, EntriesRecorded;
    ReplaceStored(st.ctrl, st.data, env.keys, st.at, s, value);
    SameFindable(env, st, st.(data := st.data[s := Entry(st.data[s].key, value)]));
  }

  lemma ReplaceKeepsInv<K, V>(env: Env<K>, st: State<K, V>, s: nat, value: V)
    requires Inv(env, st) && s < |st.ctrl| && st.ctrl[s].Full?
    ensures s < |st.data| && st.data[s].Entry?
    ensures var st' := st.(data := st.data[s := Entry(st.data[s].key, value)]);
            Inv(env, st') && MapOf(env, st') == MapOf(env, st)[st.data[s].key := value]
              && (EntriesRecorded(env, st) ==> EntriesRecorded(env, st'))
  {
    hide Intact, MapOf, EntriesFindable, EntriesRecorded;
    ReplaceKeepsIntact(env, st, s, value);
    SameFindable(env, st, st.(data := st.data[s := Entry(st.data[s].key, value)]));
  }

  /** Changes to controls and values only, or to which keys are stored, find the rest as before. */
  lemma SameFindable<K, V>(env: Env<K>, st: State<K, V>, st': State<K, V>)
    requires st'.caps == st.caps && st'.filter == st.filter && st'.schedule == st.schedule
             && st'.exceptional == st.exceptional
    requires forall k :: k in st'.at ==> k in st.at && st'.at[k] == st.at[k]
    ensures EntriesFindable(env, st) ==> EntriesFindable(env, st')
    ensures EntriesRecorded(env, st) ==> EntriesRecorded(env, st')
  {
    hide Findable, LevelAt, Recorded;
    if EntriesFindable(env, st) {
      forall k | k in st'.at ensures Findable(env, st', k) {
        FindableGrows(env, st, st', k);
      }
    }
  }

  // ---- Refreshing the filter ----

  /** A refresh of `before` that came as far as slot `stop`: only the filter differs, and it reflects
      exactly the keys before that slot. */
  ghost predicate RefreshedUpTo<K, V>(env: Env<K>, before: State<K, V>, after: State<K, V>, stop: nat)
  {
    && after == before.(filter := after.filter) && |after.filter| == |before.filter| && ValidFilter(after.filter)
    && Reflects(after.filter, Marks(env, before, Moved(before.at, stop)))
  }

  /** Level bits that the keys ahead of slot `stop` record in this bin. */
  ghost function BinAhead<K, V>(env: Env<K>, st: State<K, V>, stop: nat, fs: FilterSlot): iset<nat>
  {
    iset x: nat | SomeMarkBins(Marks(env, st, Moved(st.at, stop)), fs.index, fs.bin, x)
  }

  /** Before the refresh: the key will be found with only the keys ahead of slot `stop` recorded. Either
      its lookup needs no filter; or each of its filter bits is one that some such key sets in the same
      word, and the bin those keys fill has its level bit or leads the lookup into a full scan. */
  ghost predicate CoveredBy<K, V>(env: Env<K>, st: State<K, V>, stop: nat, key: K)
    requires key in st.at
  {
    || SkipsFilter(env, st, key)
    || var fs := FilterSlotOf(env, st, key);
       && (forall x :: x in fs.bits ==> SomeMarkSets(Marks(env, st, Moved(st.at, stop)), fs.index, x))
       && (st.exceptional || LevelBit(st, key) in BinAhead(env, st, stop, fs)
           || LosesDraw(env, st, env.keys.hash(key), BinAhead(env, st, stop, fs)))
  }

  /** Every live key the refresh has not come to is covered by those it has. */
  ghost predicate Covered<K, V>(env: Env<K>, st: State<K, V>, stop: nat)
  {
    forall k :: k in st.at && st.at[k] >= stop ==> CoveredBy(env, st, stop, k)
  }

  /** A refresh that has not come to any key covers only what needs neither filter bits nor a level bit. */
  lemma NothingCovered<K, V>(env: Env<K>, st: State<K, V>, stop: nat, key: K)
    requires key in st.at && Moved(st.at, stop) == {}
    ensures CoveredBy(env, st, stop, key) <==> SkipsFilter(env, st, key)
                                               || (st.exceptional && FilterSlotOf(env, st, key).bits == {})
  {
    hide LevelBit, SkipsFilter;
    var fs, marks := FilterSlotOf(env, st, key), Marks(env, st, Moved(st.at, stop));
    assert marks == {};
    forall x ensures !SomeMarkSets(marks, fs.index, x) {
    }
    assert BinAhead(env, st, stop, fs) == iset{};
  }

  lemma BinIsAhead<K, V>(env: Env<K>, before: State<K, V>, after: State<K, V>, stop: nat, fs: FilterSlot)
    requires RefreshedUpTo(env, before, after, stop) && fs.index < |after.filter| && fs.bin < 4
    ensures BinOf(after.filter, fs) == BinAhead(env, before, stop, fs)
  {
    hide Marks, Reflects, SomeMarkBins;
    forall x: nat
      ensures x in BinOf(after.filter, fs) <==> x in BinAhead(env, before, stop, fs)
    {
      BitsAreMarks(after.filter, Marks(env, before, Moved(before.at, stop)), fs.index, fs.bin, x);
    }
  }

  /** Right after the refresh reached `stop`, a key is found exactly when it was covered before. */
  lemma FindableIffCovered<K, V>(env: Env<K>, before: State<K, V>, after: State<K, V>, stop: nat, key: K)
    requires Intact(env, before) && key in before.at && RefreshedUpTo(env, before, after, stop)
    ensures Findable(env, after, key) <==> CoveredBy(env, before, stop, key)
    ensures before.at[key] < stop ==> Findable(env, after, key)
  {
    hide LevelAt, SummaryLevel, Admits, Reflects, SomeMarkSets, SomeMarkBins, EntriesRouted, Counted, IsSchedule,
         Marks, BinOf, WordCount;
    var fs, hash := FilterSlotOf(env, before, key), env.keys.hash(key);
    assert |before.data| > 0;
    FilterReady(env, before, key);
    assert FilterSlotOf(env, after, key) == fs;
    BinIsAhead(env, before, after, stop, fs);
    SameDraws(env, before, after, hash, BinAhead(env, before, stop, fs));
    AdmittedByMarks(after.filter, Marks(env, before, Moved(before.at, stop)), fs, LevelBit(before, key),
                    before.exceptional || LosesDraw(env, before, hash, BinAhead(env, before, stop, fs)));
    if before.at[key] < stop {
      RecordedBefore(env, before, after, stop, key);
    }
  }

  lemma SameDraws<K, V>(env: Env<K>, before: State<K, V>, after: State<K, V>, hash: Word, levels: iset<nat>)
    requires after.schedule == before.schedule
    ensures LosesDraw(env, after, hash, levels) <==> LosesDraw(env, before, hash, levels)
  {
    if LosesDraw(env, after, hash, levels) {
      var i :| 0 <= i < |after.schedule| && FailsAt(env, after, hash, levels, i);
      assert FailsAt(env, before, hash, levels, i);
    }
    if LosesDraw(env, before, hash, levels) {
      var i :| 0 <= i < |before.schedule| && FailsAt(env, before, hash, levels, i);
      assert FailsAt(env, after, hash, levels, i);
    }
  }

  lemma RecordedBefore<K, V>(env: Env<K>, before: State<K, V>, after: State<K, V>, stop: nat, key: K)
    requires RefreshedUpTo(env, before, after, stop) && key in before.at && before.at[key] < stop
    ensures Findable(env, after, key)
  {
    hide LevelAt, SummaryLevel;
    assert key in Moved(before.at, stop);
    assert (FilterSlotOf(env, before, key), LevelBit(before, key)) in Marks(env, before, Moved(before.at, stop));
    RecordedIsFindable(env, after, key);
  }

  /** Wherever a refresh stops, entries and routes are untouched, and the invariant holds again if and
      only if the keys it did not come to were covered before it began. */
  lemma RefreshMeaning<K, V>(env: Env<K>, before: State<K, V>, after: State<K, V>, stop: nat)
    requires Intact(env, before) && RefreshedUpTo(env, before, after, stop)
    ensures Intact(env, after) && MapOf(env, after) == MapOf(env, before)
    ensures Inv(env, after) <==> Covered(env, before, stop)
  {
    hide OnRoute, IsSchedule, LevelAt, Counted, SoundRouter, SoundKeys, ValidFilter, Reflects, Findable, CoveredBy;
    forall k | k in before.at
      ensures Findable(env, after, k) <==> CoveredBy(env, before, stop, k)
      ensures before.at[k] < stop ==> Findable(env, after, k)
    {
      FindableIffCovered(env, before, after, stop, k);
    }
  }

  /** A refresh that came past every live key leaves a filter of exactly the live keys. */
  lemma RefreshComplete<K, V>(env: Env<K>, before: State<K, V>, after: State<K, V>, stop: nat)
    requires RefreshedUpTo(env, before, after, stop) && Moved(before.at, stop) == before.at.Keys
    ensures Tight(env, after)
  {
    hide Reflects, LevelAt;
    assert Marks(env, after, after.at.Keys) == Marks(env, before, before.at.Keys);
  }

  lemma EmptyRegion(caps: seq<nat>, ctrl: seq<Control>, l: nat)
    requires l < |caps| && |ctrl| == Offset(caps, |caps|) && forall i :: 0 <= i < |ctrl| ==> ctrl[i] == Empty
    ensures Lives(Region(caps, ctrl, l)) == 0 && Tombs(Region(caps, ctrl, l)) == 0
  {
    OffsetsOrdered(caps, l, |caps|);
    CountExtremes(Region(caps, ctrl, l));
  }

  /** An all-EMPTY arena with zero counters, a clear filter and no schedule is a valid empty table. */
  lemma FreshInv<K, V>(env: Env<K>, st: State<K, V>)
    requires SoundEnv(env) && |st.caps| <= MAX_LEVELS && |st.ctrl| == |st.data| == Offset(st.caps, |st.caps|)
    requires |st.filter| == WordCount(|st.data|) && ValidFilter(st.filter) && st.maxInsertions <= |st.data|
    requires forall i :: 0 <= i < |st.ctrl| ==> st.ctrl[i] == Empty
    requires st.len == 0 && st.at == map[] && st.highWater == 0 && st.schedule == []
    requires |st.levelLen| == |st.levelTombs| == |st.caps|
    requires forall l :: 0 <= l < |st.caps| ==> st.levelLen[l] == 0 && st.levelTombs[l] == 0
    ensures Inv(env, st) && MapOf(env, st) == map[]
    ensures Reflects(st.filter, {}) ==> Tight(env, st)
  {
    hide Scheduled, IsSchedule, SoundRouter, SoundKeys, Region, Offset, ValidFilter, WordCount;
    EmptySchedule(st.caps);
    forall l | 0 <= l < |st.caps|
      ensures Lives(Region(st.caps, st.ctrl, l)) == 0 && Tombs(Region(st.caps, st.ctrl, l)) == 0
    {
      EmptyRegion(st.caps, st.ctrl, l);
    }
    assert Marks(env, st, {}) == {};
  }

  /** With room under the insertion limit some slot is free. */
  lemma RoomMeansFree<K, V>(env: Env<K>, st: State<K, V>)
    requires Intact(env, st) && st.len < st.maxInsertions
    ensures exists s: nat :: s < |st.data| && IsFree(st.ctrl[s])
  {
    LivesAreKeys(st.ctrl, st.data, env.keys, st.at);
    FreeBelow(st.ctrl, |st.data|);
  }

  // ---- Why lookups agree with a full scan ----

  /** Some reachable probe on a level whose summary bit `levels` has leads to the key. */
  ghost predicate MeetsKeyAt<K, V>(st: State<K, V>, route: Router, hash: Word, key: K, fp: bv8, levels: set<nat>,
                                   level: nat, logical: nat)
  {
    && level < |st.caps| && Reachable(level, logical, st.highWater)
    && ((level == 0 && logical == 0) || SummaryLevel(level) in levels)
    && route(hash, level, logical, st.caps[level]).Some?
    && var s := Offset(st.caps, level) + route(hash, level, logical, st.caps[level]).value;
       s < |st.ctrl| && s < |st.data| && st.ctrl[s] == Full(fp) && Holds(st.data[s], key)
  }

  ghost predicate MeetsKey<K, V>(st: State<K, V>, route: Router, hash: Word, key: K, fp: bv8, levels: set<nat>)
  {
    exists level: nat, logical: nat :: MeetsKeyAt(st, route, hash, key, fp, levels, level, logical)
  }

  /** In an ordinary epoch a present key is met on a reachable probe if the levels searched include its own. */
  lemma PresentIsMet<K, V>(env: Env<K>, st: State<K, V>, key: K, levels: set<nat>)
    requires Intact(env, st) && !st.exceptional && key in st.at
    requires LevelBit(st, key) in levels
    ensures MeetsKey(st, env.route, env.keys.hash(key), key, env.keys.Fp(key), levels)
  {
    hide Scheduled, IsSchedule, Counted, Offset;
    var hash, s := env.keys.hash(key), st.at[key];
    var level: nat, logical: nat :| RouteAt(env.route, st.caps, hash, st.highWater, s, level, logical);
    LevelAtOf(st.caps, level, s);
    assert MeetsKeyAt(st, env.route, hash, key, env.keys.Fp(key), levels, level, logical);
  }

  /** A met key is the present key. */
  lemma MetIsPresent<K, V>(env: Env<K>, st: State<K, V>, key: K, s: nat)
    requires Intact(env, st) && s < |st.data| && s < |st.ctrl|
    requires st.ctrl[s] == Full(env.keys.Fp(key)) && Holds(st.data[s], key)
    ensures key in st.at && st.at[key] == s
  {
    hide EntriesRouted, Counted, IsSchedule, SoundEnv;
  }

  /** What `find` returns on a table that may have lost part of its filter: the key's slot if the key
      is stored and findable. */
  ghost function Answer<K, V>(env: Env<K>, st: State<K, V>, key: K): Option<nat>
  {
    if key in st.at && Findable(env, st, key) then Some(st.at[key]) else None
  }

  /** Every lookup returns what a full scan would. */
  ghost predicate LookupsAgree<K, V>(env: Env<K>, st: State<K, V>)
    requires |st.data| <= |st.ctrl|
  {
    forall k :: k in st.at ==> Answer(env, st, k) == FullScan(st.ctrl, st.data, k, env.keys.Fp(k), 0)
  }

  /** The invariant is exactly what lookups need: on a table whose entries are in place, it holds if and
      only if every lookup agrees with a full scan. Keys that are not stored are never found. */
  lemma InvIffLookupsAgree<K, V>(env: Env<K>, st: State<K, V>)
    requires Intact(env, st)
    ensures Inv(env, st) <==> LookupsAgree(env, st)
    ensures forall k: K :: k !in st.at ==>
                             Answer(env, st, k) == FullScan(st.ctrl, st.data, k, env.keys.Fp(k), 0) == None
  {
    hide EntriesRouted, Counted, IsSchedule, SoundEnv, Findable, ValidFilter;
    forall k: K
      ensures FullScan(st.ctrl, st.data, k, env.keys.Fp(k), 0) == if k in st.at then Some(st.at[k]) else None
    {
      FullScanFinds(st.ctrl, st.data, env.keys, st.at, k, 0);
    }
  }

  /** What a scheduled walk that missed knows, in an ordinary epoch: the key is not stored, or not on a
      level the walk searched. */
  lemma MissMeans<K, V>(env: Env<K>, st: State<K, V>, key: K, levels: set<nat>)
    requires Intact(env, st) && !st.exceptional
    requires !MeetsKey(st, env.route, env.keys.hash(key), key, env.keys.Fp(key), levels)
    ensures key in st.at ==> LevelBit(st, key) !in levels
  {
    hide MeetsKey, LevelAt, Intact;
    if key in st.at && LevelBit(st, key) in levels {
      PresentIsMet(env, st, key, levels);
    }
  }

  /** A filter that carries every live key rejects only absent keys; that of any valid table rejects
      besides those only keys whose lookup never asks it. */
  lemma RejectedIsAbsent<K, V>(env: Env<K>, st: State<K, V>, key: K)
    requires Inv(env, st)
    requires var fs := FilterSlotOf(env, st, key);
             fs.index < |st.filter| ==> !(fs.bits <= st.filter[fs.index].membership)
    ensures EntriesRecorded(env, st) ==> key !in st.at
    ensures key in st.at ==> SkipsFilter(env, st, key)
  {
    hide Intact, LevelAt;
  }

  // ---- Wiping a drained level ----

  /** Controls with one level reset to EMPTY. */
  function Wiped(caps: seq<nat>, ctrl: seq<Control>, level: nat): (r: seq<Control>)
    requires level < |caps|
    ensures |r| == |ctrl|
  {
    seq(|ctrl|, i requires 0 <= i < |ctrl| => if Offset(caps, level) <= i < Offset(caps, level) + caps[level] then Empty
                                              else ctrl[i])
  }

  lemma WipedRegions(caps: seq<nat>, ctrl: seq<Control>, level: nat, l: nat)
    requires |ctrl| == Offset(caps, |caps|) && level < |caps| && l < |caps|
    ensures l != level ==> Region(caps, Wiped(caps, ctrl, level), l) == Region(caps, ctrl, l)
    ensures Lives(Region(caps, Wiped(caps, ctrl, level), level)) == 0
            && Tombs(Region(caps, Wiped(caps, ctrl, level), level)) == 0
  {
    hide Offset;
    OffsetsOrdered(caps, level, |caps|);
    CountExtremes(Region(caps, Wiped(caps, ctrl, level), level));
    if l != level {
      OtherRegion(caps, ctrl, level, l);
    }
  }

  lemma OtherRegion(caps: seq<nat>, ctrl: seq<Control>, level: nat, l: nat)
    requires |ctrl| == Offset(caps, |caps|) && level < |caps| && l < |caps| && l != level
    ensures Region(caps, Wiped(caps, ctrl, level), l) == Region(caps, ctrl, l)
  {
    hide Offset;
    OffsetsOrdered(caps, l, |caps|);
    OffsetsOrdered(caps, level, |caps|);
    if l < level {
      OffsetsOrdered(caps, l, level);
    } else {
      OffsetsOrdered(caps, level, l);
    }
  }

  lemma DrainedRegion(caps: seq<nat>, ctrl: seq<Control>, level: nat)
    requires |ctrl| == Offset(caps, |caps|) && level < |caps|
    requires forall s: nat :: OnLevel(caps, level, s) && s < |ctrl| ==> !ctrl[s].Full?
    ensures Lives(Region(caps, ctrl, level)) == 0
  {
    OffsetsOrdered(caps, level, |caps|);
    var region := Region(caps, ctrl, level);
    forall i | 0 <= i < |region| ensures !region[i].Full? {
      assert OnLevel(caps, level, Offset(caps, level) + i);
    }
    if Lives(region) > 0 {
      LiveExists(region);
    }
  }

  /** Resetting a level that holds no live entry changes no entry: no lookup stops at EMPTY. */
  lemma WipeKeepsInv<K, V>(env: Env<K>, st: State<K, V>, level: nat)
    requires Intact(env, st) && level < |st.caps|
    requires forall s: nat :: OnLevel(st.caps, level, s) && s < |st.ctrl| ==> !st.ctrl[s].Full?
    ensures |st.levelTombs| == |st.caps|
    ensures var st' := st.(ctrl := Wiped(st.caps, st.ctrl, level), levelTombs := st.levelTombs[level := 0]);
            Intact(env, st') && (Inv(env, st) ==> Inv(env, st')) && MapOf(env, st') == MapOf(env, st)
              && (EntriesRecorded(env, st) ==> EntriesRecorded(env, st'))
  {
    hide OnRoute, IsSchedule, LevelAt, SoundRouter, SoundKeys, ValidFilter, Region, Offset, Lives, Tombs, Findable,
         Recorded;
    var st' := st.(ctrl := Wiped(st.caps, st.ctrl, level), levelTombs := st.levelTombs[level := 0]);
    DrainedRegion(st.caps, st.ctrl, level);
    forall l | 0 <= l < |st.caps|
      ensures st'.levelLen[l] == Lives(Region(st.caps, st'.ctrl, l))
              && st'.levelTombs[l] == Tombs(Region(st.caps, st'.ctrl, l))
    {
      WipedRegions(st.caps, st.ctrl, level, l);
    }
    forall k | k in st.at ensures st'.ctrl[st.at[k]] == st.ctrl[st.at[k]] {
      assert !OnLevel(st.caps, level, st.at[k]);
    }
    SameFindable(env, st, st');
  }
}
