/** The invariant of a Funnel table, on values: where entries sit on their walks, what the filter
    knows of them, and why an EMPTY-stopping, level-skipping lookup cannot miss one. */
module FunnelState {
  import opened Controls
  import opened Wrappers
  import opened Store
  import opened Membership
  import opened FunnelPlan
  import opened FunnelWalk

  // ---- Position on a walk ----

  /** None of the first `upto` slots of a leg is EMPTY. */
  ghost predicate Solid(ctrl: seq<Control>, leg: seq<nat>, upto: nat)
  {
    upto <= |leg| && forall q: nat :: q < upto ==> leg[q] < |ctrl| && ctrl[leg[q]] != Empty
  }

  /** All of the first `upto` slots of a leg hold live entries. */
  ghost predicate Crowded(ctrl: seq<Control>, leg: seq<nat>, upto: nat)
  {
    upto <= |leg| && forall q: nat :: q < upto ==> leg[q] < |ctrl| && ctrl[leg[q]].Full?
  }

  /** Every draw before leg `i` succeeds. */
  ghost predicate Reaches(w: Walk, i: nat)
  {
    i <= LegCount(w.shape) && forall j: nat :: j < i ==> Leg(w, j) != []
  }

  /** Slot `s` is step `p` of leg `i`, and no slot before it on the walk is EMPTY. */
  ghost predicate PlacedAt(ctrl: seq<Control>, w: Walk, s: nat, i: nat, p: nat)
  {
    && i < LegCount(w.shape) && p < |Leg(w, i)| && Leg(w, i)[p] == s && Reaches(w, i)
    && (forall j: nat :: j < i ==> Solid(ctrl, Leg(w, j), |Leg(w, j)|))
    && Solid(ctrl, Leg(w, i), p)
  }

  ghost predicate Placed(ctrl: seq<Control>, w: Walk, s: nat)
  {
    exists i: nat, p: nat :: PlacedAt(ctrl, w, s, i, p)
  }

  /** Slot `s` is free, and every slot before it on the walk holds a live entry. */
  ghost predicate VacancyAt(ctrl: seq<Control>, w: Walk, s: nat, i: nat, p: nat)
  {
    && i < LegCount(w.shape) && p < |Leg(w, i)| && Leg(w, i)[p] == s && Reaches(w, i)
    && (forall j: nat :: j < i ==> Crowded(ctrl, Leg(w, j), |Leg(w, j)|))
    && Crowded(ctrl, Leg(w, i), p) && s < |ctrl| && IsFree(ctrl[s])
  }

  /** The walk ends, by exhaustion or a failed draw, without meeting a free slot. */
  ghost predicate NoVacancy(ctrl: seq<Control>, w: Walk)
  {
    forall s: nat, i: nat, p: nat :: !VacancyAt(ctrl, w, s, i, p)
  }

  /** A walk has at most one vacancy: the first free slot on it. */
  lemma VacancyUnique(ctrl: seq<Control>, w: Walk, s: nat, i: nat, p: nat, s': nat, i': nat, p': nat)
    requires VacancyAt(ctrl, w, s, i, p) && VacancyAt(ctrl, w, s', i', p')
    ensures i == i' && p == p' && s == s'
  {
    if i < i' {
      assert false;
    } else if i' < i {
      assert false;
    }
  }

  /** An EMPTY slot on the walk ends every placement at or before it. */
  lemma EmptyEndsWalk(ctrl: seq<Control>, w: Walk, e: nat, i: nat, p: nat, s: nat, i': nat, p': nat)
    requires PlacedAt(ctrl, w, e, i, p) && e < |ctrl| && ctrl[e] == Empty
    requires PlacedAt(ctrl, w, s, i', p')
    ensures i' < i || (i' == i && p' <= p)
  {
    if i < i' {
      assert false;
    }
  }

  /** Filling or tombstoning slots never uncovers an EMPTY, so placements survive it. */
  lemma PlacementSurvives(ctrl: seq<Control>, ctrl': seq<Control>, w: Walk, s: nat)
    requires |ctrl| == |ctrl'| && forall x: nat :: x < |ctrl| && ctrl'[x] == Empty ==> ctrl[x] == Empty
    requires Placed(ctrl, w, s)
    ensures Placed(ctrl', w, s)
  {
    hide Leg;
    var i: nat, p: nat :| PlacedAt(ctrl, w, s, i, p);
    forall j: nat | j < i ensures Solid(ctrl', Leg(w, j), |Leg(w, j)|) {
      assert Solid(ctrl, Leg(w, j), |Leg(w, j)|);
    }
    assert PlacedAt(ctrl', w, s, i, p);
  }

  /** An entry written at the vacancy of its walk is placed. */
  lemma VacancyIsPlaced(ctrl: seq<Control>, w: Walk, s: nat, i: nat, p: nat, c: Control)
    requires VacancyAt(ctrl, w, s, i, p) && c.Full?
    ensures Placed(ctrl[s := c], w, s)
  {
    hide Leg;
    forall j: nat | j < i ensures Solid(ctrl[s := c], Leg(w, j), |Leg(w, j)|) {
      assert Crowded(ctrl, Leg(w, j), |Leg(w, j)|);
    }
    assert PlacedAt(ctrl[s := c], w, s, i, p);
  }

  // ---- The table's state and invariant ----

  /** What a table is built over: its key hashing, filter location and probe choice. */
  datatype Env<!K> = Env(keys: Keys<K>, filterSlot: (Word, nat) -> FilterSlot, sample: Sampler)

  ghost predicate SoundEnv<K>(env: Env<K>)
  {
    && SoundKeys(env.keys) && SoundSampler(env.sample)
    && forall h: Word, words: nat :: SlotFits(env.filterSlot(h, words), words)
  }

  datatype State<!K, V> = State(
    shape: FunnelShape, ctrl: seq<Control>, data: seq<Slot<K, V>>, filter: seq<MetadataWord>,
    len: nat, tombstones: nat, exceptional: bool, seed: Word, at: map<K, nat>)

  function WalkOf<K, V>(env: Env<K>, st: State<K, V>, key: K): Walk
  {
    Walk(st.shape, env.sample, st.seed, env.keys.hash(key))
  }

  function FilterSlotOf<K, V>(env: Env<K>, st: State<K, V>, key: K): FilterSlot
  {
    env.filterSlot(env.keys.hash(key), |st.filter|)
  }

  /** Sizes, padding and counters agree with the shape. */
  ghost predicate Sized<K, V>(st: State<K, V>)
  {
    && ValidShape(st.shape) && |st.data| == st.shape.n
    && |st.ctrl| == (if st.shape.n == 0 then 0 else st.shape.n + GROUP - 1)
    && |st.filter| == WordCount(st.shape.n) && ValidFilter(st.filter)
    && st.len == |st.at| <= st.shape.maxInsertions && st.tombstones == Tombs(st.ctrl)
  }

  /** The gate admits the stored key, and unless the epoch is exceptional its bin sends the lookup to
      the key's level. */
  ghost predicate Admitted<K, V>(env: Env<K>, st: State<K, V>, key: K)
    requires key in st.at
  {
    Admits(st.filter, FilterSlotOf(env, st, key), SlotBit(st.shape, st.at[key]), st.exceptional)
  }

  ghost predicate EntriesAdmitted<K, V>(env: Env<K>, st: State<K, V>)
  {
    forall k :: k in st.at ==> Admitted(env, st, k)
  }

  /** The filter carries every live key's bits and level bit, as it does unless a refresh was interrupted. */
  ghost predicate EntriesRecorded<K, V>(env: Env<K>, st: State<K, V>)
  {
    forall k :: k in st.at ==> Recorded(st.filter, FilterSlotOf(env, st, k), SlotBit(st.shape, st.at[k]))
  }

  ghost predicate EntriesPlaced<K, V>(env: Env<K>, st: State<K, V>)
  {
    forall k :: k in st.at ==> Placed(st.ctrl, WalkOf(env, st, k), st.at[k])
  }

  /** What holds of a table whatever its filter says: every live key sits in one slot, and unless the
      epoch placed something outside its funnel, no EMPTY precedes it on its own walk. */
  ghost predicate Intact<K, V>(env: Env<K>, st: State<K, V>)
  {
    && SoundEnv(env) && Sized(st)
    && Stored(st.ctrl, st.data, env.keys, st.at)
    && (!st.exceptional ==> EntriesPlaced(env, st))
  }

  /** The Funnel invariant: in addition the filter admits every live key. */
  ghost predicate Inv<K, V>(env: Env<K>, st: State<K, V>)
  {
    Intact(env, st) && EntriesAdmitted(env, st)
  }

  /** Recording every live key is enough for the invariant. */
  lemma RecordedIsEnough<K, V>(env: Env<K>, st: State<K, V>)
    requires Intact(env, st) && EntriesRecorded(env, st)
    ensures Inv(env, st)
  {
    hide Intact, SlotBit;
  }

  ghost function MapOf<K, V>(env: Env<K>, st: State<K, V>): map<K, V>
  {
    Contents(st.data, st.at)
  }

  lemma ControlsProper<K, V>(env: Env<K>, st: State<K, V>)
    requires Intact(env, st)
    ensures forall i :: 0 <= i < |st.ctrl| ==> Proper(st.ctrl[i])
  {
    hide EntriesPlaced, ValidShape;
    forall i | 0 <= i < |st.ctrl| ensures Proper(st.ctrl[i]) {
      if st.ctrl[i].Full? {
        assert st.ctrl[st.at[st.data[i].key]] == Full(env.keys.Fp(st.data[i].key));
      }
    }
  }

  // ---- Placing an entry ----

  /** Effect of `place_new_entry` on the state. */
  function PlaceNew<K, V>(env: Env<K>, st: State<K, V>, s: nat, key: K, value: V, bit: nat,
                          exceptional: bool): State<K, V>
    requires s < |st.ctrl| && s < |st.data|
    requires var fs := FilterSlotOf(env, st, key); fs.index < |st.filter| && fs.bin < |st.filter[fs.index].bins|
    requires st.ctrl[s] == Tombstone ==> st.tombstones > 0
  {
    st.(ctrl := st.ctrl[s := Full(env.keys.Fp(key))],
        data := st.data[s := Entry(key, value)],
        filter := Record(st.filter, FilterSlotOf(env, st, key), bit),
        len := st.len + 1,
        tombstones := if st.ctrl[s] == Tombstone then st.tombstones - 1 else st.tombstones,
        exceptional := st.exceptional || exceptional,
        at := st.at[key := s])
  }

  /** `after` is `before` with the key's entry written at a slot of its walk and recorded in the filter. */
  ghost predicate Wrote<K, V>(env: Env<K>, before: State<K, V>, after: State<K, V>, s: nat, key: K, value: V)
  {
    && s < |before.ctrl| && s < |before.data| && (before.ctrl[s] == Tombstone ==> before.tombstones > 0)
    && FilterSlotOf(env, before, key).index < |before.filter|
    && FilterSlotOf(env, before, key).bin < |before.filter[FilterSlotOf(env, before, key).index].bins|
    && after == PlaceNew(env, before, s, key, value, SlotBit(before.shape, s), false)
  }

  /** A free slot for an absent key: either the vacancy of its walk, or any free slot in an epoch
      marked exceptional. */
  ghost predicate Target<K, V>(env: Env<K>, st: State<K, V>, key: K, s: nat, exceptional: bool)
  {
    && s < |st.data| && s < |st.ctrl| && IsFree(st.ctrl[s])
    && (st.exceptional || exceptional || exists i: nat, p: nat :: VacancyAt(st.ctrl, WalkOf(env, st, key), s, i, p))
  }

  /** The slot is the first free one of the key's walk. */
  ghost predicate FirstFreeOnWalk<K, V>(env: Env<K>, st: State<K, V>, key: K, slot: nat)
  {
    exists i: nat, p: nat :: VacancyAt(st.ctrl, WalkOf(env, st, key), slot, i, p)
  }

  ghost predicate NoneFreeOnWalk<K, V>(env: Env<K>, st: State<K, V>, key: K)
  {
    NoVacancy(st.ctrl, WalkOf(env, st, key))
  }

  /** `after` is `before` with the key's entry written at a free slot: the vacancy of its walk, or any once
      the epoch is marked exceptional. */
  ghost predicate Put<K, V>(env: Env<K>, before: State<K, V>, after: State<K, V>, key: K, value: V)
  {
    && key in after.at && Target(env, before, key, after.at[key], after.exceptional)
    && before.len < before.shape.maxInsertions && SlotBit(before.shape, after.at[key]) <= LAST_BIT
    && (before.ctrl[after.at[key]] == Tombstone ==> before.tombstones > 0)
    && FilterSlotOf(env, before, key).index < |before.filter|
    && FilterSlotOf(env, before, key).bin < |before.filter[FilterSlotOf(env, before, key).index].bins|
    && after == PlaceNew(env, before, after.at[key], key, value, SlotBit(before.shape, after.at[key]),
                         after.exceptional)
  }

  /** Where placement puts a key taken for absent: at the first free slot of its walk; without one, at the
      first free slot of the table, in an epoch marked for it. */
  ghost predicate Settled<K, V>(env: Env<K>, before: State<K, V>, after: State<K, V>, key: K, value: V)
  {
    && Put(env, before, after, key, value)
    && if NoneFreeOnWalk(env, before, key) then
         after.exceptional && forall s: nat :: s < after.at[key] && s < |before.ctrl| ==> !IsFree(before.ctrl[s])
       else FirstFreeOnWalk(env, before, key, after.at[key]) && after.exceptional == before.exceptional
  }

  lemma IsSettled<K, V>(env: Env<K>, before: State<K, V>, after: State<K, V>, key: K, value: V, outside: bool)
    requires Put(env, before, after, key, value) && after.exceptional == (before.exceptional || outside)
    requires !outside ==> FirstFreeOnWalk(env, before, key, after.at[key])
    requires outside ==> NoneFreeOnWalk(env, before, key)
                         && forall s: nat :: s < after.at[key] && s < |before.ctrl| ==> !IsFree(before.ctrl[s])
    ensures Settled(env, before, after, key, value)
  {
    hide VacancyAt, Target, SlotBit;
    if !outside {
      var i: nat, p: nat :| VacancyAt(before.ctrl, WalkOf(env, before, key), after.at[key], i, p);
    }
  }

  /** What a written entry amounts to: an absent key joins the map, and one that was stored all along is
      then in two live slots. */
  lemma PutMeans<K, V>(env: Env<K>, before: State<K, V>, after: State<K, V>, key: K, value: V)
    requires Intact(env, before) && Put(env, before, after, key, value)
    ensures var s := after.at[key];
            s < |after.ctrl| && s < |after.data| && after.ctrl[s].Full? && after.data[s] == Entry(key, value)
    ensures key !in before.at ==> Intact(env, after) && MapOf(env, after) == MapOf(env, before)[key := value]
    ensures key !in before.at && Inv(env, before) ==> Inv(env, after)
    ensures key !in before.at && EntriesRecorded(env, before) ==> EntriesRecorded(env, after)
    ensures key in before.at ==> HeldTwice(after.ctrl, after.data, key, before.at[key], after.at[key])
  {
    hide Intact, Inv, SlotBit, Record, VacancyAt, EntriesRecorded, MapOf, HeldTwice;
    var s, bit := after.at[key], SlotBit(before.shape, after.at[key]);
    if key in before.at {
      StoredOf(env, before);
      PlaceTwice(before.ctrl, before.data, env.keys, before.at, s, key, value);
    } else {
      PlaceKeepsIntact(env, before, s, key, value, bit, after.exceptional);
      if EntriesRecorded(env, before) {
        RecordedIsEnough(env, before);
      }
      if Inv(env, before) {
        PlaceKeepsInv(env, before, s, key, value, bit, after.exceptional);
      }
    }
  }

  lemma StoredOf<K, V>(env: Env<K>, st: State<K, V>)
    requires Intact(env, st)
    ensures Stored(st.ctrl, st.data, env.keys, st.at)
  {
    hide SoundEnv, Sized, Stored, EntriesPlaced;
  }

  lemma FilterReady<K, V>(env: Env<K>, st: State<K, V>, key: K)
    requires SoundEnv(env) && Sized(st) && st.shape.n > 0
    ensures var fs := FilterSlotOf(env, st, key); fs.index < |st.filter| && fs.bin < 4 == |st.filter[fs.index].bins|
  {
    var fs := env.filterSlot(env.keys.hash(key), |st.filter|);
    assert SlotFits(fs, |st.filter|);
  }

  /** Placing an absent key keeps entries in place, whatever the filter has lost, and adds exactly that
      entry. */
  lemma PlaceKeepsIntact<K, V>(env: Env<K>, st: State<K, V>, s: nat, key: K, value: V, bit: nat, exceptional: bool)
    requires Intact(env, st) && key !in st.at && st.len < st.shape.maxInsertions
    requires Target(env, st, key, s, exceptional) && bit == SlotBit(st.shape, s) <= LAST_BIT
    ensures st.shape.n > 0 && s < |st.ctrl| && s < |st.data| && FilterSlotOf(env, st, key).index < |st.filter|
    ensures FilterSlotOf(env, st, key).bin < |st.filter[FilterSlotOf(env, st, key).index].bins|
    ensures st.ctrl[s] == Tombstone ==> st.tombstones > 0
    ensures var st' := PlaceNew(env, st, s, key, value, bit, exceptional);
            Intact(env, st') && MapOf(env, st') == MapOf(env, st)[key := value]
  {
    hide Placed, SlotBit, ValidShape, SoundSampler, SoundKeys, Record, Stored, Sized, EntriesPlaced, VacancyAt;
    PlaceReady(env, st, s, key, exceptional);
    var st' := PlaceNew(env, st, s, key, value, bit, exceptional);
    PlaceStored(st.ctrl, st.data, env.keys, st.at, s, key, value);
    RecordKeeps(st.filter, FilterSlotOf(env, st, key), bit, FilterSlotOf(env, st, key), bit);
    PlaceSized(env, st, s, key, value, bit, exceptional);
    if !st'.exceptional {
      PlacePlaces(env, st, st', s, key);
    }
  }

  /** Placing an absent key keeps the invariant and adds exactly that entry. */
  lemma PlaceKeepsInv<K, V>(env: Env<K>, st: State<K, V>, s: nat, key: K, value: V, bit: nat, exceptional: bool)
    requires Inv(env, st) && key !in st.at && st.len < st.shape.maxInsertions
    requires Target(env, st, key, s, exceptional) && bit == SlotBit(st.shape, s) <= LAST_BIT
    ensures st.shape.n > 0 && s < |st.ctrl| && s < |st.data| && FilterSlotOf(env, st, key).index < |st.filter|
    ensures FilterSlotOf(env, st, key).bin < |st.filter[FilterSlotOf(env, st, key).index].bins|
    ensures st.ctrl[s] == Tombstone ==> st.tombstones > 0
    ensures var st' := PlaceNew(env, st, s, key, value, bit, exceptional);
            Inv(env, st') && MapOf(env, st') == MapOf(env, st)[key := value] && (Tight(env, st) ==> Tight(env, st'))
            && (EntriesRecorded(env, st) ==> EntriesRecorded(env, st'))
  {
    hide Intact, SlotBit, Admits, Record, Tight, EntriesAdmitted, EntriesRecorded, Target, MapOf;
    PlaceKeepsIntact(env, st, s, key, value, bit, exceptional);
    PlaceReady(env, st, s, key, exceptional);
    SoundEnvOf(env, st);
    var st' := PlaceNew(env, st, s, key, value, bit, exceptional);
    PlaceRecords(env, st, st', s, key, bit);
    if Tight(env, st) {
      PlaceKeepsTight(env, st, st', s, key, bit);
    }
  }

  lemma SoundEnvOf<K, V>(env: Env<K>, st: State<K, V>)
    requires Intact(env, st)
    ensures SoundEnv(env)
  {
    hide SoundEnv, Sized, Stored, EntriesPlaced;
  }

  /** What a placement writes to is there. */
  lemma PlaceReady<K, V>(env: Env<K>, st: State<K, V>, s: nat, key: K, exceptional: bool)
    requires Intact(env, st) && Target(env, st, key, s, exceptional)
    ensures st.shape.n > 0 && s < |st.ctrl| && s < |st.data| && IsFree(st.ctrl[s]) && ValidFilter(st.filter)
    ensures var fs := FilterSlotOf(env, st, key); fs.index < |st.filter| && fs.bin < 4 == |st.filter[fs.index].bins|
    ensures st.ctrl[s] == Tombstone ==> st.tombstones > 0
  {
    hide Placed, ValidShape, SoundSampler, SoundKeys, Stored, EntriesPlaced, VacancyAt;
    assert |st.data| == st.shape.n;
    FilterReady(env, st, key);
    CountUpdate(st.ctrl, s, Empty);
  }

  lemma PlaceSized<K, V>(env: Env<K>, st: State<K, V>, s: nat, key: K, value: V, bit: nat, exceptional: bool)
    requires Sized(st) && st.len < st.shape.maxInsertions && s < |st.data| && s < |st.ctrl| && IsFree(st.ctrl[s])
    requires var fs := FilterSlotOf(env, st, key); fs.index < |st.filter| && fs.bin < |st.filter[fs.index].bins|
    requires st.ctrl[s] == Tombstone ==> st.tombstones > 0
    requires key !in st.at && ValidFilter(Record(st.filter, FilterSlotOf(env, st, key), bit))
    ensures Sized(PlaceNew(env, st, s, key, value, bit, exceptional))
  {
    hide ValidShape, ValidFilter;
    CountUpdate(st.ctrl, s, Full(env.keys.Fp(key)));
  }

  lemma PlaceRecords<K, V>(env: Env<K>, st: State<K, V>, st': State<K, V>, s: nat, key: K, bit: nat)
    requires SoundEnv(env) && ValidFilter(st.filter) && EntriesAdmitted(env, st)
             && bit == SlotBit(st.shape, s) <= LAST_BIT
    requires var fs := FilterSlotOf(env, st, key);
             && fs.index < |st.filter| && fs.bin < 4 && fs.bin < |st.filter[fs.index].bins|
             && st'.filter == Record(st.filter, fs, bit)
    requires st'.shape == st.shape && st'.at == st.at[key := s] && (st.exceptional ==> st'.exceptional)
    ensures ValidFilter(st'.filter) && EntriesAdmitted(env, st')
    ensures EntriesRecorded(env, st) ==> EntriesRecorded(env, st')
  {
    hide SlotBit;
    var fs := FilterSlotOf(env, st, key);
    RecordKeeps(st.filter, fs, bit, fs, bit);
    forall k | k in st'.at ensures Admitted(env, st', k) {
      if k != key {
        RecordKeeps(st.filter, fs, bit, FilterSlotOf(env, st, k), SlotBit(st.shape, st.at[k]));
      }
    }
  }

  lemma PlacePlaces<K, V>(env: Env<K>, st: State<K, V>, st': State<K, V>, s: nat, key: K)
    requires EntriesPlaced(env, st) && s < |st.ctrl| && IsFree(st.ctrl[s])
    requires exists i: nat, p: nat :: VacancyAt(st.ctrl, WalkOf(env, st, key), s, i, p)
    requires st'.ctrl == st.ctrl[s := Full(env.keys.Fp(key))] && st'.at == st.at[key := s]
    requires st'.shape == st.shape && st'.seed == st.seed
    ensures EntriesPlaced(env, st')
  {
    forall k | k in st'.at ensures Placed(st'.ctrl, WalkOf(env, st', k), st'.at[k]) {
      if k == key {
        var i: nat, p: nat :| VacancyAt(st.ctrl, WalkOf(env, st, key), s, i, p);
        VacancyIsPlaced(st.ctrl, WalkOf(env, st, key), s, i, p, Full(env.keys.Fp(key)));
      } else {
        PlacementSurvives(st.ctrl, st'.ctrl, WalkOf(env, st, k), st.at[k]);
      }
    }
  }

  /** The filter marks of some of the stored keys. */
  ghost function Marks<K, V>(env: Env<K>, st: State<K, V>, ks: set<K>): set<Mark>
  {
    set k | k in ks && k in st.at :: (FilterSlotOf(env, st, k), SlotBit(st.shape, st.at[k]))
  }

  /** The filter reflects the live keys and nothing of departed ones. */
  ghost predicate Tight<K, V>(env: Env<K>, st: State<K, V>)
  {
    Reflects(st.filter, Marks(env, st, st.at.Keys))
  }

  /** A tight filter carries every live key. */
  lemma TightRecords<K, V>(env: Env<K>, st: State<K, V>)
    requires Tight(env, st)
    ensures EntriesRecorded(env, st)
  {
    hide SlotBit, Recorded;
    forall k | k in st.at ensures Recorded(st.filter, FilterSlotOf(env, st, k), SlotBit(st.shape, st.at[k])) {
      assert k in st.at.Keys;
      assert (FilterSlotOf(env, st, k), SlotBit(st.shape, st.at[k])) in Marks(env, st, st.at.Keys);
    }
  }

  lemma PlaceKeepsTight<K, V>(env: Env<K>, st: State<K, V>, st': State<K, V>, s: nat, key: K, bit: nat)
    requires SoundEnv(env) && ValidFilter(st.filter) && Tight(env, st) && key !in st.at
    requires bit == SlotBit(st.shape, s) <= LAST_BIT
    requires var fs := FilterSlotOf(env, st, key);
             && fs.index < |st.filter| && fs.bin < 4 && fs.bin < |st.filter[fs.index].bins|
             && st'.filter == Record(st.filter, fs, bit)
    requires st'.shape == st.shape && st'.at == st.at[key := s]
    ensures Tight(env, st')
  {
    hide SlotBit, Reflects, SoundEnv;
    var fs := FilterSlotOf(env, st, key);
    RecordReflects(st.filter, Marks(env, st, st.at.Keys), fs, bit);
    var before, after := Marks(env, st, st.at.Keys), Marks(env, st', st'.at.Keys);
    forall m | m in before + {(fs, bit)} ensures m in after {
      if m in before {
        var k :| k in st.at && m == (FilterSlotOf(env, st, k), SlotBit(st.shape, st.at[k]));
        assert k in st'.at.Keys && FilterSlotOf(env, st', k) == FilterSlotOf(env, st, k);
      } else {
        assert key in st'.at.Keys && FilterSlotOf(env, st', key) == fs;
      }
    }
    forall m | m in after ensures m in before + {(fs, bit)} {
      var k :| k in st'.at && m == (FilterSlotOf(env, st', k), SlotBit(st'.shape, st'.at[k]));
      assert k != key ==> k in st.at.Keys;
    }
    assert after == before + {(fs, bit)};
  }

  // ---- Removing, replacing, clearing ----

  function Vacate<K, V>(st: State<K, V>, s: nat): State<K, V>
    requires s < |st.ctrl| && s < |st.data| && st.data[s].Entry? && st.len > 0
  {
    st.(ctrl := st.ctrl[s := Tombstone], len := st.len - 1, tombstones := st.tombstones + 1,
        at := st.at - {st.data[s].key})
  }

  /** Tombstoning a live slot keeps entries in place, whatever the filter has lost: the walk of every
      other key still meets no EMPTY. */
  lemma VacateKeepsIntact<K, V>(env: Env<K>, st: State<K, V>, s: nat)
    requires Intact(env, st) && s < |st.ctrl| && st.ctrl[s].Full?
    ensures s < |st.data| && st.data[s].Entry? && st.len > 0
    ensures Intact(env, Vacate(st, s)) && MapOf(env, Vacate(st, s)) == MapOf(env, st) - {st.data[s].key}
  {
    hide Placed, SlotBit, ValidShape, SoundSampler, SoundKeys, ValidFilter, Sized, EntriesPlaced;
    var key := st.data[s].key;
    VacateStored(st.ctrl, st.data, env.keys, st.at, s, Tombstone);
    VacateSized(st, s);
    if !st.exceptional {
      VacateWalks(env, st, Vacate(st, s), s);
    }
  }

  /** It keeps the invariant too: the filter goes on admitting every other key. */
  lemma VacateKeepsInv<K, V>(env: Env<K>, st: State<K, V>, s: nat)
    requires Inv(env, st) && s < |st.ctrl| && st.ctrl[s].Full?
    ensures s < |st.data| && st.data[s].Entry? && st.len > 0
    ensures var st' := Vacate(st, s);
            Inv(env, st') && MapOf(env, st') == MapOf(env, st) - {st.data[s].key}
  {
    hide Intact, SlotBit, Admits;
    VacateKeepsIntact(env, st, s);
  }

  lemma VacateKeepsRecords<K, V>(env: Env<K>, st: State<K, V>, s: nat)
    requires s < |st.ctrl| && s < |st.data| && st.data[s].Entry? && st.len > 0
    ensures EntriesRecorded(env, st) ==> EntriesRecorded(env, Vacate(st, s))
  {
    hide Recorded, SlotBit;
  }

  lemma VacateSized<K, V>(st: State<K, V>, s: nat)
    requires Sized(st) && s < |st.ctrl| && s < |st.data| && st.ctrl[s].Full? && st.data[s].Entry?
             && st.data[s].key in st.at
    requires |st.at - {st.data[s].key}| == |st.at| - 1
    ensures st.len > 0 && Sized(Vacate(st, s))
  {
    hide ValidShape, ValidFilter;
    CountUpdate(st.ctrl, s, Tombstone);
  }

  lemma VacateWalks<K, V>(env: Env<K>, st: State<K, V>, st': State<K, V>, s: nat)
    requires EntriesPlaced(env, st) && s < |st.ctrl| && s < |st.data| && st.data[s].Entry?
    requires st'.ctrl == st.ctrl[s := Tombstone] && st'.at == st.at - {st.data[s].key}
    requires st'.shape == st.shape && st'.seed == st.seed
    ensures EntriesPlaced(env, st')
  {
    hide Placed;
    forall k | k in st'.at ensures Placed(st'.ctrl, WalkOf(env, st', k), st'.at[k]) {
      PlacementSurvives(st.ctrl, st'.ctrl, WalkOf(env, st, k), st.at[k]);
    }
  }

  lemma ReplaceKeepsIntact<K, V>(env: Env<K>, st: State<K, V>, s: nat, value: V)
    requires Intact(env, st) && s < |st.ctrl| && st.ctrl[s].Full?
    ensures s < |st.data| && st.data[s].Entry? && st.data[s].key in MapOf(env, st)
            && MapOf(env, st)[st.data[s].key] == st.data[s].value
    ensures var st' := st.(data := st.data[s := Entry(st.data[s].key, value)]);
            Intact(env, st') && MapOf(env, st') == MapOf(env, st)[st.data[s].key := value]
  {
    hide Placed, ValidShape, SoundSampler, SoundKeys, ValidFilter;
    ReplaceStored(st.ctrl, st.data, env.keys, st.at, s, value);
    var st' := st.(data := st.data[s := Entry(st.data[s].key, value)]);
    assert forall k :: WalkOf(env, st', k) == WalkOf(env, st, k);
  }

  lemma ReplaceKeepsInv<K, V>(env: Env<K>, st: State<K, V>, s: nat, value: V)
    requires Inv(env, st) && s < |st.ctrl| && st.ctrl[s].Full?
    ensures s < |st.data| && st.data[s].Entry?
    ensures var st' := st.(data := st.data[s := Entry(st.data[s].key, value)]);
            Inv(env, st') && MapOf(env, st') == MapOf(env, st)[st.data[s].key := value]
  {
    hide Intact, SlotBit, Admits, MapOf;
    ReplaceKeepsIntact(env, st, s, value);
    var st' := st.(data := st.data[s := Entry(st.data[s].key, value)]);
    assert forall k :: FilterSlotOf(env, st', k) == FilterSlotOf(env, st, k);
  }

  lemma ReplaceKeepsRecords<K, V>(env: Env<K>, st: State<K, V>, s: nat, value: V)
    requires s < |st.data| && st.data[s].Entry?
    ensures EntriesRecorded(env, st) ==>
              EntriesRecorded(env, st.(data := st.data[s := Entry(st.data[s].key, value)]))
  {
    hide Recorded, SlotBit;
  }

  // ---- Refreshing the filter ----

  /** A refresh of `before` that came as far as slot `stop`: only the filter differs, and it reflects
      exactly the keys before that slot. */
  ghost predicate RefreshedUpTo<K, V>(env: Env<K>, before: State<K, V>, after: State<K, V>, stop: nat)
  {
    && after == before.(filter := after.filter) && |after.filter| == |before.filter| && ValidFilter(after.filter)
    && Reflects(after.filter, Marks(env, before, Moved(before.at, stop)))
  }

  /** Before the refresh: what the keys ahead of slot `stop` record already admits this key. Each of its
      filter bits is one that some such key sets in the same word, and, unless lookups end in a full
      scan anyway, some such key shares its word, its bin and its level bit. */
  ghost predicate CoveredBy<K, V>(env: Env<K>, st: State<K, V>, stop: nat, key: K)
    requires key in st.at
  {
    var fs, marks := FilterSlotOf(env, st, key), Marks(env, st, Moved(st.at, stop));
    && (forall x :: x in fs.bits ==> SomeMarkSets(marks, fs.index, x))
    && (st.exceptional || SomeMarkBins(marks, fs.index, fs.bin, SlotBit(st.shape, st.at[key])))
  }

  /** Every live key the refresh has not come to is covered by those it has. */
  ghost predicate Covered<K, V>(env: Env<K>, st: State<K, V>, stop: nat)
  {
    forall k :: k in st.at && st.at[k] >= stop ==> CoveredBy(env, st, stop, k)
  }

  /** A refresh that has not come to any key covers none that lookups need a level bit or a filter bit for. */
  lemma NothingCovered<K, V>(env: Env<K>, st: State<K, V>, stop: nat, key: K)
    requires key in st.at && Moved(st.at, stop) == {}
    ensures CoveredBy(env, st, stop, key) <==> st.exceptional && FilterSlotOf(env, st, key).bits == {}
  {
    hide SlotBit;
    var fs, marks := FilterSlotOf(env, st, key), Marks(env, st, Moved(st.at, stop));
    assert marks == {};
    forall x ensures !SomeMarkSets(marks, fs.index, x) {
    }
  }

  /** Right after the refresh reached `stop`, a key is admitted exactly when it was covered before. */
  lemma AdmittedIffCovered<K, V>(env: Env<K>, before: State<K, V>, after: State<K, V>, stop: nat, key: K)
    requires Intact(env, before) && key in before.at && RefreshedUpTo(env, before, after, stop)
    ensures Admitted(env, after, key) <==> CoveredBy(env, before, stop, key)
    ensures before.at[key] < stop ==> Admitted(env, after, key)
  {
    hide SlotBit, Admits, Reflects, SomeMarkSets, SomeMarkBins, EntriesPlaced, ValidShape, Marks;
    assert before.shape.n > 0;
    FilterReady(env, before, key);
    assert FilterSlotOf(env, after, key) == FilterSlotOf(env, before, key);
    AdmittedByMarks(after.filter, Marks(env, before, Moved(before.at, stop)), FilterSlotOf(env, before, key),
                    SlotBit(before.shape, before.at[key]), before.exceptional);
    if before.at[key] < stop {
      RecordedBefore(env, before, after, stop, key);
    }
  }

  lemma RecordedBefore<K, V>(env: Env<K>, before: State<K, V>, after: State<K, V>, stop: nat, key: K)
    requires RefreshedUpTo(env, before, after, stop) && key in before.at && before.at[key] < stop
    ensures Admitted(env, after, key)
  {
    hide SlotBit;
    assert key in Moved(before.at, stop);
    assert (FilterSlotOf(env, before, key), SlotBit(before.shape, before.at[key])) in Marks(env, before,
        Moved(before.at, stop));
  }

  /** Wherever a refresh stops, entries and walks are untouched, and the invariant holds again if and
      only if the keys it did not come to were covered before it began. */
  lemma RefreshMeaning<K, V>(env: Env<K>, before: State<K, V>, after: State<K, V>, stop: nat)
    requires Intact(env, before) && RefreshedUpTo(env, before, after, stop)
    ensures Intact(env, after) && MapOf(env, after) == MapOf(env, before)
    ensures Inv(env, after) <==> Covered(env, before, stop)
  {
    hide Placed, SlotBit, ValidShape, Admitted, SoundSampler, SoundKeys, ValidFilter, Reflects, CoveredBy;
    assert forall k :: WalkOf(env, after, k) == WalkOf(env, before, k);
    forall k | k in before.at
      ensures Admitted(env, after, k) <==> CoveredBy(env, before, stop, k)
      ensures before.at[k] < stop ==> Admitted(env, after, k)
    {
      AdmittedIffCovered(env, before, after, stop, k);
    }
  }

  /** A refresh that came past every live key leaves a filter of exactly the live keys. */
  lemma RefreshComplete<K, V>(env: Env<K>, before: State<K, V>, after: State<K, V>, stop: nat)
    requires RefreshedUpTo(env, before, after, stop) && Moved(before.at, stop) == before.at.Keys
    ensures Tight(env, after)
  {
    hide Reflects, SlotBit;
    assert Marks(env, after, after.at.Keys) == Marks(env, before, before.at.Keys);
  }

  // ---- Rebuilding ----

  /** A generation without entries: every control EMPTY, a clear filter, zero counters. */
  function Fresh<K, V>(shape: FunnelShape, seed: Word): State<K, V>
  {
    State(shape, seq(if shape.n == 0 then 0 else shape.n + GROUP - 1, _ => Empty), seq(shape.n, _ => Uninit),
          seq(WordCount(shape.n), _ => CLEAR_WORD), 0, 0, false, seed, map[])
  }

  /** Slot `s` holds a live entry. */
  predicate LiveSlot<K, V>(st: State<K, V>, s: nat)
  {
    s < |st.ctrl| && s < |st.data| && st.ctrl[s].Full? && st.data[s].Entry?
  }

  /** The first free slot of the key's walk, or of the table if its walk has none. */
  ghost function Seat<K, V>(env: Env<K>, st: State<K, V>, key: K): nat
  {
    if exists s: nat :: FirstFreeOnWalk(env, st, key, s) then
      var s: nat :| FirstFreeOnWalk(env, st, key, s);
      s
    else LeastFree(st.ctrl, 0)
  }

  /** An absent key's entry placed at its seat. */
  ghost function Seated<K, V>(env: Env<K>, st: State<K, V>, key: K, value: V): State<K, V>
  {
    var s, fs := Seat(env, st, key), FilterSlotOf(env, st, key);
    if s < |st.ctrl| && s < |st.data| && fs.index < |st.filter| && fs.bin < |st.filter[fs.index].bins|
       && (st.ctrl[s] == Tombstone ==> st.tombstones > 0) then
      PlaceNew(env, st, s, key, value, SlotBit(st.shape, s), NoneFreeOnWalk(env, st, key))
    else st
  }

  /** What a rebuild has built once it has passed the first `passed` slots of the previous generation: the
      entries of the live ones, seated one by one in a generation that starts empty. */
  ghost function Built<K, V>(env: Env<K>, previous: State<K, V>, shape: FunnelShape, seed: Word,
                             passed: nat): State<K, V>
  {
    if passed == 0 then Fresh(shape, seed)
    else
      var st := Built(env, previous, shape, seed, passed - 1);
      if LiveSlot(previous, passed - 1) then
        Seated(env, st, previous.data[passed - 1].key, previous.data[passed - 1].value)
      else st
  }

  /** The entry of every live slot before `passed` settled in what was built when it was met. */
  ghost predicate AllSettled<K, V>(env: Env<K>, previous: State<K, V>, shape: FunnelShape, seed: Word, passed: nat)
  {
    forall s: nat :: s < passed && LiveSlot(previous, s) ==>
                       Settled(env, Built(env, previous, shape, seed, s), Built(env, previous, shape, seed, s + 1),
                               previous.data[s].key, previous.data[s].value)
  }

  /** `after` is what a rebuild of `previous` builds under a shape and a seed. */
  ghost predicate Rebuilt<K, V>(env: Env<K>, previous: State<K, V>, shape: FunnelShape, seed: Word,
                                after: State<K, V>)
  {
    AllSettled(env, previous, shape, seed, |previous.ctrl|)
    && after == Built(env, previous, shape, seed, |previous.ctrl|)
  }

  /** The entry of slot `s` met a generation in which its walk has no free slot. */
  ghost predicate Strays<K, V>(env: Env<K>, previous: State<K, V>, shape: FunnelShape, seed: Word, s: nat)
  {
    LiveSlot(previous, s)
    && NoneFreeOnWalk(env, Built(env, previous, shape, seed, s), previous.data[s].key)
  }

  /** A rebuild leaves an ordinary epoch unless some entry met a generation whose walk for it had no free
      slot, and then it does not. */
  lemma {:induction false} ExceptionalIffStray<K, V>(env: Env<K>, previous: State<K, V>, shape: FunnelShape,
                                                     seed: Word, passed: nat)
    requires AllSettled(env, previous, shape, seed, passed)
    ensures var st := Built(env, previous, shape, seed, passed);
            && st.shape == shape && st.seed == seed
            && (st.exceptional <==> exists s: nat :: s < passed && Strays(env, previous, shape, seed, s))
    decreases passed
  {
    hide Put, NoneFreeOnWalk, FirstFreeOnWalk, Seated, Settled;
    if passed > 0 {
      var s := passed - 1;
      ExceptionalIffStray(env, previous, shape, seed, s);
      if LiveSlot(previous, s) {
        SettledKeeps(env, Built(env, previous, shape, seed, s), Built(env, previous, shape, seed, passed),
                     previous.data[s].key, previous.data[s].value);
      }
      assert Built(env, previous, shape, seed, passed).exceptional <==>
             Built(env, previous, shape, seed, s).exceptional || Strays(env, previous, shape, seed, s);
    }
  }

  lemma SettledKeeps<K, V>(env: Env<K>, before: State<K, V>, after: State<K, V>, key: K, value: V)
    requires Settled(env, before, after, key, value)
    ensures after.shape == before.shape && after.seed == before.seed && key in after.at
            && after.at == before.at[key := after.at[key]]
    ensures after.exceptional <==> before.exceptional || NoneFreeOnWalk(env, before, key)
  {
    hide SlotBit, Record, VacancyAt, NoneFreeOnWalk, FirstFreeOnWalk;
  }

  /** Where a rebuild put the entry of a live slot, it stays: at the first free slot of its walk in what was
      built when it was met, unless its walk had none. */
  lemma {:induction false} SeatKept<K, V>(env: Env<K>, previous: State<K, V>, shape: FunnelShape, seed: Word,
                                          passed: nat, s: nat)
    requires AllSettled(env, previous, shape, seed, passed) && s < passed && LiveSlot(previous, s)
    requires forall x: nat, y: nat :: x < y && LiveSlot(previous, x) && LiveSlot(previous, y) ==>
                                        previous.data[x].key != previous.data[y].key
    ensures var key, at := previous.data[s].key, Built(env, previous, shape, seed, passed).at;
            && key in at
            && (Strays(env, previous, shape, seed, s)
                || FirstFreeOnWalk(env, Built(env, previous, shape, seed, s), key, at[key]))
    decreases passed
  {
    hide Put, NoneFreeOnWalk, FirstFreeOnWalk, Seated;
    var last := passed - 1;
    if s < last {
      SeatKept(env, previous, shape, seed, last, s);
    }
    if LiveSlot(previous, last) {
      SettledKeeps(env, Built(env, previous, shape, seed, last), Built(env, previous, shape, seed, passed),
                   previous.data[last].key, previous.data[last].value);
    }
  }

  /** Settling leads to the seat. */
  lemma SettledIs<K, V>(env: Env<K>, before: State<K, V>, after: State<K, V>, key: K, value: V)
    requires Settled(env, before, after, key, value)
    ensures after == Seated(env, before, key, value)
  {
    hide SlotBit, Record, Leg;
    var slot := after.at[key];
    if NoneFreeOnWalk(env, before, key) {
      LeastFreeIs(before.ctrl, 0, slot);
    } else {
      var i: nat, p: nat :| VacancyAt(before.ctrl, WalkOf(env, before, key), slot, i, p);
      forall s: nat | FirstFreeOnWalk(env, before, key, s) ensures s == slot {
        var i': nat, p': nat :| VacancyAt(before.ctrl, WalkOf(env, before, key), s, i', p');
        VacancyUnique(before.ctrl, WalkOf(env, before, key), slot, i, p, s, i', p');
      }
    }
  }

  /** Slots without a live entry are passed without effect. */
  lemma {:induction false} PassDead<K, V>(env: Env<K>, previous: State<K, V>, shape: FunnelShape, seed: Word,
                                          passed: nat, next: nat)
    requires AllSettled(env, previous, shape, seed, passed) && passed <= next
    requires forall s: nat :: passed <= s < next ==> !LiveSlot(previous, s)
    ensures AllSettled(env, previous, shape, seed, next)
    ensures Built(env, previous, shape, seed, next) == Built(env, previous, shape, seed, passed)
    decreases next - passed
  {
    hide Settled, Seated;
    if passed < next {
      PassDead(env, previous, shape, seed, passed, next - 1);
    }
  }

  /** A live slot's entry settles in what was built before it. */
  lemma PassLive<K, V>(env: Env<K>, previous: State<K, V>, shape: FunnelShape, seed: Word, passed: nat,
                       after: State<K, V>)
    requires AllSettled(env, previous, shape, seed, passed) && LiveSlot(previous, passed)
    requires Settled(env, Built(env, previous, shape, seed, passed), after, previous.data[passed].key,
                     previous.data[passed].value)
    ensures AllSettled(env, previous, shape, seed, passed + 1)
    ensures Built(env, previous, shape, seed, passed + 1) == after
  {
    hide Settled, Seated;
    SettledIs(env, Built(env, previous, shape, seed, passed), after, previous.data[passed].key,
              previous.data[passed].value);
  }

  /** Marks of one more stored key. */
  lemma MarksGrow<K, V>(env: Env<K>, st: State<K, V>, ks: set<K>, key: K)
    requires key in st.at
    ensures Marks(env, st, ks + {key}) == Marks(env, st, ks)
            + {(FilterSlotOf(env, st, key), SlotBit(st.shape, st.at[key]))}
  {
    var before, after, mark := Marks(env, st, ks), Marks(env, st, ks + {key}),
        (FilterSlotOf(env, st, key), SlotBit(st.shape, st.at[key]));
    assert key in ks + {key};
    forall m | m in before ensures m in after {
      var k :| k in ks && k in st.at && m == (FilterSlotOf(env, st, k), SlotBit(st.shape, st.at[k]));
      assert k in ks + {key};
    }
    forall m | m in after ensures m in before + {mark} {
      var k :| k in ks + {key} && k in st.at && m == (FilterSlotOf(env, st, k), SlotBit(st.shape, st.at[k]));
      assert k != key ==> k in ks;
    }
    assert after == before + {mark};
  }

  /** A generation with all-EMPTY controls and a clear filter is a valid empty table. */
  lemma FreshInv<K, V>(env: Env<K>, st: State<K, V>)
    requires SoundEnv(env) && ValidShape(st.shape) && |st.data| == st.shape.n
    requires |st.ctrl| == (if st.shape.n == 0 then 0 else st.shape.n + GROUP - 1)
    requires |st.filter| == WordCount(st.shape.n) && ValidFilter(st.filter)
    requires forall i :: 0 <= i < |st.ctrl| ==> st.ctrl[i] == Empty
    requires st.len == 0 && st.tombstones == 0 && st.at == map[]
    ensures Inv(env, st) && MapOf(env, st) == map[]
    ensures Reflects(st.filter, {}) ==> Tight(env, st)
  {
    CountExtremes(st.ctrl);
    assert Marks(env, st, {}) == {};
  }

  /** With room under the insertion limit some slot is free. */
  lemma RoomMeansFree<K, V>(env: Env<K>, st: State<K, V>)
    requires Intact(env, st) && st.len < st.shape.n
    ensures exists s: nat :: s < st.shape.n && IsFree(st.ctrl[s])
  {
    LivesAreKeys(st.ctrl, st.data, env.keys, st.at);
    FreeBelow(st.ctrl, st.shape.n);
  }

  // ---- Why lookups agree with a full scan ----

  /** The filter rejects a key only if it is absent. */
  lemma RejectedIsAbsent<K, V>(env: Env<K>, st: State<K, V>, key: K)
    requires Inv(env, st)
    requires var fs := FilterSlotOf(env, st, key);
             fs.index < |st.filter| ==> !(fs.bits <= st.filter[fs.index].membership)
    ensures key !in st.at
  {
  }

  /** Some slot of the walk, on a leg whose bit `levels` has, holds the key with no EMPTY before it. */
  ghost predicate MeetsKey<K, V>(ctrl: seq<Control>, data: seq<Slot<K, V>>, w: Walk, key: K, fp: bv8, levels: set<nat>)
  {
    exists s: nat, i: nat, p: nat :: MeetsKeyAt(ctrl, data, w, key, fp, levels, s, i, p)
  }

  ghost predicate MeetsKeyAt<K, V>(ctrl: seq<Control>, data: seq<Slot<K, V>>, w: Walk, key: K, fp: bv8,
                                   levels: set<nat>, s: nat, i: nat, p: nat)
  {
    && PlacedAt(ctrl, w, s, i, p) && LegBit(w.shape, i) in levels
    && s < |ctrl| && s < |data| && ctrl[s] == Full(fp) && Holds(data[s], key)
  }

  /** In an ordinary epoch a present key is met on its own walk exactly when the levels searched
      include its own. */
  lemma PresentIsMet<K, V>(env: Env<K>, st: State<K, V>, key: K, levels: set<nat>)
    requires Intact(env, st) && !st.exceptional && key in st.at && st.shape.n > 0
    ensures MeetsKey(st.ctrl, st.data, WalkOf(env, st, key), key, env.keys.Fp(key), levels) <==>
            SlotBit(st.shape, st.at[key]) in levels
  {
    hide SlotBit, Leg;
    var w, fp := WalkOf(env, st, key), env.keys.Fp(key);
    if SlotBit(st.shape, st.at[key]) in levels {
      var s := st.at[key];
      var i: nat, p: nat :| PlacedAt(st.ctrl, w, s, i, p);
      LegSlots(w, i, p);
      assert MeetsKeyAt(st.ctrl, st.data, w, key, fp, levels, s, i, p);
    }
    if MeetsKey(st.ctrl, st.data, w, key, fp, levels) {
      var s: nat, i: nat, p: nat :| MeetsKeyAt(st.ctrl, st.data, w, key, fp, levels, s, i, p);
      LegSlots(w, i, p);
    }
  }

  /** A met key is the present key. */
  lemma MetIsPresent<K, V>(env: Env<K>, st: State<K, V>, key: K, s: nat)
    requires Intact(env, st) && s < |st.data| && s < |st.ctrl|
    requires st.ctrl[s] == Full(env.keys.Fp(key)) && Holds(st.data[s], key)
    ensures key in st.at && st.at[key] == s
  {
  }

  /** What `find` returns on a table that may have lost part of its filter: the key's slot if the key
      is stored and admitted. */
  ghost function Answer<K, V>(env: Env<K>, st: State<K, V>, key: K): Option<nat>
  {
    if key in st.at && Admitted(env, st, key) then Some(st.at[key]) else None
  }

  /** Every lookup returns what a full scan would. */
  ghost predicate LookupsAgree<K, V>(env: Env<K>, st: State<K, V>)
    requires |st.data| <= |st.ctrl|
  {
    forall k :: k in st.at ==> Answer(env, st, k) == FullScan(st.ctrl, st.data, k, env.keys.Fp(k), 0)
  }

  /** The invariant is exactly what lookups need: on a table whose entries are in place, it holds if and
      only if every lookup agrees with a full scan. Keys that are not stored are never found. */
  lemma InvIffLookupsAgree<K, V>(env: Env<K>, st: State<K, V>)
    requires Intact(env, st)
    ensures Inv(env, st) <==> LookupsAgree(env, st)
    ensures forall k: K :: k !in st.at ==>
                             Answer(env, st, k) == FullScan(st.ctrl, st.data, k, env.keys.Fp(k), 0) == None
  {
    hide Placed, SlotBit, ValidShape, Admitted, ValidFilter;
    forall k: K
      ensures FullScan(st.ctrl, st.data, k, env.keys.Fp(k), 0) == if k in st.at then Some(st.at[k]) else None
    {
      FullScanFinds(st.ctrl, st.data, env.keys, st.at, k, 0);
    }
  }

  /** What a gated, level-masked, EMPTY-stopping walk finds, on a table whose filter may be incomplete:
      in an ordinary epoch it meets a key exactly when the key is stored and its level searched. */
  lemma LookupAgrees<K, V>(env: Env<K>, st: State<K, V>, key: K, levels: set<nat>, found: Option<nat>)
    requires Intact(env, st) && st.shape.n > 0
    requires found.Some? ==> found.value < |st.data| && found.value < |st.ctrl|
                             && st.ctrl[found.value] == Full(env.keys.Fp(key)) && Holds(st.data[found.value], key)
                             && SlotBit(st.shape, found.value) in levels
    requires found.None? ==> !MeetsKey(st.ctrl, st.data, WalkOf(env, st, key), key, env.keys.Fp(key), levels)
    ensures found.Some? ==> found == FullScan(st.ctrl, st.data, key, env.keys.Fp(key), 0)
    ensures !st.exceptional && key in st.at ==> (found.Some? <==> SlotBit(st.shape, st.at[key]) in levels)
    ensures key !in st.at ==> found.None?
  {
    hide SlotBit, MeetsKey, EntriesPlaced;
    FullScanFinds(st.ctrl, st.data, env.keys, st.at, key, 0);
    if found.Some? {
      MetIsPresent(env, st, key, found.value);
    }
    if !st.exceptional && key in st.at {
      PresentIsMet(env, st, key, levels);
    }
  }
}
