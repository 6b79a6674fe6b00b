/** The Funnel hash table as an object: control bytes, slots and filter words updated in place,
    refining a plain map through insertion, removal, clearing, filter refresh, cleanup, growth and
    reseeding rebuilds. */
module FunnelTable {
  import opened Arith
  import opened Controls
  import opened Wrappers
  import opened Store
  import opened Membership
  import opened Capacity
  import opened FunnelPlan
  import opened FunnelWalk
  import opened FunnelState
  import opened FunnelSearch
  import opened Cursor

  const PROBE_SEED := Word(0x4D5A_2DA5_1DE1_AA47)
  const RESEED_STEP: bv64 := 0x2D35_8DCC_AA6C_78A5

  function Reseeded(seed: Word): Word
  {
    Word(seed.bits + RESEED_STEP)
  }

  /** What an entry's failed search kept: nothing, an exhausted walk, or the walk's vacancy. */
  datatype Searched = Unsearched | Exhausted | At(slot: nat)

  datatype FunnelVacant = FunnelVacant(hash: Word, exact: Searched)

  datatype BuildError = ExponentBelowMinimum | CapacityOverflow

  const ISIZE_MAX: nat := 0x7FFF_FFFF_FFFF_FFFF

  /** The insertion budget a growth asks for. */
  function GrowthRequest(maxInsertions: nat, needed: nat): nat
  {
    Larger(needed, SaturatingAdd(maxInsertions, maxInsertions))
  }

  /** Some slot count holds twice the budget and the entries needed. */
  ghost predicate Growable(d: nat, budget: nat, needed: nat)
  {
    needed < ISIZE_MAX && exists m: nat :: m < USIZE_LIMIT && Sufficient(m, d, GrowthRequest(budget, needed))
  }

  /** `n` is the least slot count that holds `request` entries. */
  ghost predicate LeastFor(n: nat, d: nat, request: nat)
  {
    Sufficient(n, d, request) && forall m: nat :: m < USIZE_LIMIT && Sufficient(m, d, request) ==> n <= m
  }

  /** No table below this one holds `request` entries. */
  ghost predicate NothingSmaller(n: nat, d: nat, request: nat)
  {
    forall m: nat :: m < n && m < USIZE_LIMIT ==> !Sufficient(m, d, request)
  }

  lemma SlotsRepresentable(shape: FunnelShape, d: nat)
    requires LaidOut(shape.n, d, shape)
    ensures shape.n < USIZE_LIMIT
  {
  }

  lemma LaidOutPlannable(shape: FunnelShape, d: nat)
    requires LaidOut(shape.n, d, shape)
    ensures shape.n == 0 || Plannable(shape.n, d)
    ensures shape.maxInsertions == MaxInsertions(shape.n, d) && shape.n < USIZE_LIMIT
  {
    hide FollowsPlan, MaxInsertions, Plannable;
    if shape.n > 0 {
      var plan :| IsPlan(shape.n, d, plan);
      assert CompatibleSpecial(shape.n, d, plan.special);
      PlannableIs(shape.n, d);
    } else {
      NoSlotsNoInsertions(d);
    }
  }

  lemma NoSlotsNoInsertions(d: nat)
    ensures MaxInsertions(0, d) == 0
  {
  }

  lemma EmptySuffices(d: nat)
    ensures Sufficient(0, d, 0)
  {
  }

  lemma SufficientForLess(n: nat, d: nat, more: nat, less: nat)
    requires Sufficient(n, d, more) && less <= more
    ensures Sufficient(n, d, less)
  {
  }

  class Table<K(==), V> {
    const env: Env<K>
    const d: nat
    var shape: FunnelShape
    var ctrl: array<Control>
    var data: array<Slot<K, V>>
    var filter: array<MetadataWord>
    var len: nat
    var tombstones: nat
    var exceptional: bool
    var seed: Word
    var stale: nat
    ghost var at: map<K, nat>

    ghost function Repr(): set<object>
      reads this
    {
      {this, ctrl, data, filter}
    }

    ghost function Snap(): State<K, V>
      reads this, ctrl, data, filter
    {
      State(shape, ctrl[..], data[..], filter[..], len, tombstones, exceptional, seed, at)
    }

    ghost predicate Valid()
      reads this, ctrl, data, filter
    {
      d < U32_LIMIT && LaidOut(shape.n, d, shape) && Inv(env, Snap())
    }

    /** Valid but for the filter, which may have lost keys. */
    ghost predicate Sound()
      reads this, ctrl, data, filter
    {
      d < U32_LIMIT && LaidOut(shape.n, d, shape) && Intact(env, Snap())
    }

    /** The map the table stands for. */
    ghost function M(): map<K, V>
      reads this, ctrl, data, filter
    {
      MapOf(env, Snap())
    }

    /** The filter reflects exactly the live keys. */
    ghost predicate TightFilter()
      reads this, ctrl, data, filter
    {
      Tight(env, Snap())
    }

    /** The filter carries every live key, as it does unless a refresh was cut short. */
    ghost predicate Recording()
      reads this, ctrl, data, filter
    {
      EntriesRecorded(env, Snap())
    }

    lemma RecordingIs(st: State<K, V>)
      requires Snap() == st
      ensures Recording() <==> EntriesRecorded(env, st)
    {
      hide EntriesRecorded;
    }

    /** A table with its entries in place and recorded is valid. */
    lemma RecordingIsValid()
      requires Sound() && Recording()
      ensures Valid()
    {
      hide LaidOut, Intact;
      RecordedIsEnough(env, Snap());
    }

    lemma TightIsRecording()
      requires TightFilter()
      ensures Recording()
    {
      TightRecords(env, Snap());
    }

    /** The fields amount to a state, and the state decides soundness, validity and the map. */
    lemma Represents(st: State<K, V>, m: map<K, V>)
      requires Snap() == st && d < U32_LIMIT && LaidOut(st.shape.n, d, st.shape)
      requires (Inv(env, st) || Intact(env, st)) && m == MapOf(env, st)
      ensures Sound() && M() == m && (Valid() <==> Inv(env, st))
    {
      hide LaidOut, Intact, EntriesAdmitted;
    }

    // ---- Construction ----

    /** Storage of an empty table: every control EMPTY, padding included, and a clear filter. */
    static method AllocateStorage(shape: FunnelShape)
        returns (newCtrl: array<Control>, newData: array<Slot<K, V>>, newFilter: array<MetadataWord>)
      ensures fresh(newCtrl) && fresh(newData) && fresh(newFilter) && newData.Length == shape.n
      ensures newCtrl.Length == (if shape.n == 0 then 0 else shape.n + GROUP - 1)
      ensures newFilter.Length == WordCount(shape.n) && forall i :: 0 <= i < newFilter.Length ==>
              newFilter[i] == CLEAR_WORD
      ensures forall i :: 0 <= i < newCtrl.Length ==> newCtrl[i] == Empty
      ensures forall i :: 0 <= i < newData.Length ==> newData[i] == Uninit
    {
      hide WordCount;
      newCtrl := new Control[if shape.n == 0 then 0 else shape.n + GROUP - 1](_ => Empty);
      newData := new Slot<K, V>[shape.n](_ => Uninit);
      newFilter := new MetadataWord[WordCount(shape.n)](_ => CLEAR_WORD);
    }

    constructor FromShape(env: Env<K>, d: nat, shape: FunnelShape)
      requires SoundEnv(env) && d < U32_LIMIT && LaidOut(shape.n, d, shape)
      ensures Valid() && M() == map[] && TightFilter() && Recording() && fresh(Repr())
      ensures this.env == env && this.d == d && this.shape == shape && seed == PROBE_SEED && tombstones == 0
              && stale == 0 && !exceptional
    {
      hide ValidShape, WordCount, LaidOut, SoundEnv, Inv, Intact, Valid, Sound, TightFilter, M, Recording;
      this.env, this.d, this.shape := env, d, shape;
      var newCtrl, newData, newFilter := AllocateStorage(shape);
      ctrl, data, filter := newCtrl, newData, newFilter;
      len, tombstones, exceptional, seed, stale, at := 0, 0, false, PROBE_SEED, 0, map[];
      new;
      Started();
      TightIsRecording();
    }

    // ---- Filter ----

    method MembershipSlot(hash: Word) returns (fs: FilterSlot)
      ensures fs == env.filterSlot(hash, filter.Length)
    {
      fs := env.filterSlot(hash, filter.Length);
    }

    /** The filter has every bit of the key. An empty table's filter has none. */
    ghost predicate Passes(key: K)
      reads this, filter
    {
      var fs := env.filterSlot(env.keys.hash(key), filter.Length);
      fs.index < filter.Length && fs.bits <= filter[fs.index].membership
    }

    /** Loads the key's filter word: whether it admits the key, and the levels its bin records. An
        empty table's gate never passes. */
    method Gate(key: K, fs: FilterSlot) returns (passes: bool, levels: set<nat>)
      requires Sound() && fs == env.filterSlot(env.keys.hash(key), filter.Length)
      ensures passes <==> Passes(key)
      ensures passes ==> shape.n > 0
      ensures key in at ==> (Admitted(env, Snap(), key) <==> passes
                                                             && (exceptional || SlotBit(shape, at[key]) in levels))
      ensures Valid() ==> (!passes ==> key !in at)
                          && (passes && key in at && !exceptional ==> SlotBit(shape, at[key]) in levels)
      ensures Recording() && key in at ==> passes && SlotBit(shape, at[key]) in levels
    {
      hide LaidOut, SlotBit, Stored, EntriesPlaced, SoundEnv, ValidShape;
      if filter.Length == 0 {
        return false, {};
      }
      NoWordsNoSlots();
      FilterReady(env, Snap(), key);
      var word := filter[fs.index];
      passes := fs.bits <= word.membership;
      levels := word.bins[fs.bin];
      assert Snap().filter[fs.index] == word;
      assert Valid() && key in at ==> Admitted(env, Snap(), key);
    }

    lemma NoWordsNoSlots()
      requires Valid() || Sound()
      ensures filter.Length > 0 ==> shape.n > 0
    {
      hide LaidOut, Stored, EntriesPlaced, SoundEnv;
    }

    // ---- Lookup ----

    lemma ReadyToSearch()
      requires Sound() && shape.n > 0
      ensures forall key: K :: Readable(ctrl[..], data[..], WalkOf(env, Snap(), key))
      ensures forall h: Word :: ProperFingerprint(env.keys.fingerprint(h))
    {
      hide LaidOut, Stored, EntriesPlaced, EntriesAdmitted;
      ControlsProper(env, Snap());
    }

    /** Only epochs that placed a key outside its funnel reach this scan. */
    method FindByFullScan(key: K, fp: bv8) returns (r: Option<nat>)
      requires data.Length <= ctrl.Length
      ensures r == FullScan(ctrl[..], data[..], key, fp, 0)
    {
      var slot := 0;
      while slot < data.Length
        invariant slot <= data.Length
        invariant FullScan(ctrl[..], data[..], key, fp, 0) == FullScan(ctrl[..], data[..], key, fp, slot)
      {
        if ctrl[slot] == Controls.Full(fp) && Holds(data[slot], key) {
          return Some(slot);
        }
        slot := slot + 1;
      }
      return None;
    }

    /** `find`: the gated, level-masked, EMPTY-stopping lookup, with the full scan behind it in an
        exceptional epoch. On a valid table it returns a slot exactly when a full scan would, namely the
        key's; on one whose filter has lost keys it misses exactly the stored keys not admitted. */
    method Find(key: K) returns (r: Option<nat>)
      requires Valid() || Sound()
      ensures r == Answer(env, Snap(), key)
      ensures r.Some? ==> key in M() && r.value < data.Length && r.value < ctrl.Length && ctrl[r.value].Full?
                          && data[r.value] == Entry(key, M()[key])
      ensures Valid() ==> r == FullScan(ctrl[..], data[..], key, env.keys.Fp(key), 0) && (r.Some? <==> key in M())
    {
      hide LaidOut, SlotBit, MeetsKey, EntriesPlaced, EntriesAdmitted, Admitted, ValidShape, ValidFilter;
      var hash := env.keys.hash(key);
      var fp := env.keys.fingerprint(hash);
      var fs := MembershipSlot(hash);
      var passes, levels := Gate(key, fs);
      FullScanFinds(ctrl[..], data[..], env.keys, at, key, 0);
      StoredHere(key);
      if !passes {
        return None;
      }
      ReadyToSearch();
      var w := Walk(shape, env.sample, seed, hash);
      assert w == WalkOf(env, Snap(), key);
      r := LookupRecordedLevels(ctrl, data, w, key, fp, levels);
      LookupAgrees(env, Snap(), key, levels, r);
      if r.None? && exceptional {
        r := FindByFullScan(key, fp);
      }
    }

    /** A stored key's slot holds its entry, and on a valid table the key is admitted. */
    lemma StoredHere(key: K)
      requires Valid() || Sound()
      ensures key in at <==> key in M()
      ensures key in at ==> at[key] < data.Length && at[key] < ctrl.Length && ctrl[at[key]].Full?
                            && data[at[key]] == Entry(key, M()[key])
      ensures Valid() && key in at ==> Admitted(env, Snap(), key)
      ensures data.Length <= ctrl.Length && Snap().ctrl == ctrl[..] && Snap().data == data[..]
    {
      hide LaidOut, SlotBit, EntriesPlaced, Admitted, ValidShape, SoundEnv;
    }

    // ---- Placement ----

    /** The field updates of a placement. */
    method WriteEntry(slot: nat, key: K, value: V, fs: FilterSlot, fp: bv8, bit: nat, outside: bool)
      requires slot < ctrl.Length && slot < data.Length && fs.index < filter.Length && fs.bin < |filter[fs.index].bins|
      requires ctrl[slot] == Tombstone ==> tombstones > 0
      requires fs == FilterSlotOf(env, Snap(), key) && fp == env.keys.Fp(key)
      modifies this, ctrl, data, filter
      ensures ctrl == old(ctrl) && data == old(data) && filter == old(filter) && stale == old(stale)
      ensures Snap() == PlaceNew(env, old(Snap()), slot, key, value, bit, outside)
    {
      hide Record;
      var wasTombstone := ctrl[slot] == Tombstone;
      StoreEntry(slot, key, value, fs, fp, bit);
      CountEntry(wasTombstone, outside);
      at := at[key := slot];
    }

    /** The array updates of a placement. */
    method StoreEntry(slot: nat, key: K, value: V, fs: FilterSlot, fp: bv8, bit: nat)
      requires slot < ctrl.Length && slot < data.Length && fs.index < filter.Length && fs.bin < |filter[fs.index].bins|
      modifies ctrl, data, filter
      ensures ctrl[..] == old(ctrl[..])[slot := Controls.Full(fp)]
              && data[..] == old(data[..])[slot := Entry(key, value)]
      ensures filter[..] == Record(old(filter[..]), fs, bit)
    {
      data[slot] := Entry(key, value);
      ctrl[slot] := Controls.Full(fp);
      filter[fs.index] := RecordWord(filter[fs.index], fs, bit);
    }

    /** The counter updates of a placement. */
    method CountEntry(wasTombstone: bool, outside: bool)
      requires wasTombstone ==> tombstones > 0
      modifies `len, `tombstones, `exceptional
      ensures len == old(len) + 1 && tombstones == old(tombstones) - (if wasTombstone then 1 else 0)
      ensures exceptional == (old(exceptional) || outside)
    {
      len := len + 1;
      if wasTombstone {
        tombstones := tombstones - 1;
      }
      if outside {
        exceptional := true;
      }
    }

    /** Writes an absent key's entry, records it in the filter and updates the counters. */
    method PlaceNewEntry(vacancy: Vacancy, key: K, value: V, fs: FilterSlot, fp: bv8, outside: bool)
      requires Valid() && key !in at && len < shape.maxInsertions
      requires Target(env, Snap(), key, vacancy.slot, outside)
      requires vacancy.levelBit == SlotBit(shape, vacancy.slot) <= LAST_BIT
      requires fs == FilterSlotOf(env, Snap(), key) && fp == env.keys.Fp(key)
      modifies this, ctrl, data, filter
      ensures Valid() && M() == old(M())[key := value]
      ensures ctrl == old(ctrl) && data == old(data) && filter == old(filter) && shape == old(shape)
              && seed == old(seed)
      ensures at == old(at)[key := vacancy.slot] && len == old(len) + 1 && stale == old(stale)
      ensures exceptional == (old(exceptional) || outside)
      ensures tombstones == old(tombstones) - (if old(ctrl[vacancy.slot]) == Tombstone then 1 else 0)
      ensures data[vacancy.slot] == Entry(key, value)
      ensures !outside ==> Wrote(env, old(Snap()), Snap(), vacancy.slot, key, value)
      ensures Put(env, old(Snap()), Snap(), key, value)
      ensures old(TightFilter()) ==> TightFilter()
      ensures old(Recording()) ==> Recording()
    {
      hide LaidOut, SlotBit, Inv, Intact, VacancyAt, Tight, Valid, Sound, M, MapOf, Target, Recording, EntriesRecorded,
           Put;
      Facts();
      ghost var before := Snap();
      RecordingIs(before);
      PlaceKeepsInv(env, before, vacancy.slot, key, value, vacancy.levelBit, outside);
      WriteEntry(vacancy.slot, key, value, fs, fp, vacancy.levelBit, outside);
      IsPut(env, before, Snap(), vacancy.slot, key, value, outside);
      Represents(Snap(), MapOf(env, Snap()));
      assert data[..][vacancy.slot] == Entry(key, value);
      RecordingIs(Snap());
    }

    /** Only an exhausted placement walk reaches this scan; the insertion limit leaves it a free slot. */
    method FirstFreeGlobal() returns (r: nat)
      requires (Valid() || Sound()) && len < shape.maxInsertions
      ensures r < shape.n && r < ctrl.Length && IsFree(ctrl[r]) && forall s: nat :: s < r ==> !IsFree(ctrl[s])
    {
      hide LaidOut, Stored, EntriesPlaced, EntriesAdmitted;
      RoomMeansFree(env, Snap());
      r := 0;
      while IsFull(ctrl[r])
        invariant r < shape.n
        invariant exists s: nat :: r <= s < shape.n && IsFree(ctrl[s])
        invariant forall s: nat :: s < r ==> !IsFree(ctrl[s])
        decreases shape.n - r
      {
        r := r + 1;
      }
    }

    static predicate IsFull(c: Control)
    {
      !IsFree(c)
    }

    /** The walk's vacancy, or the first free slot anywhere once the walk is exhausted. */
    method ResolveVacancy(vacancy: Option<Vacancy>, ghost key: K, ghost i: nat, ghost p: nat)
        returns (r: Vacancy, outside: bool)
      requires (Valid() || Sound()) && len < shape.maxInsertions
      requires vacancy.Some? ==> VacancyAt(ctrl[..], WalkOf(env, Snap(), key), vacancy.value.slot, i, p)
                                 && vacancy.value.slot < shape.n
                                 && vacancy.value.levelBit == SlotBit(shape, vacancy.value.slot) <= LAST_BIT
      ensures Target(env, Snap(), key, r.slot, outside) && r.levelBit == SlotBit(shape, r.slot) <= LAST_BIT
      ensures vacancy.Some? ==> !outside && r == vacancy.value
      ensures vacancy.None? ==> outside && forall s: nat :: s < r.slot && s < ctrl.Length ==> !IsFree(ctrl[s])
    {
      hide LaidOut, Stored, EntriesPlaced, EntriesAdmitted;
      if vacancy.Some? {
        return vacancy.value, false;
      }
      var slot := FirstFreeGlobal();
      return Vacancy(slot, SlotBit(shape, slot)), true;
    }

    /** The table's user hasher during a rebuild, which survives `hashes` keys and has hashed `hashed`;
        `None` is a panic. */
    method HashKey(key: K, hashed: nat, hashes: nat) returns (h: Option<Word>)
      ensures h == if hashed < hashes then Some(env.keys.hash(key)) else None
    {
      return if hashed < hashes then Some(env.keys.hash(key)) else None;
    }

    /** Places an entry known to be absent from the generation being rebuilt. */
    method PlaceUnique(key: K, value: V, hash: Word)
      requires Valid() && key !in at && len < shape.maxInsertions && hash == env.keys.hash(key)
      modifies this, ctrl, data, filter
      ensures Valid() && M() == old(M())[key := value] && at.Keys == old(at).Keys + {key}
      ensures ctrl == old(ctrl) && data == old(data) && filter == old(filter) && shape == old(shape)
              && seed == old(seed)
      ensures len == old(len) + 1 && stale == old(stale) && (old(tombstones) == 0 ==> tombstones == 0)
      ensures Settled(env, old(Snap()), Snap(), key, value)
      ensures old(TightFilter()) ==> TightFilter()
    {
      hide LaidOut, Inv, Intact, TightFilter, VacancyAt, SlotBit, NoVacancy, Target, Settled, Put;
      ghost var before := Snap();
      ValidIsSound();
      HasSlots();
      ReadyToSearch();
      var w := Walk(shape, env.sample, seed, hash);
      var fp := env.keys.fingerprint(hash);
      assert w == WalkOf(env, Snap(), key);
      ghost var i, p;
      var found;
      found, i, p := SearchVacancy(ctrl, w);
      var vacancy, outside := ResolveVacancy(found, key, i, p);
      var fs := MembershipSlot(hash);
      NoTombstones();
      PlaceNewEntry(vacancy, key, value, fs, fp, outside);
      IsSettled(env, before, Snap(), key, value, outside);
    }

    lemma HasSlots()
      requires Sound() && len < shape.maxInsertions
      ensures shape.n > 0 && shape.n + GROUP - 1 == ctrl.Length && data.Length == shape.n
    {
      hide LaidOut, Stored, EntriesPlaced, EntriesAdmitted;
    }

    lemma NoTombstones()
      requires Valid() || Sound()
      ensures tombstones == 0 ==> forall s: nat :: s < ctrl.Length ==> ctrl[s] != Tombstone
    {
      hide LaidOut, Stored, EntriesPlaced;
      CountExtremes(ctrl[..]);
      assert forall s: nat :: s < ctrl.Length ==> ctrl[..][s] == ctrl[s];
    }

    // ---- Rebuild ----

    /** The previous generation's arrays as a rebuild reads them. */
    static ghost predicate Source(previous: State<K, V>, oldCtrl: seq<Control>, oldData: seq<Slot<K, V>>)
    {
      && oldCtrl == previous.ctrl && oldData == previous.data && |oldData| == previous.shape.n
      && (previous.shape.n > 0 ==> |oldCtrl| == previous.shape.n + GROUP - 1)
      && (forall s :: 0 <= s < |oldCtrl| ==> Proper(oldCtrl[s]) && (s >= |oldData| ==> !oldCtrl[s].Full?))
      && Readout(oldCtrl, oldData, previous.at)
    }

    /** What the generation being filled holds once the cursor has passed `next`. */
    ghost predicate Holding(previous: State<K, V>, next: nat)
      reads this, ctrl, data, filter
    {
      && Valid() && TightFilter() && tombstones == 0 && stale == 0
      && at.Keys == Moved(previous.at, next) && len == |at.Keys| && M().Keys == at.Keys && ReadsOff(previous, M())
      && Building(previous, next)
    }

    /** The fields are what a rebuild has built of the previous generation's first `next` slots. */
    ghost predicate Building(previous: State<K, V>, next: nat)
      reads this, ctrl, data, filter
    {
      AllSettled(env, previous, shape, seed, next) && Snap() == Built(env, previous, shape, seed, next)
    }

    /** The map binds keys as the previous generation's slots do. */
    static ghost predicate ReadsOff(previous: State<K, V>, m: map<K, V>)
    {
      forall k :: k in m ==> k in previous.at && previous.at[k] < |previous.data|
                             && previous.data[previous.at[k]].Entry?
                             && m[k] == previous.data[previous.at[k]].value
    }

    /** Copies one entry across; `false` is a panicking hasher. */
    method MoveEntry(oldData: array<Slot<K, V>>, slot: nat, hashes: nat, ghost previous: State<K, V>,
                     ghost passed: nat)
        returns (done: bool)
      requires Holding(previous, passed) && Source(previous, previous.ctrl, oldData[..]) && oldData != data
      requires passed <= slot < oldData.Length && slot < |previous.ctrl| && previous.ctrl[slot].Full?
      requires forall s :: passed <= s < slot ==> !previous.ctrl[s].Full?
      requires |previous.at| <= shape.maxInsertions
      modifies this, ctrl, data, filter
      ensures ctrl == old(ctrl) && data == old(data) && filter == old(filter) && shape == old(shape)
              && seed == old(seed)
      ensures done ==> Holding(previous, slot + 1) && len == old(len) + 1
      ensures done <==> old(len) < hashes
      ensures old(len) < |previous.at|
    {
      hide LaidOut, Inv, Intact, Valid, Sound, TightFilter, M, Moved, Holding, ReadsOff, AllSettled, Built, Settled;
      HoldingAt(previous, passed, slot);
      var entry := oldData[slot];
      var hash := HashKey(entry.key, len, hashes);
      if hash.None? {
        return false;
      }
      ghost var keys, m, before := at.Keys, M(), Snap();
      PlaceUnique(entry.key, entry.value, hash.value);
      HoldingNext(previous, passed, slot, keys, m, before);
      return true;
    }

    /** What a held generation says of the next slot to move. */
    lemma HoldingAt(previous: State<K, V>, passed: nat, slot: nat)
      requires Holding(previous, passed) && Source(previous, previous.ctrl, previous.data)
      requires passed <= slot < |previous.ctrl| && previous.ctrl[slot].Full?
      requires forall s :: passed <= s < slot ==> !previous.ctrl[s].Full?
      ensures Valid() && TightFilter() && tombstones == 0 && stale == 0 && len == |at.Keys|
      ensures slot < |previous.data| && previous.data[slot].Entry? && previous.data[slot].key !in at
      ensures len < |previous.at| && at.Keys == Moved(previous.at, passed) == M().Keys && ReadsOff(previous, M())
      ensures AllSettled(env, previous, shape, seed, passed) && Snap() == Built(env, previous, shape, seed, passed)
    {
      hide LaidOut, Inv, Intact, Valid, Sound, TightFilter, M, Moved, AllSettled, Built;
      MovedStep(previous.ctrl, previous.data, previous.at, passed, slot);
    }

    /** With the entry of the next live slot placed, the generation holds one slot more. */
    lemma HoldingNext(previous: State<K, V>, passed: nat, slot: nat, keys: set<K>, m: map<K, V>,
                      before: State<K, V>)
      requires Source(previous, previous.ctrl, previous.data) && keys == Moved(previous.at, passed) == m.Keys
      requires passed <= slot < |previous.ctrl| && previous.ctrl[slot].Full? && slot < |previous.data|
               && previous.data[slot].Entry?
      requires forall s :: passed <= s < slot ==> !previous.ctrl[s].Full?
      requires ReadsOff(previous, m)
      requires Valid() && TightFilter() && tombstones == 0 && stale == 0 && len == |keys| + 1
      requires at.Keys == keys + {previous.data[slot].key}
               && M() == m[previous.data[slot].key := previous.data[slot].value]
      requires AllSettled(env, previous, shape, seed, passed) && before == Built(env, previous, shape, seed, passed)
      requires Settled(env, before, Snap(), previous.data[slot].key, previous.data[slot].value)
      ensures Holding(previous, slot + 1)
    {
      hide LaidOut, Inv, Intact, Valid, Sound, TightFilter, M, Moved, AllSettled, Built, Settled;
      MovedStep(previous.ctrl, previous.data, previous.at, passed, slot);
      PassDead(env, previous, shape, seed, passed, slot);
      PassLive(env, previous, shape, seed, slot, Snap());
    }

    /** Copies every entry of the previous generation into this one, in slot order, or stops at the first the
        hasher does not survive. */
    method MoveAll(oldCtrl: array<Control>, oldData: array<Slot<K, V>>, hashes: nat, ghost previous: State<K, V>)
        returns (done: bool)
      requires Holding(previous, 0) && Source(previous, oldCtrl[..], oldData[..])
      requires oldData != data && oldCtrl != ctrl && |previous.at| <= shape.maxInsertions
      modifies this, ctrl, data, filter
      ensures ctrl == old(ctrl) && data == old(data) && filter == old(filter) && shape == old(shape)
              && seed == old(seed)
      ensures done ==> Holding(previous, oldCtrl.Length) && len <= hashes
      ensures !done ==> hashes < |previous.at|
    {
      hide LaidOut, Inv, Intact, Valid, Sound, Moved, Holding, Building;
      NothingHeld(previous);
      var scan := new OccupiedIndices();
      while true
        invariant fresh(scan) && Holding(previous, scan.next) && scan.Valid(oldCtrl[..], oldData.Length)
        invariant scan.next <= oldData.Length && len <= hashes
        invariant Source(previous, oldCtrl[..], oldData[..])
        invariant ctrl == old(ctrl) && data == old(data) && filter == old(filter) && shape == old(shape)
                  && seed == old(seed)
        decreases oldData.Length + 1 - scan.next
      {
        ghost var passed := scan.next;
        var slot := scan.Step(oldCtrl, 0, oldData.Length, true);
        if slot.None? {
          PassRest(previous, passed, oldCtrl.Length);
          return true;
        }
        done := MoveEntry(oldData, slot.value, hashes, previous, passed);
        if !done {
          return;
        }
      }
    }

    lemma NothingHeld(previous: State<K, V>)
      requires Holding(previous, 0)
      ensures len == 0
    {
      hide LaidOut, Inv, Intact, Tight, Building;
      assert Moved(previous.at, 0) == {};
    }

    /** With no live slot left to pass, every entry has been moved. */
    lemma PassRest(previous: State<K, V>, next: nat, end: nat)
      requires Holding(previous, next) && Source(previous, previous.ctrl, previous.data)
               && next <= end == |previous.ctrl|
      requires forall s :: next <= s < |previous.ctrl| ==> !previous.ctrl[s].Full?
      ensures Holding(previous, end)
    {
      hide LaidOut, Inv, Intact, Tight, AllSettled, Built;
      assert Moved(previous.at, next) == Moved(previous.at, end);
      PassDead(env, previous, shape, seed, next, end);
    }

    /** Moves every entry into a fresh generation of `newShape` probed under `newSeed`, with a hasher that
        survives `hashes` keys. If those are too few, the table is exactly as it was; otherwise it holds
        the same entries, seated one by one in slot order, has no tombstones, and its filter reflects exactly
        the live keys, whatever the old one had lost. Its epoch is exceptional only if some entry met a walk
        without a free slot. */
    method TryResizeTo(newShape: FunnelShape, newSeed: Word, hashes: nat) returns (done: bool)
      requires (Valid() || Sound()) && LaidOut(newShape.n, d, newShape) && len <= newShape.maxInsertions
      modifies this
      ensures Sound() && M() == old(M()) && len == old(len) && at.Keys == old(at).Keys
      ensures old(Valid()) || done ==> Valid()
      ensures done ==> fresh(ctrl) && fresh(data) && fresh(filter) && Recording()
                       && shape == newShape && seed == newSeed && tombstones == 0 && stale == 0 && TightFilter()
      ensures !done ==> ctrl == old(ctrl) && data == old(data) && filter == old(filter)
                        && Snap() == old(Snap()) && stale == old(stale)
      ensures done <==> old(len) <= hashes
      ensures done ==> Rebuilt(env, old(Snap()), newShape, newSeed, Snap())
      ensures done ==> (exceptional <==> exists s: nat :: s < old(ctrl.Length)
                                                          && Strays(env, old(Snap()), newShape, newSeed, s))
      ensures old(Recording()) ==> Recording()
    {
      hide LaidOut, Inv, Intact, SoundEnv, Moved, Holding, Source, Valid, Sound, TightFilter, M, MapOf, Recording,
           EntriesRecorded, Rebuilt, Strays;
      ghost var previous, before := Snap(), M();
      RecordingIs(previous);
      Facts();
      var oldShape, oldCtrl, oldData, oldFilter := shape, ctrl, data, filter;
      var oldLen, oldTombstones, oldExceptional, oldSeed, oldStale := len, tombstones, exceptional, seed, stale;
      StartGeneration(newShape, newSeed);
      NothingMoved(previous);
      done := MoveAll(oldCtrl, oldData, hashes, previous);
      if !done {
        InstallStorage(oldShape, oldSeed, oldCtrl, oldData, oldFilter);
        InstallCounters(oldLen, oldTombstones, oldExceptional, oldStale, previous.at);
        Represents(previous, before);
        RecordingIs(previous);
        return;
      }
      AllMoved(previous, before);
      ExceptionalIs(previous);
      ValidIsSound();
      TightIsRecording();
    }

    /** The epoch a completed rebuild leaves. */
    lemma ExceptionalIs(previous: State<K, V>)
      requires Rebuilt(env, previous, shape, seed, Snap())
      ensures exceptional <==> exists s: nat :: s < |previous.ctrl| && Strays(env, previous, shape, seed, s)
    {
      hide AllSettled, Built, Strays;
      ExceptionalIffStray(env, previous, shape, seed, |previous.ctrl|);
    }

    /** What operations read off a table. */
    lemma Facts()
      requires Valid() || Sound()
      ensures SoundEnv(env) && d < U32_LIMIT && LaidOut(shape.n, d, shape)
      ensures Sound() && Intact(env, Snap()) && (Valid() <==> Inv(env, Snap())) && M() == MapOf(env, Snap())
      ensures Source(Snap(), ctrl[..], data[..]) && len == |at| <= shape.maxInsertions
    {
      hide LaidOut, EntriesPlaced, EntriesAdmitted, ValidShape, ValidFilter, SoundKeys, SoundSampler;
      ControlsProper(env, Snap());
    }

    /** A fresh generation holds what a cursor that has passed nothing has moved. */
    lemma NothingMoved(previous: State<K, V>)
      requires Valid() && TightFilter() && M() == map[] && at == map[] && len == 0 && tombstones == 0 && stale == 0
      requires Snap() == Fresh(shape, seed)
      ensures Holding(previous, 0)
    {
      hide LaidOut, Inv, Intact;
    }

    /** Once the cursor has passed every slot, all entries have moved. */
    lemma AllMoved(previous: State<K, V>, before: map<K, V>)
      requires Source(previous, previous.ctrl, previous.data) && Holding(previous, |previous.ctrl|)
      requires Intact(env, previous) && before == MapOf(env, previous)
      ensures Valid() && M() == before && at.Keys == previous.at.Keys && len == |previous.at| && tombstones == 0
              && stale == 0
      ensures TightFilter() && Rebuilt(env, previous, shape, seed, Snap())
    {
      hide LaidOut, Inv, Intact, Tight, AllSettled, Built;
      assert Moved(previous.at, |previous.ctrl|) == previous.at.Keys;
      assert |previous.at.Keys| == |previous.at|;
    }

    /** Installs an empty generation in the table's fields. */
    method StartGeneration(newShape: FunnelShape, newSeed: Word)
      requires SoundEnv(env) && d < U32_LIMIT && LaidOut(newShape.n, d, newShape)
      modifies this
      ensures Valid() && TightFilter() && M() == map[] && at == map[] && len == 0 && tombstones == 0 && stale == 0
      ensures shape == newShape && seed == newSeed && fresh(ctrl) && fresh(data) && fresh(filter)
      ensures Snap() == Fresh(shape, seed)
    {
      hide ValidShape, WordCount, LaidOut, SoundEnv, Inv, Intact, Valid, Sound, TightFilter, M;
      var newCtrl, newData, newFilter := AllocateStorage(newShape);
      InstallStorage(newShape, newSeed, newCtrl, newData, newFilter);
      InstallCounters(0, 0, false, 0, map[]);
      Started();
    }

    /** Puts a generation's storage in place. */
    method InstallStorage(newShape: FunnelShape, newSeed: Word, newCtrl: array<Control>, newData: array<Slot<K, V>>,
                          newFilter: array<MetadataWord>)
      modifies `shape, `seed, `ctrl, `data, `filter
      ensures shape == newShape && seed == newSeed && ctrl == newCtrl && data == newData && filter == newFilter
    {
      shape, seed, ctrl, data, filter := newShape, newSeed, newCtrl, newData, newFilter;
    }

    /** Puts a generation's counters in place. */
    method InstallCounters(newLen: nat, newTombstones: nat, newExceptional: bool, newStale: nat,
                           ghost slots: map<K, nat>)
      modifies `len, `tombstones, `exceptional, `stale, `at
      ensures len == newLen && tombstones == newTombstones && exceptional == newExceptional && stale == newStale
              && at == slots
    {
      len, tombstones, exceptional, stale, at := newLen, newTombstones, newExceptional, newStale, slots;
    }

    lemma Started()
      requires SoundEnv(env) && d < U32_LIMIT && LaidOut(shape.n, d, shape)
      requires ctrl.Length == (if shape.n == 0 then 0 else shape.n + GROUP - 1) && data.Length == shape.n
      requires filter.Length == WordCount(shape.n) && forall i :: 0 <= i < filter.Length ==> filter[i] == CLEAR_WORD
      requires forall i :: 0 <= i < ctrl.Length ==> ctrl[i] == Empty
      requires len == 0 && tombstones == 0 && at == map[]
      ensures Valid() && TightFilter() && M() == map[]
    {
      hide SoundEnv, Inv, Intact, IsPlan, FollowsPlan, WordCount, Reflects, Tight;
      ClearReflects(filter[..]);
      FreshInv(env, Snap());
    }

    // ---- Growth and reservation ----

    /** The slot count the next growth asks for: the least that holds twice the present budget and
        the entries needed. `None` when no slot count does. */
    method NextGrowthSlots(needed: nat) returns (r: Option<nat>)
      requires (Valid() || Sound()) && needed < USIZE_LIMIT
      ensures r.Some? ==> needed < ISIZE_MAX && r.value < USIZE_LIMIT
                          && Sufficient(r.value, d, GrowthRequest(shape.maxInsertions, needed))
      ensures r.Some? ==> forall m: nat :: m < USIZE_LIMIT
                                           && Sufficient(m, d, GrowthRequest(shape.maxInsertions, needed)) ==>
                                           r.value <= m
      ensures r.Some? <==> Growable(d, shape.maxInsertions, needed)
    {
      hide LaidOut, Inv, Intact, Sufficient;
      if needed >= ISIZE_MAX {
        return None;
      }
      var found := ForInsertBudget(GrowthRequest(shape.maxInsertions, needed), d);
      if found.Some? {
        SlotsRepresentable(found.value, d);
        r := Some(found.value.n);
      } else {
        r := None;
      }
    }

    /** The present geometry is one its slot count yields, so a rebuild at the same size cannot fail. */
    lemma SameSizePlannable()
      requires Valid() || Sound()
      ensures Sufficient(shape.n, d, len) && shape.n < USIZE_LIMIT
    {
      hide Inv, Intact;
      Facts();
      LaidOutPlannable(shape, d);
      LenFits();
    }

    lemma LenFits()
      requires Valid() || Sound()
      ensures len <= shape.maxInsertions <= shape.n && len == |at|
    {
      hide LaidOut, Stored, EntriesPlaced, EntriesAdmitted, SoundEnv;
    }

    /** `resize_with_transition`: a rebuild at `slots` slots under `newSeed`. */
    method ResizeWithTransition(slots: nat, newSeed: Word, hashes: nat) returns (done: bool)
      requires (Valid() || Sound()) && slots < USIZE_LIMIT && Sufficient(slots, d, len)
      modifies this
      ensures Sound() && M() == old(M()) && len == old(len) && at.Keys == old(at).Keys
      ensures old(Valid()) || done ==> Valid()
      ensures done ==> fresh(ctrl) && fresh(data) && fresh(filter) && Recording()
                       && shape.n == slots && shape.maxInsertions == MaxInsertions(slots, d)
                       && seed == newSeed && tombstones == 0 && stale == 0 && TightFilter()
      ensures !done ==> ctrl == old(ctrl) && data == old(data) && filter == old(filter)
                        && Snap() == old(Snap()) && stale == old(stale)
      ensures done <==> old(len) <= hashes
      ensures done ==> Rebuilt(env, old(Snap()), shape, seed, Snap())
      ensures old(Recording()) ==> Recording()
    {
      hide Inv, Intact, IsPlan, FollowsPlan, ValidShape, Plannable, MaxInsertions, TightFilter, Recording, Rebuilt,
           Strays;
      var newShape := FromSlots(slots, d);
      LaidOutPlannable(newShape.value, d);
      done := TryResizeTo(newShape.value, newSeed, hashes);
    }

    /** The table has the least slot count that holds twice the budget it had and the entries needed. */
    ghost predicate GrownFor(budget: nat, needed: nat)
      reads this
    {
      LeastFor(shape.n, d, GrowthRequest(budget, needed))
    }

    /** Growth before an insertion that would exceed the limit; `false` is an unwind: no larger table exists,
        or the hasher does not survive the entries. */
    method GrowForNextInsert(hashes: nat) returns (done: bool)
      requires Valid() || Sound()
      modifies this
      ensures Sound() && M() == old(M()) && len == old(len) && at.Keys == old(at).Keys && seed == old(seed)
      ensures old(Valid()) || done ==> Valid()
      ensures done ==> fresh(ctrl) && fresh(data) && fresh(filter) && len < shape.maxInsertions && Recording()
      ensures done ==> GrownFor(old(shape.maxInsertions), SaturatingAdd(len, 1))
      ensures done <==> Growable(d, old(shape.maxInsertions), SaturatingAdd(old(len), 1)) && old(len) <= hashes
      ensures done ==> Rebuilt(env, old(Snap()), shape, seed, Snap())
      ensures !done ==> ctrl == old(ctrl) && data == old(data) && filter == old(filter) && Snap() == old(Snap())
      ensures old(Recording()) ==> Recording()
    {
      hide Inv, Intact, Valid, Sound, M, LaidOut, MaxInsertions, Plannable, TightFilter, ValidShape, Recording, Rebuilt,
           Growable;
      Facts();
      LenFits();
      SameSizePlannable();
      var slots := NextGrowthSlots(SaturatingAdd(len, 1));
      if slots.None? {
        return false;
      }
      done := ResizeWithTransition(slots.value, seed, hashes);
    }

    /** `reserve`: afterwards the insertion limit covers `additional` more entries. `false` is an unwind,
        which changes nothing: it had to grow, and no larger table exists or the hasher does not survive
        the entries. Growing restores a filter that had lost keys. */
    method Reserve(additional: nat, hashes: nat) returns (done: bool)
      requires (Valid() || Sound()) && additional < USIZE_LIMIT
      modifies this
      ensures Sound() && M() == old(M()) && (old(Valid()) ==> Valid())
      ensures done ==> shape.maxInsertions >= SaturatingAdd(len, additional)
      ensures SaturatingAdd(old(len), additional) <= old(shape.maxInsertions) ==> done && Snap() == old(Snap())
      ensures done && SaturatingAdd(old(len), additional) > old(shape.maxInsertions) ==>
                Valid() && Recording() && GrownFor(old(shape.maxInsertions), SaturatingAdd(old(len), additional))
                && Rebuilt(env, old(Snap()), shape, seed, Snap()) && seed == old(seed)
      ensures done <==> SaturatingAdd(old(len), additional) <= old(shape.maxInsertions)
                        || (Growable(d, old(shape.maxInsertions), SaturatingAdd(old(len), additional))
                            && old(len) <= hashes)
      ensures !done ==> Snap() == old(Snap())
      ensures old(Recording()) ==> Recording()
    {
      hide Inv, Intact, Valid, Sound, M, LaidOut, MaxInsertions, Plannable, TightFilter, ValidShape, Recording, Rebuilt,
           Growable;
      Facts();
      LenFits();
      SameSizePlannable();
      var needed := SaturatingAdd(len, additional);
      if needed <= shape.maxInsertions {
        return true;
      }
      var slots := NextGrowthSlots(needed);
      if slots.None? {
        return false;
      }
      done := ResizeWithTransition(slots.value, seed, hashes);
    }

    /** `shrink_to`: never drops an entry and never leaves less room than asked for; when it completes, no
        smaller slot count would do. `false` is an unwind, which changes nothing: no table holds that many
        entries, or a smaller one does and the hasher does not survive the entries. */
    method ShrinkTo(minCapacity: nat, hashes: nat) returns (done: bool)
      requires (Valid() || Sound()) && minCapacity < USIZE_LIMIT
      modifies this
      ensures Sound() && M() == old(M()) && shape.n <= old(shape.n) && (old(Valid()) ==> Valid())
      ensures done && shape.n < old(shape.n) ==> Valid() && Recording() && shape.maxInsertions >= len
                                                 && shape.maxInsertions >= minCapacity
      ensures done ==> forall m: nat :: m < USIZE_LIMIT && Sufficient(m, d, Larger(len, minCapacity)) ==> shape.n <= m
      ensures done <==> (exists m: nat :: m < USIZE_LIMIT && Sufficient(m, d, Larger(old(len), minCapacity)))
                        && (NothingSmaller(old(shape.n), d, Larger(old(len), minCapacity)) || old(len) <= hashes)
      ensures !done || shape.n == old(shape.n) ==> Snap() == old(Snap())
      ensures done && shape.n < old(shape.n) ==> Rebuilt(env, old(Snap()), shape, seed, Snap()) && seed == old(seed)
      ensures old(Recording()) ==> Recording()
    {
      hide Inv, Intact, Valid, Sound, M, LaidOut, MaxInsertions, Plannable, TightFilter, ValidShape, Recording, Rebuilt,
           Sufficient;
      Facts();
      LenFits();
      SameSizePlannable();
      if len == 0 && minCapacity == 0 {
        EmptySuffices(d);
        assert Sufficient(0, d, Larger(len, minCapacity));
        if shape.n != 0 {
          done := ResizeWithTransition(0, seed, hashes);
        } else {
          done := true;
        }
        return;
      }
      var requested := Larger(len, minCapacity);
      var found := ForInsertBudget(requested, d);
      if found.None? {
        return false;
      }
      SlotsRepresentable(found.value, d);
      if found.value.n < shape.n {
        SufficientForLess(found.value.n, d, requested, len);
        done := ResizeWithTransition(found.value.n, seed, hashes);
      } else {
        done := true;
      }
    }

    // ---- Insertion ----

    /** Overwrites the value of a live slot and returns the one it held. */
    method ReplaceValue(slot: nat, value: V) returns (previous: V)
      requires (Valid() || Sound()) && slot < ctrl.Length && slot < data.Length && ctrl[slot].Full?
               && data[slot].Entry?
      modifies data
      ensures Sound() && (old(Valid()) ==> Valid())
      ensures data[slot].Entry? && data[slot] == Entry(old(data[slot].key), value)
      ensures var key := old(data[slot].key);
              key in old(M()) && previous == old(M())[key] && M() == old(M())[key := value]
      ensures old(Recording()) ==> Recording()
    {
      hide LaidOut, Inv, Intact, Valid, Sound, M, MapOf, Recording, EntriesRecorded;
      Facts();
      ghost var before := Snap();
      RecordingIs(before);
      ReplaceKeepsIntact(env, before, slot, value);
      if Valid() {
        ReplaceKeepsInv(env, before, slot, value);
      }
      ReplaceKeepsRecords(env, before, slot, value);
      LiveEntry(slot);
      previous := data[slot].value;
      data[slot] := Entry(data[slot].key, value);
      assert Snap() == before.(data := before.data[slot := Entry(before.data[slot].key, value)]);
      Represents(Snap(), MapOf(env, Snap()));
      RecordingIs(Snap());
    }

    /** A live slot holds an entry of the map. */
    lemma LiveEntry(slot: nat)
      requires (Valid() || Sound()) && slot < ctrl.Length && ctrl[slot].Full?
      ensures slot < data.Length && data[slot].Entry? && data[slot].key in at && at[data[slot].key] == slot
      ensures data[slot].key in M() && M()[data[slot].key] == data[slot].value
    {
      hide LaidOut, EntriesPlaced, EntriesAdmitted, SoundEnv, Sized;
      assert ctrl[..][slot] == ctrl[slot];
    }

    /** `search_exact_prepared` with the exceptional full scan behind it: finds the key's slot exactly
        when the key is present, and otherwise reports the walk's vacancy. */
    method SearchDuplicate(key: K, hash: Word, fp: bv8, clean: bool)
        returns (hit: Option<nat>, exact: SearchResult, ghost i: nat, ghost p: nat)
      requires Sound() && shape.n > 0 && hash == env.keys.hash(key) && fp == env.keys.Fp(key)
      requires clean ==> tombstones == 0
      ensures hit == FullScan(ctrl[..], data[..], key, fp, 0)
      ensures hit.Some? <==> key in at
      ensures hit.Some? ==> hit.value < ctrl.Length && hit.value < data.Length && ctrl[hit.value].Full?
                            && data[hit.value].Entry? && data[hit.value].key == key
      ensures hit.None? ==> SearchedFor(key, exact, i, p)
    {
      hide LaidOut, SlotBit, MeetsKey, EntriesPlaced, VacancyAt, NoVacancy;
      FullScanFinds(ctrl[..], data[..], env.keys, at, key, 0);
      ReadyToSearch();
      NoTombstones();
      var w := Walk(shape, env.sample, seed, hash);
      assert w == WalkOf(env, Snap(), key);
      exact, i, p := SearchExact(ctrl, data, w, key, fp, clean);
      hit := if exact.Hit? then Some(exact.slot) else None;
      if hit.Some? {
        BitsAreAll(shape, hit.value);
      }
      if key in at {
        BitsAreAll(shape, at[key]);
      }
      LookupAgrees(env, Snap(), key, ALL_BITS, hit);
      if hit.None? && exceptional {
        hit := FindByFullScan(key, fp);
      }
    }

    /** What an exact search that missed knows: the walk's vacancy, or that there is none. */
    ghost predicate SearchedFor(key: K, exact: SearchResult, i: nat, p: nat)
      reads this, ctrl, data, filter
    {
      && !exact.Hit?
      && (exact.Vacant? ==> VacancyAt(ctrl[..], WalkOf(env, Snap(), key), exact.slot, i, p))
      && (!exact.Vacant? ==> NoVacancy(ctrl[..], WalkOf(env, Snap(), key)))
    }

    /** What placement needs of a search for an absent key. */
    ghost predicate VacancyFor(key: K, found: Option<Vacancy>, i: nat, p: nat)
      reads this, ctrl, data, filter
    {
      if found.Some? then
        && VacancyAt(ctrl[..], WalkOf(env, Snap(), key), found.value.slot, i, p)
        && found.value.slot < shape.n && found.value.levelBit == SlotBit(shape, found.value.slot) <= LAST_BIT
      else NoVacancy(ctrl[..], WalkOf(env, Snap(), key))
    }

    /** The vacancy an exact search reports, with the level bit its slot yields. */
    method VacancyOf(key: K, exact: SearchResult, ghost i: nat, ghost p: nat) returns (r: Option<Vacancy>)
      requires (Valid() || Sound()) && shape.n > 0 && SearchedFor(key, exact, i, p)
      ensures VacancyFor(key, r, i, p)
    {
      hide LaidOut, Stored, EntriesPlaced, EntriesAdmitted, NoVacancy;
      match exact {
        case Vacant(slot) =>
          LegSlots(WalkOf(env, Snap(), key), i, p);
          r := Some(Vacancy(slot, SlotBit(shape, slot)));
        case _ =>
          r := None;
      }
    }

    /** The placement walk of a key under the table's present seed. */
    method FindVacancy(key: K, hash: Word) returns (r: Option<Vacancy>, ghost i: nat, ghost p: nat)
      requires (Valid() || Sound()) && shape.n > 0 && hash == env.keys.hash(key)
      ensures VacancyFor(key, r, i, p)
    {
      hide LaidOut, Inv, Intact, Valid, Sound, VacancyAt, SlotBit, NoVacancy;
      if Valid() {
        ValidIsSound();
      }
      TableSizes();
      ReadyToSearch();
      var w := Walk(shape, env.sample, seed, hash);
      assert w == WalkOf(env, Snap(), key);
      r, i, p := SearchVacancy(ctrl, w);
    }

    lemma TableSizes()
      requires Valid() || Sound()
      ensures data.Length == shape.n && ctrl.Length == (if shape.n == 0 then 0 else shape.n + GROUP - 1)
              && filter.Length == WordCount(shape.n)
    {
      hide LaidOut, Stored, EntriesPlaced, SoundEnv, WordCount;
    }

    /** Rebuilds at the same size under a fresh seed and walks the key again. `false` is an unwind,
        which changes nothing. */
    method RebuildForPlacement(key: K, hash: Word, hashes: nat)
        returns (done: bool, vacancy: Option<Vacancy>, fs: FilterSlot, ghost i: nat, ghost p: nat)
      requires (Valid() || Sound()) && len < shape.maxInsertions && shape.n > 0 && hash == env.keys.hash(key)
      modifies this
      ensures Sound() && M() == old(M()) && at.Keys == old(at).Keys && (old(Valid()) || done ==> Valid())
      ensures done ==> fresh(ctrl) && fresh(data) && fresh(filter) && len < shape.maxInsertions
                       && shape.n == old(shape.n) > 0
                       && seed == Reseeded(old(seed)) && fs == FilterSlotOf(env, Snap(), key)
                       && VacancyFor(key, vacancy, i, p)
      ensures !done ==> Snap() == old(Snap()) && ctrl == old(ctrl) && data == old(data) && filter == old(filter)
      ensures done <==> old(len) <= hashes
      ensures done ==> Rebuilt(env, old(Snap()), shape, seed, Snap()) && len == old(len)
      ensures old(Recording()) ==> Recording()
    {
      hide LaidOut, Inv, Intact, Valid, Sound, M, MapOf, SlotBit, VacancyFor, VacancyAt, NoVacancy, WordCount,
           TightFilter, ValidShape, Plannable, MaxInsertions, Recording, Rebuilt;
      SameSizePlannable();
      SameMax(shape.n);
      Facts();
      done := ResizeWithTransition(shape.n, Reseeded(seed), hashes);
      vacancy, fs, i, p := None, FilterSlot(0, {}, 0), 0, 0;
      if done {
        fs := MembershipSlot(hash);
        vacancy, i, p := FindVacancy(key, hash);
      }
    }

    /** Growth is due and fails: no larger table exists, or the hasher does not survive the entries. */
    static ghost predicate CannotGrow(d: nat, st: State<K, V>, hashes: int)
    {
      st.len >= st.shape.maxInsertions
      && !(Growable(d, st.shape.maxInsertions, SaturatingAdd(st.len, 1)) && st.len <= hashes)
    }

    /** Hashes that growth takes, if it is due. */
    static function Spent(st: State<K, V>): nat
    {
      if st.len < st.shape.maxInsertions then 0 else st.len
    }

    /** What has room for one more entry: a table below its limit itself, any other rebuilt at the least slot
        count that holds twice its budget. */
    static ghost predicate Roomy(env: Env<K>, d: nat, before: State<K, V>, after: State<K, V>)
    {
      if before.len < before.shape.maxInsertions then after == before
      else
        && Rebuilt(env, before, after.shape, before.seed, after)
        && LeastFor(after.shape.n, d, GrowthRequest(before.shape.maxInsertions, SaturatingAdd(before.len, 1)))
    }

    /** A reseeding is due, because the key's walk has no free slot in an ordinary epoch. */
    static ghost predicate ReseedDue(env: Env<K>, st: State<K, V>, key: K)
    {
      NoneFreeOnWalk(env, st, key) && !st.exceptional
    }

    /** What a key is placed in: the table itself, unless a reseeding is due; then the table rebuilt at its
        size under the next seed. */
    static ghost predicate Ready(env: Env<K>, before: State<K, V>, after: State<K, V>, key: K)
    {
      if ReseedDue(env, before, key) then
        Rebuilt(env, before, after.shape, Reseeded(before.seed), after) && after.shape.n == before.shape.n
      else after == before
    }

    /** How inserting a key taken for absent goes under a hasher that survives `hashes` keys. It is placed
        unless growth is due and fails, or then a reseeding is due and the hasher does not survive that. If
        it is placed, it settles in what growth and reseeding have made of the table; if not, the table is
        as growth left it. */
    static ghost predicate Inserts(env: Env<K>, d: nat, before: State<K, V>, hashes: nat, grown: State<K, V>,
                                   mid: State<K, V>, after: State<K, V>, key: K, value: V, placed: bool)
    {
      && (if CannotGrow(d, before, hashes) then grown == before else Roomy(env, d, before, grown))
      && (placed <==> !CannotGrow(d, before, hashes)
                      && !(ReseedDue(env, grown, key) && hashes - Spent(before) < grown.len))
      && (if placed then Ready(env, grown, mid, key) && Settled(env, mid, after, key, value) else after == grown)
    }

    /** The same entries, perhaps in another generation, and no less valid or recorded. */
    static ghost predicate Carried(env: Env<K>, d: nat, before: State<K, V>, after: State<K, V>)
    {
      && LaidOut(after.shape.n, d, after.shape) && Intact(env, after) && MapOf(env, after) == MapOf(env, before)
      && after.at.Keys == before.at.Keys && (Inv(env, before) ==> Inv(env, after))
      && (EntriesRecorded(env, before) ==> EntriesRecorded(env, after))
    }

    lemma IsCarried(before: State<K, V>)
      requires (Valid() || Sound()) && M() == MapOf(env, before) && at.Keys == before.at.Keys
      requires (Inv(env, before) ==> Valid()) && (EntriesRecorded(env, before) ==> Recording())
      ensures Carried(env, d, before, Snap())
    {
      hide LaidOut, Inv, Intact, Valid, Sound, M, MapOf, Recording, EntriesRecorded;
      Facts();
      RecordingIs(Snap());
    }

    /** Writes a key taken for absent at its vacancy, or anywhere free without one. */
    method PlaceAt(key: K, value: V, hash: Word, fs: FilterSlot, vacancy: Option<Vacancy>, ghost i: nat, ghost p: nat)
        returns (slot: nat)
      requires (Valid() || Sound()) && len < shape.maxInsertions && shape.n > 0
      requires hash == env.keys.hash(key) && fs == FilterSlotOf(env, Snap(), key) && VacancyFor(key, vacancy, i, p)
      modifies this, ctrl, data, filter
      ensures Put(env, old(Snap()), Snap(), key, value) && key in at && at[key] == slot
      ensures Settled(env, old(Snap()), Snap(), key, value)
      ensures ctrl == old(ctrl) && data == old(data) && filter == old(filter) && stale == old(stale)
      ensures exceptional == (old(exceptional) || vacancy.None?)
              && (vacancy.Some? ==> slot == vacancy.value.slot)
    {
      hide LaidOut, Inv, Intact, Valid, Sound, M, MapOf, SlotBit, VacancyAt, NoVacancy, Target, Put, Settled,
           FirstFreeOnWalk, NoneFreeOnWalk, VacancyFor;
      VacancyMeans(key, vacancy, i, p);
      VacancyUsable(key, vacancy, i, p);
      Facts();
      ghost var before := Snap();
      var target, outside := ResolveVacancy(vacancy, key, i, p);
      PlaceReady(env, before, target.slot, key, outside);
      WriteEntry(target.slot, key, value, fs, env.keys.fingerprint(hash), target.levelBit, outside);
      IsPut(env, before, Snap(), target.slot, key, value, outside);
      IsSettled(env, before, Snap(), key, value, outside);
      return target.slot;
    }

    lemma VacancyUsable(key: K, vacancy: Option<Vacancy>, i: nat, p: nat)
      requires VacancyFor(key, vacancy, i, p)
      ensures vacancy.Some? ==> VacancyAt(ctrl[..], WalkOf(env, Snap(), key), vacancy.value.slot, i, p)
                                && vacancy.value.slot < shape.n
                                && vacancy.value.levelBit == SlotBit(shape, vacancy.value.slot) <= LAST_BIT
    {
      hide VacancyAt, NoVacancy, SlotBit;
    }

    static lemma IsPut(env: Env<K>, before: State<K, V>, after: State<K, V>, slot: nat, key: K, value: V,
                       outside: bool)
      requires Target(env, before, key, slot, outside) && before.len < before.shape.maxInsertions
               && SlotBit(before.shape, slot) <= LAST_BIT
      requires before.ctrl[slot] == Tombstone ==> before.tombstones > 0
      requires var fs := FilterSlotOf(env, before, key);
               fs.index < |before.filter| && fs.bin < |before.filter[fs.index].bins|
      requires after == PlaceNew(env, before, slot, key, value, SlotBit(before.shape, slot), outside)
      ensures Put(env, before, after, key, value) && after.at[key] == slot
    {
      hide SlotBit, VacancyAt, Record;
    }

    /** Places a key taken for absent at its search's vacancy. An exhausted walk first rebuilds the table
        at the same size under a fresh seed and walks again; only a second exhaustion places the key
        outside its funnel. `None` is an unwind out of that rebuild, which changes nothing. */
    method PlaceAbsentAfterSearch(key: K, value: V, hash: Word, fs: FilterSlot, found: Option<Vacancy>, hashes: nat,
                                  ghost i: nat, ghost p: nat)
        returns (r: Option<nat>, ghost mid: State<K, V>)
      requires (Valid() || Sound()) && len < shape.maxInsertions && shape.n > 0
      requires hash == env.keys.hash(key) && fs == FilterSlotOf(env, Snap(), key) && VacancyFor(key, found, i, p)
      modifies this, ctrl, data, filter
      ensures fresh(Repr() - old(Repr())) && Carried(env, d, old(Snap()), mid)
      ensures r.Some? ==> Put(env, mid, Snap(), key, value) && key in at && at[key] == r.value
      ensures r.None? ==> Snap() == old(Snap()) && mid == Snap()
      ensures found.Some? ==> r == Some(found.value.slot) && exceptional == old(exceptional) && stale == old(stale)
      ensures found.Some? || old(exceptional) ==> r.Some? && mid == old(Snap())
      ensures found.None? && !old(exceptional) && r.Some? ==>
                mid.seed == Reseeded(old(seed)) && mid.shape.n == old(shape.n)
      ensures r.None? <==> ReseedDue(env, old(Snap()), key) && hashes < old(len)
      ensures r.Some? ==> Ready(env, old(Snap()), mid, key) && Settled(env, mid, Snap(), key, value)
    {
      hide LaidOut, Inv, Intact, Valid, Sound, M, MapOf, VacancyFor, WordCount, TightFilter, FilterSlotOf, Put,
           Recording, EntriesRecorded, Carried, Settled, Rebuilt, NoneFreeOnWalk, FirstFreeOnWalk;
      VacancyMeans(key, found, i, p);
      ghost var before := Snap();
      Facts();
      RecordingIs(before);
      var vacancy, slot := found, fs;
      ghost var vi, vp := i, p;
      if found.None? && !exceptional {
        var done;
        done, vacancy, slot, vi, vp := RebuildForPlacement(key, hash, hashes);
        IsCarried(before);
        if !done {
          return None, Snap();
        }
      }
      IsCarried(before);
      mid := Snap();
      var target := PlaceAt(key, value, hash, slot, vacancy, vi, vp);
      return Some(target), mid;
    }

    /** Equal slot counts have equal insertion limits. */
    lemma SameMax(slots: nat)
      requires (Valid() || Sound()) && shape.n == slots
      ensures shape.maxInsertions == MaxInsertions(slots, d)
    {
      hide Inv, Intact, LaidOut, MaxInsertions;
      LaidOutPlannable(shape, d);
    }

    /** Grows first if the insertion limit is reached; `None` is an unwind. `left` is how many more keys the
        hasher survives. */
    method PrepareVacantInsert(hashes: nat) returns (grown: Option<bool>, left: nat)
      requires Valid() || Sound()
      modifies this
      ensures Sound() && M() == old(M()) && len == old(len) && at.Keys == old(at).Keys && seed == old(seed)
      ensures old(Valid()) || grown == Some(true) ==> Valid()
      ensures grown.None? || !grown.value ==> Snap() == old(Snap()) && ctrl == old(ctrl) && data == old(data)
                                              && filter == old(filter)
      ensures grown.Some? && grown.value ==> fresh(ctrl) && fresh(data) && fresh(filter)
      ensures grown.None? || grown.value ==> old(len >= shape.maxInsertions)
      ensures grown == Some(false) ==> old(len < shape.maxInsertions) && stale == old(stale)
      ensures grown == Some(true) ==> Recording() && GrownFor(old(shape.maxInsertions), SaturatingAdd(len, 1))
      ensures grown.Some? ==> len < shape.maxInsertions && shape.n > 0
      ensures grown.None? <==> CannotGrow(d, old(Snap()), hashes)
      ensures grown.Some? ==> Roomy(env, d, old(Snap()), Snap()) && left == hashes - Spent(old(Snap()))
      ensures old(Recording()) ==> Recording()
    {
      hide LaidOut, Inv, Intact, Valid, Sound, M, TightFilter, Recording, Rebuilt, Growable, LeastFor;
      Facts();
      left := hashes;
      if len >= shape.maxInsertions {
        var done := GrowForNextInsert(hashes);
        grown := if done then Some(true) else None;
        left := if done then hashes - len else 0;
      } else {
        grown := Some(false);
      }
      if grown.Some? {
        HasSlots();
      }
    }

    /** Nothing that decides a walk has changed, and no tombstone was added. */
    twostate predicate SameEpoch()
      reads this
    {
      shape == old(shape) && seed == old(seed) && exceptional == old(exceptional) && tombstones <= old(tombstones)
    }

    lemma VacancyMeans(key: K, found: Option<Vacancy>, i: nat, p: nat)
      requires VacancyFor(key, found, i, p)
      ensures found.Some? ==> FirstFreeOnWalk(env, Snap(), key, found.value.slot) && !NoneFreeOnWalk(env, Snap(), key)
      ensures found.None? ==> NoneFreeOnWalk(env, Snap(), key)
    {
      hide VacancyAt;
    }

    /** What precedes a placement: growth if the limit is reached, which makes the search stale, and the
        vacancy to place at. `done` is false for an unwind. */
    method PrepareVacancy(key: K, hash: Word, searched: bool, exact: SearchResult, hashes: nat, ghost leg: nat,
                          ghost step: nat)
        returns (done: bool, found: Option<Vacancy>, left: nat, ghost grown: bool, ghost i: nat, ghost p: nat)
      requires (Valid() || Sound()) && hash == env.keys.hash(key)
      requires searched ==> shape.n > 0 && SearchedFor(key, exact, leg, step)
      modifies this
      ensures Sound() && fresh(Repr() - old(Repr())) && Carried(env, d, old(Snap()), Snap())
      ensures done ==> len < shape.maxInsertions && shape.n > 0 && VacancyFor(key, found, i, p)
      ensures !done || grown ==> old(len >= shape.maxInsertions)
      ensures done && !grown ==> Snap() == old(Snap()) && stale == old(stale)
      ensures done && found.Some? ==> FirstFreeOnWalk(env, Snap(), key, found.value.slot)
      ensures done && found.None? ==> NoneFreeOnWalk(env, Snap(), key)
      ensures done <==> !CannotGrow(d, old(Snap()), hashes)
      ensures done ==> Roomy(env, d, old(Snap()), Snap()) && left == hashes - Spent(old(Snap()))
      ensures !done ==> Snap() == old(Snap())
      ensures len == old(len)
    {
      hide LaidOut, Inv, Intact, Valid, Sound, M, MapOf, VacancyFor, VacancyAt, NoVacancy, WordCount, TightFilter,
           SlotBit, FirstFreeOnWalk, NoneFreeOnWalk, GrownFor, Recording, EntriesRecorded, Carried, Roomy, CannotGrow;
      ghost var before := Snap();
      Facts();
      RecordingIs(before);
      var prepared;
      prepared, left := PrepareVacantInsert(hashes);
      IsCarried(before);
      done, found, grown, i, p := prepared.Some?, None, prepared == Some(true), leg, step;
      if done {
        if searched && !prepared.value {
          found := VacancyOf(key, exact, i, p);
        } else {
          found, i, p := FindVacancy(key, hash);
        }
        VacancyMeans(key, found, i, p);
      }
    }

    /** Inserts a key the search has not found: after growth if that is due, at the vacancy of its walk if
        there is one. `None` is an unwind. */
    method InsertSearched(key: K, value: V, hash: Word, searched: bool, exact: SearchResult, hashes: nat,
                          ghost leg: nat, ghost step: nat)
        returns (slot: Option<nat>, ghost walked: Option<nat>, ghost prepared: State<K, V>, ghost mid: State<K, V>)
      requires (Valid() || Sound()) && hash == env.keys.hash(key)
      requires searched ==> shape.n > 0 && SearchedFor(key, exact, leg, step)
      modifies this, ctrl, data, filter
      ensures fresh(Repr() - old(Repr())) && Carried(env, d, old(Snap()), mid)
      ensures slot.Some? ==> Put(env, mid, Snap(), key, value) && key in at && at[key] == slot.value
      ensures slot.None? ==> Snap() == mid
      ensures walked.Some? ==> slot == walked && mid == old(Snap())
                               && FirstFreeOnWalk(env, old(Snap()), key, walked.value)
                               && exceptional == old(exceptional) && stale == old(stale)
      ensures walked.None? ==> old(len >= shape.maxInsertions) || NoneFreeOnWalk(env, old(Snap()), key)
      ensures Inserts(env, d, old(Snap()), hashes, prepared, mid, Snap(), key, value, slot.Some?)
      ensures slot.None? ==> len == old(len)
    {
      hide LaidOut, Inv, Intact, Valid, Sound, M, MapOf, VacancyFor, SearchedFor, FirstFreeOnWalk, NoneFreeOnWalk,
           Put, EntriesRecorded, Carried, Roomy, CannotGrow, Settled, Ready, ReseedDue, Spent;
      ghost var before := Snap();
      var done, found, left;
      ghost var grown, i, p;
      done, found, left, grown, i, p := PrepareVacancy(key, hash, searched, exact, hashes, leg, step);
      prepared := Snap();
      if !done {
        return None, None, prepared, Snap();
      }
      walked := if !grown && found.Some? then Some(found.value.slot) else None;
      var fs := MembershipSlot(hash);
      slot, mid := PlaceAbsentAfterSearch(key, value, hash, fs, found, left, i, p);
      CarriedOn(env, d, before, prepared, mid);
    }

    static lemma CarriedOn(env: Env<K>, d: nat, before: State<K, V>, between: State<K, V>, after: State<K, V>)
      requires Carried(env, d, before, between) && Carried(env, d, between, after)
      ensures Carried(env, d, before, after)
    {
      hide LaidOut, Inv, Intact, MapOf, EntriesRecorded;
    }

    /** The key is in two live slots: the one it had in `mid`, and another. */
    ghost predicate StoredTwice(mid: State<K, V>, key: K)
      reads this, ctrl, data
    {
      key in mid.at && key in at && HeldTwice(ctrl[..], data[..], key, mid.at[key], at[key])
    }

    /** What the table is once a key has been written: with a new key, the map gains it; with one that was
        stored all along, no slot map makes the table sound. */
    lemma Written(before: State<K, V>, mid: State<K, V>, key: K, value: V)
      requires d < U32_LIMIT && Carried(env, d, before, mid) && Put(env, mid, Snap(), key, value)
      ensures key in at && at[key] < ctrl.Length && at[key] < data.Length && ctrl[at[key]].Full?
              && data[at[key]] == Entry(key, value)
      ensures key !in before.at ==> Sound() && M() == MapOf(env, before)[key := value]
      ensures key !in before.at && Inv(env, before) ==> Valid()
      ensures key !in before.at && EntriesRecorded(env, before) ==> Recording()
      ensures key in before.at ==> StoredTwice(mid, key) && !Sound()
    {
      hide LaidOut, Inv, Intact, Valid, Sound, M, MapOf, SlotBit, Target, Record, Recording, EntriesRecorded,
           HeldTwice;
      PutMeans(env, mid, Snap(), key, value);
      RecordingIs(Snap());
      assert Snap().ctrl == ctrl[..] && Snap().data == data[..];
      if key in before.at {
        NotSound(key, mid.at[key], at[key]);
      } else {
        Represents(Snap(), MapOf(env, Snap()));
      }
    }

    /** A write in an epoch it does not make exceptional, read field by field. */
    static lemma PutIsWrote(env: Env<K>, before: State<K, V>, after: State<K, V>, key: K, value: V)
      requires Put(env, before, after, key, value) && after.exceptional == before.exceptional
      ensures Wrote(env, before, after, after.at[key], key, value) && after.at == before.at[key := after.at[key]]
      ensures after.shape == before.shape && after.seed == before.seed && after.tombstones <= before.tombstones
    {
      hide SlotBit, Record, VacancyAt;
    }

    /** With a key in two live slots, no slot map makes the table sound. */
    lemma NotSound(key: K, s: nat, s': nat)
      requires HeldTwice(ctrl[..], data[..], key, s, s')
      ensures !Sound()
    {
      hide LaidOut, Stored, HeldTwice;
      if Sound() {
        StoredOf(env, Snap());
        TwiceIsNotStored(ctrl[..], data[..], env.keys, at, key, s, s');
      }
    }

    /** Inserts a key the search has not found, and what that makes of the table: an absent key joins the map,
        and a stored one is in two live slots. */
    method InsertMissed(key: K, value: V, hash: Word, searched: bool, exact: SearchResult, hashes: nat,
                        ghost leg: nat, ghost step: nat)
        returns (slot: Option<nat>, ghost walked: Option<nat>, ghost prepared: State<K, V>, ghost mid: State<K, V>)
      requires (Valid() || Sound()) && hash == env.keys.hash(key)
      requires searched ==> shape.n > 0 && SearchedFor(key, exact, leg, step)
      modifies this, ctrl, data, filter
      ensures fresh(Repr() - old(Repr()))
      ensures slot.None? ==> Sound() && M() == old(M()) && (old(Valid()) ==> Valid())
      ensures slot.None? && old(Recording()) ==> Recording()
      ensures slot.Some? ==> Carried(env, d, old(Snap()), mid) && Put(env, mid, Snap(), key, value)
      ensures slot.Some? ==> slot.value < ctrl.Length && slot.value < data.Length && ctrl[slot.value].Full?
                             && data[slot.value] == Entry(key, value)
      ensures slot.Some? && key !in old(at) ==> Sound() && M() == old(M())[key := value] && (old(Valid()) ==> Valid())
      ensures slot.Some? && key !in old(at) && old(Recording()) ==> Recording()
      ensures slot.Some? && key in old(at) ==> StoredTwice(mid, key) && !Sound()
      ensures walked.Some? ==> slot == walked && FirstFreeOnWalk(env, old(Snap()), key, walked.value)
                               && at == old(at)[key := walked.value] && SameEpoch() && mid == old(Snap())
      ensures walked.Some? ==> Wrote(env, old(Snap()), Snap(), walked.value, key, value) && stale == old(stale)
      ensures walked.None? ==> old(len >= shape.maxInsertions) || NoneFreeOnWalk(env, old(Snap()), key)
      ensures Inserts(env, d, old(Snap()), hashes, prepared, mid, Snap(), key, value, slot.Some?)
      ensures slot.None? ==> len == old(len)
    {
      hide LaidOut, Inv, Intact, Valid, Sound, M, MapOf, WordCount, TightFilter, SlotBit, FirstFreeOnWalk,
           NoneFreeOnWalk, SearchedFor, Wrote, Recording, EntriesRecorded, Carried, Put, StoredTwice, Inserts;
      ghost var before := Snap();
      Facts();
      RecordingIs(before);
      slot, walked, prepared, mid := InsertSearched(key, value, hash, searched, exact, hashes, leg, step);
      if slot.None? {
        Unchanged(before);
        return;
      }
      Written(before, mid, key, value);
      if walked.Some? {
        PutIsWrote(env, before, Snap(), key, value);
      }
    }

    /** The search before an insertion: the gate, then the duplicate search if the key passes. It finds
        exactly the stored keys that are not rejected. */
    method SearchGated(key: K, hash: Word, clean: bool)
        returns (hit: Option<nat>, searched: bool, exact: SearchResult, ghost i: nat, ghost p: nat)
      requires (Valid() || Sound()) && hash == env.keys.hash(key) && (clean ==> tombstones == 0)
      ensures hit.Some? <==> key in at && Passes(key)
      ensures (Valid() || Recording()) && key in at ==> hit.Some?
      ensures hit.Some? ==> hit.value < ctrl.Length && hit.value < data.Length && ctrl[hit.value].Full?
                            && data[hit.value].Entry? && data[hit.value].key == key
      ensures searched <==> Passes(key)
      ensures searched ==> shape.n > 0
      ensures searched && hit.None? ==> SearchedFor(key, exact, i, p)
    {
      hide LaidOut, Inv, Intact, Valid, Sound, M, SlotBit, FullScan, SearchedFor, Recording, Passes;
      Facts();
      if key in at {
        NotRejected(key);
      }
      var fs := MembershipSlot(hash);
      var levels;
      searched, levels := Gate(key, fs);
      hit, exact, i, p := None, SearchResult.Full, 0, 0;
      if searched {
        hit, exact, i, p := SearchDuplicate(key, hash, env.keys.fingerprint(hash), clean);
      }
    }

    /** `insert`, on any table with its entries in place. On a valid one the map is afterwards the old one
        with the key bound to the value, unless a rebuild unwound, which leaves the map as it was. A new key
        goes to the first free slot of its walk, `walked`, with nothing else changed, unless the table must
        first grow or the walk has none. `Inserts` says what happens then, and exactly when the insertion
        unwinds, for a hasher that survives `hashes` keys of its rebuilds: with enough of them only where the
        table is full and no larger one exists.
        Where the filter may have lost keys, its bits decide. A stored key that it passes is replaced, since
        no level bin narrows the duplicate search. One that it rejects is taken for absent and written a
        second time, into `mid`, the same entries after any growth or rebuild: then the key is in two live
        slots, and no slot map makes the table sound. */
    method Insert(key: K, value: V, hashes: nat)
        returns (r: Inserted<V>, ghost walked: Option<nat>, ghost prepared: State<K, V>, ghost mid: State<K, V>)
      requires Valid() || Sound()
      modifies this, ctrl, data, filter
      ensures fresh(Repr() - old(Repr()))
      ensures old(Valid()) ==> Valid() && M() == if r.Unwound? then old(M()) else old(M())[key := value]
      ensures r.Replaced? <==> key in old(M()) && old(Passes(key))
      ensures old(Valid()) && key in old(M()) ==> r.Replaced?
      ensures r.Replaced? ==> r.previous == old(M())[key] && at == old(at) && SameEpoch()
      ensures r.Replaced? || (r.New? && key !in old(M())) ==> Sound() && M() == old(M())[key := value]
      ensures r.Unwound? ==> Sound() && M() == old(M())
      ensures r.New? ==> Carried(env, d, old(Snap()), mid) && Put(env, mid, Snap(), key, value)
      ensures r.New? && key in old(M()) ==> StoredTwice(mid, key) && !Sound()
      ensures walked.Some? ==> r.New? && FirstFreeOnWalk(env, old(Snap()), key, walked.value)
                               && at == old(at)[key := walked.value] && SameEpoch() && mid == old(Snap())
      ensures walked.None? && !r.Replaced? ==> old(len >= shape.maxInsertions)
                                               || NoneFreeOnWalk(env, old(Snap()), key)
      ensures walked.Some? ==> Wrote(env, old(Snap()), Snap(), walked.value, key, value) && stale == old(stale)
      ensures !r.Replaced? ==> Inserts(env, d, old(Snap()), hashes, prepared, mid, Snap(), key, value, r.New?)
      ensures r.Unwound? && 2 * old(len) <= hashes ==>
                old(len >= shape.maxInsertions && !Growable(d, shape.maxInsertions, SaturatingAdd(len, 1)))
      ensures old(Recording()) ==> Recording()
    {
      hide LaidOut, Inv, Intact, Valid, Sound, M, MapOf, FirstFreeOnWalk, NoneFreeOnWalk, SearchedFor, Wrote,
           Recording, EntriesRecorded, Carried, Put, Passes, StoredTwice, Snap, Inserts;
      KeysOfMap();
      ghost var before := Snap();
      Fields(before);
      var hash := env.keys.hash(key);
      var hit, searched, exact;
      ghost var i, p;
      hit, searched, exact, i, p := SearchGated(key, hash, tombstones == 0);
      if hit.Some? {
        var previous := ReplaceValue(hit.value, value);
        return Replaced(previous), None, before, Snap();
      }
      var slot;
      slot, walked, prepared, mid := InsertMissed(key, value, hash, searched, exact, hashes, i, p);
      r := if slot.Some? then New else Unwound;
      if slot.None? {
        Fields(Snap());
        WhyUnwound(before, hashes, prepared, mid, key, value);
      }
    }

    lemma Fields(st: State<K, V>)
      requires Snap() == st
      ensures st.len == len && st.shape == shape
    {
    }

    /** An insertion whose hasher survives every entry twice unwinds only where growth is due and no larger
        table exists. */
    lemma WhyUnwound(before: State<K, V>, hashes: nat, prepared: State<K, V>, mid: State<K, V>, key: K, value: V)
      requires Inserts(env, d, before, hashes, prepared, mid, Snap(), key, value, false)
               && Snap().len == before.len
      ensures 2 * before.len <= hashes ==>
                before.len >= before.shape.maxInsertions
                && !Growable(d, before.shape.maxInsertions, SaturatingAdd(before.len, 1))
    {
      hide Roomy, ReseedDue, Growable;
    }

    /** A generation that carries the same entries stands for the same map. */
    lemma Unchanged(before: State<K, V>)
      requires d < U32_LIMIT && Carried(env, d, before, Snap())
      ensures Sound() && M() == MapOf(env, before) && (Inv(env, before) ==> Valid())
      ensures EntriesRecorded(env, before) ==> Recording()
    {
      hide LaidOut, Inv, Intact, MapOf, Valid, Sound, M, Recording, EntriesRecorded;
      Represents(Snap(), MapOf(env, Snap()));
      RecordingIs(Snap());
    }

    lemma KeysOfMap()
      requires Valid() || Sound()
      ensures M().Keys == at.Keys
    {
      hide LaidOut, EntriesPlaced, EntriesAdmitted, SoundEnv, Sized;
    }

    // ---- Entries ----

    /** Entry-side lookup: the key's slot, or a token that carries what the walk learned. On a table whose
        filter has lost keys it misses exactly the stored keys that are rejected. */
    method FindForEntry(key: K) returns (r: Result<nat, FunnelVacant>, ghost i: nat, ghost p: nat)
      requires Valid() || Sound()
      ensures r.Ok? <==> key in M() && Passes(key)
      ensures Valid() && key in M() ==> r.Ok?
      ensures r.Ok? ==> r.value < ctrl.Length && r.value < data.Length && ctrl[r.value].Full?
                        && data[r.value] == Entry(key, M()[key])
      ensures r.Err? ==> TokenFor(key, r.error, i, p)
    {
      hide LaidOut, Inv, Intact, Valid, Sound, M, VacancyAt, NoVacancy, Recording, Passes;
      KeysOfMap();
      var hash := env.keys.hash(key);
      var hit, searched, exact;
      hit, searched, exact, i, p := SearchGated(key, hash, false);
      if hit.Some? {
        LiveEntry(hit.value);
        return Ok(hit.value), i, p;
      }
      var learned := if !searched then Unsearched else if exact.Vacant? then At(exact.slot) else Exhausted;
      r := Err(FunnelVacant(hash, learned));
    }

    /** A token describes the present table: its key was not found, and a searched token names the walk's
        vacancy or its exhaustion. */
    ghost predicate TokenFor(key: K, token: FunnelVacant, i: nat, p: nat)
      reads this, ctrl, data, filter
    {
      && (key in at ==> !Passes(key)) && token.hash == env.keys.hash(key)
      && (!token.exact.Unsearched? ==> shape.n > 0)
      && (token.exact.At? ==> VacancyAt(ctrl[..], WalkOf(env, Snap(), key), token.exact.slot, i, p))
      && (token.exact.Exhausted? ==> NoVacancy(ctrl[..], WalkOf(env, Snap(), key)))
    }

    /** `insert_for_vacant`: inserts a key with what its search kept, and returns the slot; `None` is an
        unwind that leaves the map as it was. A key the search missed though it was stored is written a second
        time, as in `Insert`. */
    method InsertForVacant(key: K, value: V, token: FunnelVacant, hashes: nat, ghost i: nat, ghost p: nat)
        returns (r: Option<nat>, ghost prepared: State<K, V>, ghost mid: State<K, V>)
      requires (Valid() || Sound()) && TokenFor(key, token, i, p)
      modifies this, ctrl, data, filter
      ensures fresh(Repr() - old(Repr()))
      ensures old(Valid()) ==> Valid() && M() == if r.Some? then old(M())[key := value] else old(M())
      ensures r.Some? ==> r.value < ctrl.Length && r.value < data.Length && ctrl[r.value].Full?
                          && data[r.value] == Entry(key, value)
      ensures r.Some? && key !in old(M()) ==> Sound() && M() == old(M())[key := value]
      ensures r.Some? && key in old(M()) ==> StoredTwice(mid, key) && !Sound()
      ensures r.Some? ==> Carried(env, d, old(Snap()), mid) && Put(env, mid, Snap(), key, value)
      ensures r.None? ==> Sound() && M() == old(M())
      ensures Inserts(env, d, old(Snap()), hashes, prepared, mid, Snap(), key, value, r.Some?)
      ensures old(Recording()) ==> Recording()
    {
      hide LaidOut, Inv, Intact, Valid, Sound, M, MapOf, FirstFreeOnWalk, NoneFreeOnWalk, VacancyAt, NoVacancy,
           WordCount, TightFilter, SlotBit, Put, Recording, EntriesRecorded, Carried, Passes, StoredTwice, Wrote,
           Inserts;
      KeysOfMap();
      if key in at {
        NotRejected(key);
      }
      var exact := if token.exact.At? then SearchResult.Vacant(token.exact.slot) else SearchResult.Full;
      ghost var walked;
      r, walked, prepared, mid := InsertMissed(key, value, token.hash, !token.exact.Unsearched?, exact, hashes, i, p);
    }

    /** The filter of a valid table passes every stored key. */
    lemma NotRejected(key: K)
      requires (Valid() || Sound()) && key in at
      ensures Valid() || Recording() ==> Passes(key)
    {
      hide LaidOut, Intact, SlotBit;
    }

    // ---- Removal ----

    /** Moves a live entry out of its slot and leaves a tombstone. */
    method TakeOut(slot: nat) returns (key: K, value: V)
      requires (Valid() || Sound()) && slot < ctrl.Length && ctrl[slot].Full?
      modifies this, ctrl
      ensures Sound() && (old(Valid()) ==> Valid()) && slot < data.Length && data[slot] == Entry(key, value)
      ensures key in old(M()) && value == old(M())[key] && M() == old(M()) - {key}
      ensures ctrl == old(ctrl) && data == old(data) && filter == old(filter) && shape == old(shape)
              && seed == old(seed)
      ensures ctrl[..] == old(ctrl[..])[slot := Tombstone] && at == old(at) - {key} && old(at[key]) == slot
      ensures len == old(len) - 1 && tombstones == old(tombstones) + 1 && stale == old(stale)
              && exceptional == old(exceptional)
      ensures old(Snap()).data[slot].Entry? && old(len) > 0 && Snap() == Vacate(old(Snap()), slot)
      ensures old(Recording()) ==> Recording()
    {
      hide LaidOut, Inv, Intact, Valid, Sound, M, MapOf, Recording, EntriesRecorded;
      Facts();
      LiveEntry(slot);
      ghost var before := Snap();
      RecordingIs(before);
      key, value := data[slot].key, data[slot].value;
      ctrl[slot] := Tombstone;
      len := len - 1;
      tombstones := tombstones + 1;
      at := at - {key};
      assert Snap() == Vacate(before, slot);
      Vacated(before, slot);
    }

    /** What the table is once a live slot of `before` is a tombstone. */
    lemma Vacated(before: State<K, V>, slot: nat)
      requires d < U32_LIMIT && LaidOut(before.shape.n, d, before.shape) && Intact(env, before)
      requires slot < |before.ctrl| && slot < |before.data| && before.ctrl[slot].Full? && before.data[slot].Entry?
               && before.len > 0 && Snap() == Vacate(before, slot)
      ensures Sound() && M() == MapOf(env, before) - {before.data[slot].key} && (Inv(env, before) ==> Valid())
      ensures EntriesRecorded(env, before) ==> Recording()
    {
      hide LaidOut, Inv, Intact, Valid, Sound, M, MapOf, Recording, EntriesRecorded;
      VacateKeepsIntact(env, before, slot);
      if Inv(env, before) {
        VacateKeepsInv(env, before, slot);
      }
      VacateKeepsRecords(env, before, slot);
      Represents(Snap(), MapOf(env, Snap()));
      RecordingIs(Snap());
    }

    /** `extract_finish` after moving the entry out: the slot becomes a tombstone and the delete is
        counted, with cleanup deferred. */
    method Extract(slot: nat) returns (key: K, value: V)
      requires (Valid() || Sound()) && slot < ctrl.Length && ctrl[slot].Full?
      modifies this, ctrl
      ensures Sound() && (old(Valid()) ==> Valid())
      ensures key in old(M()) && value == old(M())[key] && M() == old(M()) - {key}
      ensures slot < data.Length && data[slot] == Entry(key, value) && old(at[key]) == slot
      ensures ctrl == old(ctrl) && data == old(data) && filter == old(filter) && shape == old(shape)
      ensures ctrl[..] == old(ctrl[..])[slot := Tombstone] && at == old(at) - {key} && stale == old(stale) + 1
      ensures old(Snap()).data[slot].Entry? && old(len) > 0 && Snap() == Vacate(old(Snap()), slot)
      ensures old(Recording()) ==> Recording()
    {
      hide LaidOut, Inv, Intact, Valid, Sound, M, Recording, EntriesRecorded;
      key, value := TakeOut(slot);
      Facts();
      ghost var after := Snap();
      RecordingIs(after);
      stale := stale + 1;
      Represents(after, MapOf(env, after));
      RecordingIs(Snap());
    }

    lemma NothingPassed(before: State<K, V>)
      ensures Marks(env, before, Moved(before.at, 0)) == {} && Moved(before.at, 0) == {}
    {
      assert Moved(before.at, 0) == {};
    }

    static lemma AllPassed(before: State<K, V>, passed: nat)
      requires Source(before, before.ctrl, before.data) && forall s :: passed <= s < |before.ctrl| ==>
               !before.ctrl[s].Full?
      ensures Moved(before.at, passed) == before.at.Keys
    {
    }

    static lemma BitSmall(shape: FunnelShape, slot: nat)
      ensures SlotBit(shape, slot) <= LAST_BIT
    {
    }

    method ClearMembership()
      modifies filter
      ensures forall i :: 0 <= i < filter.Length ==> filter[i] == CLEAR_WORD
      ensures ValidFilter(filter[..]) && Reflects(filter[..], {})
    {
      forall i | 0 <= i < filter.Length {
        filter[i] := CLEAR_WORD;
      }
      ClearReflects(filter[..]);
    }

    /** Records one live entry of `before` in the filter being rebuilt. */
    method RecordSlot(slot: nat, ghost before: State<K, V>, ghost passed: nat)
      requires Intact(env, before) && Source(before, before.ctrl, before.data) && before.shape == shape
      requires data[..] == before.data && filter.Length == |before.filter|
      requires passed <= slot < |before.data| && slot < |before.ctrl| && before.ctrl[slot].Full?
      requires forall s :: passed <= s < slot ==> !before.ctrl[s].Full?
      requires ValidFilter(filter[..]) && Reflects(filter[..], Marks(env, before, Moved(before.at, passed)))
      modifies filter
      ensures ValidFilter(filter[..]) && Reflects(filter[..], Marks(env, before, Moved(before.at, slot + 1)))
    {
      hide LaidOut, Reflects, Marks, Moved, SlotBit, ValidFilter, Stored, EntriesPlaced, EntriesAdmitted;
      var key := data[slot].key;
      var hash := env.keys.hash(key);
      var fs := MembershipSlot(hash);
      MovedStep(before.ctrl, before.data, before.at, passed, slot);
      MarksGrow(env, before, Moved(before.at, passed), key);
      FilterReady(env, before, key);
      var bit := SlotBit(shape, slot);
      ghost var words := filter[..];
      BitSmall(shape, slot);
      FourBins(words, fs.index);
      RecordKeeps(words, fs, bit, fs, bit);
      RecordReflects(words, Marks(env, before, Moved(before.at, passed)), fs, bit);
      filter[fs.index] := RecordWord(filter[fs.index], fs, bit);
      assert filter[..] == Record(words, fs, bit);
    }

    /** `refresh_membership` under a user hasher that panics on its `hashes + 1`-st key: re-records the
        filter from the live entries in slot order. Nothing but the filter changes. It completes if the
        keys are few enough, and otherwise leaves a filter of exactly the keys before slot `stop`, whose
        own hash panicked. Then the table stays valid if and only if those keys covered all later ones. */
    method RefreshMembership(hashes: nat) returns (done: bool, ghost stop: nat)
      requires Valid() || Sound()
      modifies this`stale, filter
      ensures Sound() && M() == old(M()) && stale == 0 && RefreshedUpTo(env, old(Snap()), Snap(), stop)
      ensures done <==> |at| <= hashes
      ensures done ==> Valid() && TightFilter()
      ensures !done ==> |Moved(at, stop)| == hashes && exists k :: k in at && at[k] == stop
      ensures Valid() <==> Covered(env, old(Snap()), stop)
      ensures done ==> Recording()
    {
      hide LaidOut, Intact, Sound, M, MapOf, Tight, Reflects, Marks, Moved, SlotBit, Record, ValidFilter, FilterSlotOf,
           Covered, RefreshedUpTo, Source, Recording;
      Facts();
      ghost var before, words := Snap(), filter[..];
      ClearMembership();
      stale := 0;
      NothingPassed(before);
      var hashed := 0;
      var scan := new OccupiedIndices();
      while true
        invariant fresh(scan) && scan.Valid(ctrl[..], data.Length) && scan.next <= data.Length + GROUP
        invariant ctrl[..] == before.ctrl && data[..] == before.data && filter.Length == |words| && stale == 0
        invariant ValidFilter(filter[..]) && Reflects(filter[..], Marks(env, before, Moved(before.at, scan.next)))
        invariant |Moved(before.at, scan.next)| == hashed <= hashes
        decreases data.Length + GROUP + 1 - scan.next
      {
        ghost var passed := scan.next;
        ScanReady(before);
        var slot := scan.Step(ctrl, 0, data.Length, true);
        if slot.None? {
          AllPassed(before, passed);
          stop, done := passed, true;
          break;
        }
        AtSlot(before, passed, slot.value);
        if hashed == hashes {
          stop, done := slot.value, false;
          break;
        }
        RecordSlot(slot.value, before, passed);
        hashed := hashed + 1;
      }
      Refreshed(before, stop, done);
    }

    /** The controls are in shape for an occupancy scan. */
    lemma ScanReady(before: State<K, V>)
      requires Source(before, before.ctrl, before.data) && ctrl[..] == before.ctrl && data[..] == before.data
      ensures data.Length == 0 || data.Length + GROUP <= ctrl.Length + 1
      ensures forall s :: 0 <= s < ctrl.Length ==> Proper(ctrl[s]) && (s >= data.Length ==> !ctrl[s].Full?)
    {
      assert forall s :: 0 <= s < ctrl.Length ==> ctrl[s] == ctrl[..][s];
    }

    /** The next live slot of a scan, counted. */
    static lemma AtSlot(before: State<K, V>, passed: nat, slot: nat)
      requires Source(before, before.ctrl, before.data) && passed <= slot < |before.data| && slot < |before.ctrl|
               && before.ctrl[slot].Full?
      requires forall x :: passed <= x < slot ==> !before.ctrl[x].Full?
      ensures Moved(before.at, slot) == Moved(before.at, passed)
              && |Moved(before.at, slot + 1)| == |Moved(before.at, passed)| + 1
      ensures |Moved(before.at, slot)| < |before.at| && exists k :: k in before.at && before.at[k] == slot
    {
      hide Moved;
      MovedStep(before.ctrl, before.data, before.at, passed, slot);
      MovedSkip(before.ctrl, before.data, before.at, passed, slot);
      MovedCount(before.at, passed, before.data[slot].key, slot);
      MovedFewer(before.at, slot, before.data[slot].key);
    }

    /** What a refresh that stopped at `stop` has made of the table. */
    lemma Refreshed(before: State<K, V>, stop: nat, done: bool)
      requires d < U32_LIMIT && LaidOut(before.shape.n, d, before.shape) && Intact(env, before)
      requires Snap() == before.(filter := filter[..]) && filter.Length == |before.filter| && ValidFilter(filter[..])
      requires Reflects(filter[..], Marks(env, before, Moved(before.at, stop)))
      requires done ==> Moved(before.at, stop) == before.at.Keys
      ensures RefreshedUpTo(env, before, Snap(), stop) && Sound() && M() == MapOf(env, before)
      ensures Valid() <==> Covered(env, before, stop)
      ensures done ==> Valid() && TightFilter() && Recording()
    {
      hide LaidOut, Intact, MapOf, Tight, Reflects, Marks, Moved, SlotBit, ValidFilter, Covered;
      RefreshMeaning(env, before, Snap(), stop);
      if done {
        RefreshComplete(env, before, Snap(), stop);
        TightIsRecording();
        RecordingIsValid();
      }
    }

    /** Tombstones and counted deletes are within their thresholds. */
    ghost predicate Tidy()
      reads this
    {
      tombstones <= CleanupThreshold(shape.n) && stale <= RefreshDeletes(shape.maxInsertions)
    }

    /** Same-size cleanup once tombstones pass their threshold, otherwise a filter refresh once
        departed keys pass theirs, otherwise nothing. An unwind out of the cleanup changes nothing; one
        out of the refresh, `cut`, leaves a filter of the keys before that slot. Either unwinds exactly if it is
        due and the hasher does not survive the entries. */
    method SettleAfterDeletes(hashes: nat) returns (done: bool, ghost cut: Option<nat>)
      requires Valid() || Sound()
      modifies this, filter
      ensures Sound() && fresh(Repr() - old(Repr())) && M() == old(M()) && at.Keys == old(at).Keys && len == old(len)
      ensures shape.n == old(shape.n)
      ensures cut.None? && old(Valid()) ==> Valid()
      ensures done && !old(Tidy()) ==> Valid() && Recording()
      ensures cut.None? ==> (done <==> Tidy())
      ensures done ==> cut.None?
      ensures !done && cut.None? ==> Snap() == old(Snap()) && stale == old(stale)
                                     && old(tombstones) > CleanupThreshold(shape.n)
      ensures cut.Some? ==> RefreshedUpTo(env, old(Snap()), Snap(), cut.value) && stale == 0
                            && old(tombstones) <= CleanupThreshold(old(shape).n)
                            && old(stale) > RefreshDeletes(old(shape).maxInsertions)
                            && (Valid() <==> Covered(env, old(Snap()), cut.value))
      ensures old(Tidy()) ==>
                done && Snap() == old(Snap()) && ctrl == old(ctrl) && data == old(data) && filter == old(filter)
                  && stale == old(stale)
      ensures done <==> old(Tidy()) || old(len) <= hashes
      ensures done && old(tombstones) > CleanupThreshold(old(shape).n) ==>
                Rebuilt(env, old(Snap()), shape, old(seed), Snap())
      ensures old(Recording()) && cut.None? ==> Recording()
    {
      hide LaidOut, Inv, Intact, Valid, Sound, M, MapOf, TightFilter, CleanupThreshold, Plannable, MaxInsertions,
           ValidShape, Covered, RefreshedUpTo, Recording, Rebuilt;
      Facts();
      cut := None;
      if tombstones > CleanupThreshold(shape.n) {
        SameSizePlannable();
        done := ResizeWithTransition(shape.n, seed, hashes);
      } else if stale > RefreshDeletes(shape.maxInsertions) {
        ghost var stop;
        done, stop := RefreshMembership(hashes);
        KeptKeys(old(Snap()), stop);
        if !done {
          cut := Some(stop);
        }
      } else {
        done := true;
      }
    }

    lemma IntactOfSound()
      requires Valid() || Sound()
      ensures Intact(env, Snap())
    {
      hide LaidOut, Intact;
    }

    lemma ValidIsSound()
      requires Valid()
      ensures Sound()
    {
      hide LaidOut, Intact, EntriesAdmitted;
    }

    lemma KeptKeys(before: State<K, V>, stop: nat)
      requires RefreshedUpTo(env, before, Snap(), stop)
      ensures at == before.at && len == before.len && shape == before.shape && tombstones == before.tombstones
    {
    }

    /** `remove` at a live location: the key leaves the map and nothing else does, whether or not the
        cleanup behind it completes. Only an unwind out of a filter refresh, `cut`, can leave the table
        less than valid, and does so exactly when keys past that slot were not covered. */
    method Remove(slot: nat, hashes: nat) returns (key: K, value: V, settled: bool, ghost cut: Option<nat>)
      requires (Valid() || Sound()) && slot < ctrl.Length && ctrl[slot].Full?
      modifies this, ctrl, filter
      ensures Sound() && fresh(Repr() - old(Repr()))
      ensures key in old(M()) && value == old(M())[key] && M() == old(M()) - {key} && old(at[key]) == slot
      ensures cut.None? && old(Valid()) ==> Valid()
      ensures settled && (old(tombstones) >= CleanupThreshold(old(shape).n)
                          || old(stale) >= RefreshDeletes(old(shape).maxInsertions)) ==>
                Valid() && Recording()
      ensures settled ==> cut.None?
      ensures cut.None? ==> (settled <==> Tidy())
      ensures slot < |old(data[..])| && old(Snap()).data[slot] == Entry(key, value) && old(len) > 0
      ensures cut.Some? ==> RefreshedUpTo(env, Vacate(old(Snap()), slot), Snap(), cut.value)
                            && (Valid() <==> Covered(env, Vacate(old(Snap()), slot), cut.value))
      ensures old(tombstones) < CleanupThreshold(old(shape).n)
              && old(stale) < RefreshDeletes(old(shape).maxInsertions) ==>
                settled && Snap() == Vacate(old(Snap()), slot) && stale == old(stale) + 1
                && ctrl == old(ctrl) && data == old(data) && filter == old(filter)
      ensures settled <==> (old(tombstones) < CleanupThreshold(old(shape).n)
                            && old(stale) < RefreshDeletes(old(shape).maxInsertions))
                           || old(len) <= hashes + 1
      ensures old(Recording()) && cut.None? ==> Recording()
    {
      hide LaidOut, Inv, Intact, Valid, Sound, M, CleanupThreshold, Covered, RefreshedUpTo, Recording, Rebuilt;
      key, value := Extract(slot);
      settled, cut := SettleAfterDeletes(hashes);
    }

    // ---- Clearing ----

    /** The table holds what is left of a map once every slot before `next` is vacated. */
    ghost predicate Left(full: map<K, nat>, m: map<K, V>, next: nat)
      reads this, ctrl, data, filter
    {
      Sound() && at == Remaining(full, full, next) && M() == Remaining(m, full, next)
    }

    lemma AllLeft()
      requires Valid() || Sound()
      ensures Left(at, M(), 0)
    {
      hide LaidOut, Inv, Intact, Valid, Sound, M;
      Facts();
      KeysOfMap();
    }

    /** No slot between `passed` and `slot` is live, so nothing there was left. */
    lemma LeftBetween(full: map<K, nat>, m: map<K, V>, passed: nat, slot: nat)
      requires Left(full, m, passed) && passed <= slot < ctrl.Length && m.Keys == full.Keys
      requires forall s :: passed <= s < slot ==> !ctrl[s].Full?
      ensures forall k :: k in full && full[k] >= passed ==>
                full[k] > slot || (full[k] == slot < data.Length && Holds(data[slot], k))
    {
      hide LaidOut, Inv, Intact, Valid, Sound, M, MapOf;
      Facts();
      forall k | k in full && full[k] >= passed
        ensures full[k] > slot || (full[k] == slot < data.Length && Holds(data[slot], k))
      {
        assert k in at;
        assert LiveAt(ctrl[..], data[..], k, at[k]);
      }
    }

    /** A value's destructor, of which `drops` return before one panics, `false`. */
    method DropValue(value: V, dropped: nat, drops: nat) returns (survived: bool)
      ensures survived <==> dropped < drops
    {
      survived := dropped < drops;
    }

    /** Vacates one live slot, then drops its value. */
    method DropSlot(slot: nat, dropped: nat, drops: nat, ghost full: map<K, nat>, ghost m: map<K, V>,
                    ghost passed: nat)
        returns (survived: bool)
      requires Left(full, m, passed) && passed <= slot < ctrl.Length && ctrl[slot].Full? && m.Keys == full.Keys
      requires forall s :: passed <= s < slot ==> !ctrl[s].Full?
      modifies this, ctrl
      ensures Left(full, m, slot + 1) && (survived <==> dropped < drops)
      ensures |Moved(full, slot + 1)| == |Moved(full, passed)| + 1 && (exists k :: k in full && full[k] == slot)
      ensures |Moved(full, passed)| < |full|
      ensures ctrl == old(ctrl) && data == old(data) && filter == old(filter) && shape == old(shape)
      ensures ctrl[..] == old(ctrl[..])[slot := Tombstone]
      ensures old(Valid()) ==> Valid()
      ensures old(Recording()) ==> Recording()
    {
      hide LaidOut, Inv, Intact, Valid, Sound, M, Recording;
      LiveEntry(slot);
      LeftBetween(full, m, passed, slot);
      var key, value := TakeOut(slot);
      assert forall k :: k in full && full[k] >= passed && k != key ==> full[k] > slot;
      MovedOne(full, passed, slot, key);
      survived := DropValue(value, dropped, drops);
    }

    /** `clear`: each value's slot becomes a tombstone before the value drops, and controls reset
        only after the last drop. `done` is false exactly if values need dropping and fewer than all of
        them, `drops`, survive it; then exactly the entries at or past slot `kept` are still in the map:
        those dropped, and the one that panicked right before that slot, have left it. */
    method Clear(needsDrop: bool, drops: nat) returns (done: bool, ghost kept: nat)
      requires Valid() || Sound()
      modifies this, ctrl, filter
      ensures Sound() && (old(Valid()) || done ==> Valid())
      ensures ctrl == old(ctrl) && data == old(data) && filter == old(filter) && shape == old(shape)
      ensures done ==> M() == map[] && TightFilter() && len == 0 && tombstones == 0 && stale == 0 && !exceptional
      ensures done ==> forall s :: 0 <= s < ctrl.Length ==> ctrl[s] == Empty
      ensures done <==> !needsDrop || old(len) <= drops
      ensures !done ==> M() == Remaining(old(M()), old(at), kept) && CutAfter(old(at), kept, drops)
      ensures old(Recording()) ==> Recording()
    {
      hide LaidOut, Inv, Intact, Valid, Sound, M, Left, TightFilter, Remaining, Recording, CutAfter;
      kept := 0;
      if needsDrop {
        done, kept := DropAll(drops);
        if !done {
          return;
        }
      }
      WipeAll();
      ValidIsSound();
      done := true;
    }

    /** Drops every value in slot order; `done` is false when a drop panicked. */
    method DropAll(drops: nat) returns (done: bool, ghost kept: nat)
      requires Valid() || Sound()
      modifies this, ctrl
      ensures Sound() && (old(Valid()) ==> Valid())
      ensures ctrl == old(ctrl) && data == old(data) && filter == old(filter) && shape == old(shape)
      ensures done <==> old(len) <= drops
      ensures !done ==> M() == Remaining(old(M()), old(at), kept) && CutAfter(old(at), kept, drops)
      ensures old(Recording()) ==> Recording()
    {
      hide LaidOut, Inv, Intact, Valid, Sound, M, Left, Remaining, Recording, Moved;
      KeysOfMap();
      LenFits();
      AllLeft();
      var dropped := 0;
      NoneMoved(at);
      ghost var full, m := at, M();
      var scan := new OccupiedIndices();
      while true
        invariant fresh(scan) && Left(full, m, scan.next) && scan.Valid(ctrl[..], data.Length)
                  && scan.next <= data.Length + GROUP
        invariant |Moved(full, scan.next)| == dropped <= drops
        invariant ctrl == old(ctrl) && data == old(data) && filter == old(filter) && shape == old(shape)
        invariant (old(Valid()) ==> Valid()) && (old(Recording()) ==> Recording())
        decreases data.Length + GROUP + 1 - scan.next
      {
        LeftFacts(full, m, scan.next);
        Scannable();
        ghost var passed := scan.next;
        var slot := scan.Step(ctrl, 0, data.Length, true);
        if slot.None? {
          AllDropped(full, m, passed);
          return true, 0;
        }
        ghost var before := ctrl[..];
        var survived := DropSlot(slot.value, dropped, drops, full, m, passed);
        scan.StillValid(before, ctrl[..], data.Length);
        if !survived {
          LeftFacts(full, m, scan.next);
          return false, scan.next;
        }
        dropped := dropped + 1;
      }
    }

    /** With nothing live left, every key has been passed. */
    lemma AllDropped(full: map<K, nat>, m: map<K, V>, next: nat)
      requires Left(full, m, next) && forall s :: next <= s < data.Length && s < ctrl.Length ==> !ctrl[s].Full?
      ensures |Moved(full, next)| == |full|
    {
      hide LaidOut, Inv, Intact, Valid, Sound, M, MapOf;
      LeftFacts(full, m, next);
      Facts();
      assert forall k :: k in full && full[k] >= next ==> k in at && LiveAt(ctrl[..], data[..], k, at[k]);
      assert Moved(full, next) == full.Keys;
      assert |full.Keys| == |full|;
    }

    /** A table's controls are in shape for an occupancy scan. */
    lemma Scannable()
      requires Valid() || Sound()
      ensures data.Length == 0 || data.Length + GROUP <= ctrl.Length + 1
      ensures forall s :: 0 <= s < ctrl.Length ==> Proper(ctrl[s]) && (s >= data.Length ==> !ctrl[s].Full?)
    {
      hide Valid, Sound, Source, LaidOut, Inv, Intact, M;
      Facts();
      ScanReady(Snap());
    }

    lemma LeftFacts(full: map<K, nat>, m: map<K, V>, next: nat)
      requires Left(full, m, next)
      ensures Sound() && M() == Remaining(m, full, next)
    {
      hide Valid, Sound, M, Remaining;
    }

    /** Resets every control and the filter once all values are gone. */
    method WipeAll()
      requires Valid() || Sound()
      modifies this, ctrl, filter
      ensures Valid() && M() == map[] && TightFilter() && len == 0 && tombstones == 0 && stale == 0 && !exceptional
      ensures ctrl == old(ctrl) && data == old(data) && filter == old(filter) && shape == old(shape)
              && seed == old(seed)
      ensures forall s :: 0 <= s < ctrl.Length ==> ctrl[s] == Empty
      ensures Recording()
    {
      hide LaidOut, Inv, Intact, Valid, Sound, M, TightFilter, Reflects, ValidFilter, WordCount, Recording;
      Facts();
      TableSizes();
      forall s | 0 <= s < ctrl.Length {
        ctrl[s] := Empty;
      }
      ClearMembership();
      InstallCounters(0, 0, false, 0, map[]);
      Started();
      TightIsRecording();
    }
  }

  /** `try_with_insert_budget`: an empty table on the least geometry with room for `capacity` entries. */
  method WithInsertBudget<K(==), V>(env: Env<K>, capacity: nat, d: nat) returns (r: Result<Table<K, V>, BuildError>)
    requires SoundEnv(env) && capacity < USIZE_LIMIT && d < U32_LIMIT
    ensures r.Err? && r.error.ExponentBelowMinimum? <==> d < 3
    ensures r.Err? && r.error.CapacityOverflow? <==> d >= 3 && forall m: nat :: m < USIZE_LIMIT ==>
            !Sufficient(m, d, capacity)
    ensures r.Ok? ==> fresh(r.value) && fresh(r.value.Repr()) && r.value.Valid() && r.value.M() == map[]
                      && Sufficient(r.value.shape.n, d, capacity) && r.value.shape.maxInsertions >= capacity
                      && r.value.env == env && r.value.d == d
                      && r.value.tombstones == 0 && r.value.stale == 0 && !r.value.exceptional
                      && r.value.seed == PROBE_SEED
                      && forall m: nat :: m < USIZE_LIMIT && Sufficient(m, d, capacity) ==> r.value.shape.n <= m
  {
    hide Inv, LaidOut, MaxInsertions, Plannable;
    if d < 3 {
      return Err(BuildError.ExponentBelowMinimum);
    }
    var shape := ForInsertBudget(capacity, d);
    if shape.None? {
      return Err(BuildError.CapacityOverflow);
    }
    SlotsRepresentable(shape.value, d);
    LaidOutPlannable(shape.value, d);
    var table := new Table<K, V>.FromShape(env, d, shape.value);
    return Ok(table);
  }
}
