/** How a refresh that unwinds loses stored keys: concrete runs from a new table to one on which `find`
    misses a key it holds. */
module FunnelUnwind {
  import opened Arith
  import opened Controls
  import opened Wrappers
  import opened Store
  import opened Membership
  import opened BucketCounts
  import opened FunnelPlan
  import opened SpecialLayout
  import opened FunnelWalk
  import opened FunnelState
  import opened Capacity
  import HashRouting
  import FunnelTable

  // ---- Funnel ----

  /** An ordinary epoch that holds `kept` and keeps reusing one slot of `churned`'s walk. */
  ghost predicate Churning<K, V>(t: FunnelTable.Table<K, V>, kept: K, churned: K, slot: nat, removed: nat)
    reads t, t.ctrl, t.data, t.filter
  {
    && t.Valid() && t.at.Keys == {kept} && kept != churned && !t.exceptional
    && t.shape.maxInsertions >= 2 && CleanupThreshold(t.shape.n) > 0
    && FirstFreeOnWalk(t.env, t.Snap(), churned, slot) && slot < t.ctrl.Length
    && t.tombstones == (if t.ctrl[slot] == Tombstone then 1 else 0) && t.stale == removed
  }

  lemma FreeIsFirst<K, V>(env: Env<K>, st: State<K, V>, key: K, slot: nat)
    requires FirstFreeOnWalk(env, st, key, slot)
    ensures !NoneFreeOnWalk(env, st, key) && forall s: nat :: FirstFreeOnWalk(env, st, key, s) ==> s == slot
    ensures slot < |st.ctrl| && IsFree(st.ctrl[slot])
  {
    hide Leg;
    var i: nat, p: nat :| VacancyAt(st.ctrl, WalkOf(env, st, key), slot, i, p);
    forall s: nat | FirstFreeOnWalk(env, st, key, s) ensures s == slot {
      var i': nat, p': nat :| VacancyAt(st.ctrl, WalkOf(env, st, key), s, i', p');
      VacancyUnique(st.ctrl, WalkOf(env, st, key), slot, i, p, s, i', p');
    }
  }

  lemma ChurningFacts<K, V>(t: FunnelTable.Table<K, V>, kept: K, churned: K, slot: nat, removed: nat)
    requires Churning(t, kept, churned, slot, removed)
    ensures t.Valid() && t.M().Keys == t.at.Keys && churned !in t.M() && t.len == 1 < t.shape.maxInsertions
    ensures !NoneFreeOnWalk(t.env, t.Snap(), churned)
    ensures forall s: nat :: FirstFreeOnWalk(t.env, t.Snap(), churned, s) ==> s == slot
  {
    hide LaidOut, FirstFreeOnWalk, NoneFreeOnWalk, EntriesPlaced, EntriesAdmitted, ValidShape, SoundEnv;
    t.KeysOfMap();
    FreeIsFirst(t.env, t.Snap(), churned, slot);
    assert |t.at.Keys| == |t.at|;
  }

  /** Inserts `churned`, which lands in its slot. */
  method InsertChurned<K(==), V>(t: FunnelTable.Table<K, V>, kept: K, churned: K, value: V, ghost slot: nat,
                                 ghost removed: nat)
    requires Churning(t, kept, churned, slot, removed)
    modifies t, t.ctrl, t.data, t.filter
    ensures t.Valid() && fresh(t.Repr() - old(t.Repr())) && t.M() == old(t.M())[churned := value]
    ensures Wrote(t.env, old(t.Snap()), t.Snap(), slot, churned, value) && t.stale == removed
  {
    hide FunnelTable.Table.Valid, FunnelTable.Table.Sound, FunnelTable.Table.M, FirstFreeOnWalk, NoneFreeOnWalk, Wrote,
         FunnelTable.Table.Carried, FunnelTable.Table.StoredTwice, FunnelTable.Table.Inserts, Put,
         FunnelTable.Table.Passes;
    ChurningFacts(t, kept, churned, slot, removed);
    var r;
    ghost var walked, prepared, mid;
    r, walked, prepared, mid := t.Insert(churned, value, 0);
  }

  /** Writing a key at its walk's vacancy and taking it out again leaves a tombstone there, which is the
      walk's vacancy once more. */
  lemma BackToVacancy<K, V>(env: Env<K>, before: State<K, V>, mid: State<K, V>, slot: nat, key: K, value: V)
    requires FirstFreeOnWalk(env, before, key, slot) && Wrote(env, before, mid, slot, key, value) && key !in before.at
    ensures mid.len > 0 && slot < |mid.ctrl| && slot < |mid.data| && mid.data[slot].Entry? && mid.data[slot].key == key
    ensures mid.ctrl[slot].Full? && mid.at == before.at[key := slot] && mid.at - {key} == before.at
    ensures mid.tombstones == if before.ctrl[slot] == Tombstone then before.tombstones - 1 else before.tombstones
    ensures var after := Vacate(mid, slot);
            && FirstFreeOnWalk(env, after, key, slot) && after.ctrl[slot] == Tombstone && after.at == before.at
            && after.shape == before.shape && after.exceptional == before.exceptional
            && after.tombstones == mid.tombstones + 1
  {
    hide Leg, SlotBit, Record;
    var after := Vacate(mid, slot);
    assert mid.at - {key} == before.at;
    var i: nat, p: nat :| VacancyAt(before.ctrl, WalkOf(env, before, key), slot, i, p);
    assert WalkOf(env, after, key) == WalkOf(env, before, key);
    assert VacancyAt(after.ctrl, WalkOf(env, after, key), slot, i, p);
  }

  /** Finds `churned` in its slot, right after it was written there. */
  method FindChurned<K(==), V>(t: FunnelTable.Table<K, V>, key: K, ghost slot: nat) returns (found: nat)
    requires t.Valid() && key in t.at && t.at[key] == slot
    ensures found == slot && found < t.ctrl.Length && t.ctrl[found].Full?
  {
    hide FunnelTable.Table.Valid, FunnelTable.Table.Sound, FunnelTable.Table.M, Admitted, FullScan;
    t.ValidIsSound();
    t.KeysOfMap();
    var r := t.Find(key);
    found := r.value;
  }

  /** One insertion and removal of `churned`, which counts one more delete. */
  method ChurnOnce<K(==), V>(t: FunnelTable.Table<K, V>, kept: K, churned: K, value: V, ghost slot: nat,
                             ghost removed: nat)
    requires Churning(t, kept, churned, slot, removed) && removed < RefreshDeletes(t.shape.maxInsertions)
    modifies t, t.ctrl, t.data, t.filter
    ensures Churning(t, kept, churned, slot, removed + 1) && fresh(t.Repr() - old(t.Repr())) && t.M() == old(t.M())
    ensures t.shape == old(t.shape)
  {
    hide FunnelTable.Table.Valid, FunnelTable.Table.Sound, FunnelTable.Table.M, FirstFreeOnWalk, Wrote,
         CleanupThreshold, RefreshDeletes, RefreshedUpTo, Covered, Rebuilt, FunnelTable.Table.Recording;
    ghost var before, m := t.Snap(), t.M();
    assert before.ctrl[slot] == t.ctrl[slot];
    ChurningFacts(t, kept, churned, slot, removed);
    InsertChurned(t, kept, churned, value, slot, removed);
    ghost var mid := t.Snap();
    BackToVacancy(t.env, before, mid, slot, churned, value);
    var at := FindChurned(t, churned, slot);
    var key, gone, settled;
    ghost var cut;
    key, gone, settled, cut := t.Remove(at, 0);
    assert t.Snap() == Vacate(mid, slot) && t.Snap().ctrl[slot] == t.ctrl[slot];
    assert m[churned := value] - {churned} == m;
  }

  /** From an ordinary epoch that holds one key, with a free slot on another key's walk: inserting and
      removing that other key until a removal is due to refresh the filter, and a hasher that panics on
      the first key of the refresh, leave a table that still stores its key and does not find it. */
  method LoseKey<K(==), V>(t: FunnelTable.Table<K, V>, kept: K, churned: K, value: V, ghost slot: nat)
      returns (found: Option<nat>)
    requires Churning(t, kept, churned, slot, 0)
    modifies t, t.ctrl, t.data, t.filter
    ensures t.Sound() && t.M() == old(t.M()) && kept in t.M() && found.None? && !t.Valid()
    ensures Forgotten(t, kept) && t.shape == old(t.shape) && fresh(t.Repr() - old(t.Repr()))
  {
    hide FunnelTable.Table.Valid, FunnelTable.Table.Sound, FunnelTable.Table.M, Churning, Forgotten;
    var removed := 0;
    while removed < RefreshDeletes(t.shape.maxInsertions)
      invariant removed <= RefreshDeletes(t.shape.maxInsertions)
      invariant Churning(t, kept, churned, slot, removed) && fresh(t.Repr() - old(t.Repr())) && t.M() == old(t.M())
      invariant t.shape == old(t.shape)
    {
      ChurnOnce(t, kept, churned, value, slot, removed);
      removed := removed + 1;
    }
    RemoveDue(t, kept, churned, value, slot, removed);
    found := RefreshCutShort(t, kept);
  }

  /** The removal that makes a refresh due, before it settles: fewer tombstones than a cleanup needs,
      more deletes than a refresh needs. */
  method RemoveDue<K(==), V>(t: FunnelTable.Table<K, V>, kept: K, churned: K, value: V, ghost slot: nat,
                             ghost removed: nat)
    requires Churning(t, kept, churned, slot, removed) && removed == RefreshDeletes(t.shape.maxInsertions)
    modifies t, t.ctrl, t.data, t.filter
    ensures t.Valid() && fresh(t.Repr() - old(t.Repr())) && t.M() == old(t.M()) && t.at.Keys == {kept} && !t.exceptional
    ensures t.shape == old(t.shape)
    ensures t.tombstones <= CleanupThreshold(t.shape.n) && t.stale > RefreshDeletes(t.shape.maxInsertions)
  {
    hide FunnelTable.Table.Valid, FunnelTable.Table.Sound, FunnelTable.Table.M, FirstFreeOnWalk, Wrote,
         CleanupThreshold, RefreshDeletes;
    ghost var before, m := t.Snap(), t.M();
    assert before.ctrl[slot] == t.ctrl[slot];
    ChurningFacts(t, kept, churned, slot, removed);
    InsertChurned(t, kept, churned, value, slot, removed);
    ghost var mid := t.Snap();
    BackToVacancy(t.env, before, mid, slot, churned, value);
    var at := FindChurned(t, churned, slot);
    var key, gone := t.Extract(at);
    assert m[churned := value] - {churned} == m;
  }

  /** The table's one key, of which the filter has no bit. */
  ghost predicate Forgotten<K, V>(t: FunnelTable.Table<K, V>, key: K)
    reads t, t.filter
  {
    t.at.Keys == {key} && (t.env.filterSlot(t.env.keys.hash(key), t.filter.Length).bits != {} ==> !t.Passes(key))
  }

  lemma NothingPasses<K, V>(t: FunnelTable.Table<K, V>, before: State<K, V>, stop: nat, key: K)
    requires RefreshedUpTo(t.env, before, t.Snap(), stop) && Moved(before.at, stop) == {} && t.at.Keys == {key}
    ensures Forgotten(t, key)
  {
    hide SlotBit;
    assert Marks(t.env, before, {}) == {};
    assert t.Snap().filter == t.filter[..];
    forall i: nat, x: nat | i < t.filter.Length ensures x !in t.filter[i].membership {
      assert t.filter[i] == t.filter[..][i];
    }
  }

  /** A refresh whose hasher panics on the first key, and the lookup after it. */
  method RefreshCutShort<K(==), V>(t: FunnelTable.Table<K, V>, kept: K) returns (found: Option<nat>)
    requires t.Valid() && t.at.Keys == {kept} && !t.exceptional
    modifies t, t.filter
    ensures t.Sound() && t.M() == old(t.M()) && kept in t.M() && found.None? && !t.Valid()
    ensures Forgotten(t, kept) && t.shape == old(t.shape) && t.Repr() == old(t.Repr())
  {
    hide FunnelTable.Table.Valid, FunnelTable.Table.Sound, FunnelTable.Table.M, Intact, RefreshedUpTo, Admitted,
         CoveredBy, FullScan, LaidOut, MapOf, Covered, FunnelTable.Table.Source, FunnelTable.Table.TightFilter;
    ghost var before := t.Snap();
    t.ValidIsSound();
    t.Facts();
    t.KeysOfMap();
    assert |t.at| == 1 by {
      assert |t.at.Keys| == 1;
    }
    var done;
    ghost var stop;
    done, stop := t.RefreshMembership(0);
    NothingCovered(t.env, before, stop, kept);
    AdmittedIffCovered(t.env, before, t.Snap(), stop, kept);
    NothingPasses(t, before, stop, kept);
    found := t.Find(kept);
  }

  /** The key's bucket on the first level can be drawn. */
  ghost predicate FirstDraw<K, V>(t: FunnelTable.Table<K, V>, key: K)
    reads t
  {
    |t.shape.levels| > 0 && t.env.sample(t.seed, t.env.keys.hash(key), Ordinary(0), 0, t.shape.levels[0].buckets).Some?
  }

  /** With at most one live slot, a key whose bucket can be drawn has a vacancy there. */
  lemma BucketHasVacancy<K, V>(t: FunnelTable.Table<K, V>, key: K, taken: nat)
    requires t.Sound() && FirstDraw(t, key) && forall s :: 0 <= s < t.ctrl.Length && s != taken ==> IsFree(t.ctrl[s])
    requires t.Snap().ctrl == t.ctrl[..]
    ensures exists s: nat :: FirstFreeOnWalk(t.env, t.Snap(), key, s)
  {
    hide Stored, EntriesPlaced, SlotBit;
    var w := WalkOf(t.env, t.Snap(), key);
    var leg := Leg(w, 0);
    assert |leg| == t.shape.beta >= 2;
    LegSlots(w, 0, 0);
    LegSlots(w, 0, 1);
    var p := if leg[0] == taken && t.ctrl[taken].Full? then 1 else 0;
    assert VacancyAt(t.Snap().ctrl, w, leg[p], 0, p);
    assert FirstFreeOnWalk(t.env, t.Snap(), key, leg[p]);
  }

  /** A new table: valid, with no entry, no tombstone and no delete counted. */
  ghost predicate New<K, V>(t: FunnelTable.Table<K, V>)
    reads t, t.ctrl, t.data, t.filter
  {
    && t.Valid() && t.M() == map[] && t.tombstones == 0 && t.stale == 0 && !t.exceptional
    && t.shape.maxInsertions >= 2 && CleanupThreshold(t.shape.n) > 0
  }

  lemma NewFacts<K, V>(t: FunnelTable.Table<K, V>)
    requires New(t)
    ensures t.at == map[] && t.len == 0 && t.Snap().ctrl == t.ctrl[..] && forall s :: 0 <= s < t.ctrl.Length ==>
            t.ctrl[s] == Empty
  {
    hide LaidOut, EntriesPlaced, EntriesAdmitted, SoundEnv, ValidShape;
    t.KeysOfMap();
    t.NoTombstones();
    assert t.at.Keys == {};
    forall s | 0 <= s < t.ctrl.Length ensures t.ctrl[s] == Empty {
      assert t.ctrl[..][s] == t.ctrl[s];
    }
  }

  /** Inserts the key to be lost into a new table; the other key still has a slot on its walk. */
  method InsertKept<K(==), V>(t: FunnelTable.Table<K, V>, kept: K, churned: K, value: V) returns (ghost slot: nat)
    requires New(t) && kept != churned && FirstDraw(t, kept) && FirstDraw(t, churned)
    modifies t, t.ctrl, t.data, t.filter
    ensures Churning(t, kept, churned, slot, 0) && fresh(t.Repr() - old(t.Repr())) && t.M() == map[kept := value]
    ensures t.shape == old(t.shape)
  {
    hide FunnelTable.Table.Valid, FunnelTable.Table.Sound, FunnelTable.Table.M, FirstFreeOnWalk, NoneFreeOnWalk,
         CleanupThreshold, SlotBit, Record, FunnelTable.Table.Carried, FunnelTable.Table.StoredTwice,
         FunnelTable.Table.Inserts, Put, FunnelTable.Table.Passes;
    NewFacts(t);
    ghost var before := t.Snap();
    t.ValidIsSound();
    BucketHasVacancy(t, kept, t.ctrl.Length);
    ghost var place: nat :| FirstFreeOnWalk(t.env, before, kept, place);
    FreeIsFirst(t.env, before, kept, place);
    var r;
    ghost var walked, prepared, mid;
    r, walked, prepared, mid := t.Insert(kept, value, 0);
    assert t.Snap().ctrl == t.ctrl[..] && t.Snap().ctrl == before.ctrl[place := t.Snap().ctrl[place]];
    t.ValidIsSound();
    BucketHasVacancy(t, churned, place);
    slot :| FirstFreeOnWalk(t.env, t.Snap(), churned, slot);
    FreeIsFirst(t.env, t.Snap(), churned, slot);
    assert t.ctrl[slot] == t.Snap().ctrl[slot];
  }

  /** A user hasher under which all keys collide, with the table's own filter routing and probe choice. */
  function FunnelEnv(): Env<bool>
  {
    Env(Keys(_ => Word(0), Fingerprint), HashRouting.FunnelFilterSlot, HashRouting.FunnelSample)
  }

  lemma FunnelEnvSound()
    ensures SoundEnv(FunnelEnv())
  {
    HashRouting.FunnelRoutingSound((_: bool) => Word(0));
    assert FunnelEnv().keys == Keys((_: bool) => Word(0), Fingerprint);
  }

  /** 144 slots at the smallest exponent hold twelve special slots and a bucket on each of 22 levels. */
  lemma SmallTableExists()
    ensures Sufficient(144, 3, 2)
  {
    hide CompatibleSpecial, Plannable;
    SmallLayout();
    PlannableIs(144, 3);
  }

  lemma SmallLayout()
    ensures CompatibleSpecial(144, 3, 12) && MaxInsertions(144, 3) >= 2
  {
    hide CeilLog2, Pow2;
    assert Pow2(3) == 8 && Pow2(4) == 16 && Pow2(5) == 32 by {
      SmallPowers();
    }
    SmallLogs();
  }

  lemma SmallPowers()
    ensures Pow2(1) == 2 && Pow2(2) == 4 && Pow2(3) == 8 && Pow2(4) == 16 && Pow2(5) == 32 && Pow2(7) == 128
            && Pow2(8) == 256
  {
    assert Pow2(6) == 64;
  }

  lemma SmallLogs()
    ensures CeilLog2(144) == 8 && CeilLog2(8) == 3
  {
    hide CeilLog2, Pow2;
    SmallPowers();
    CeilLog2IsLeast(144, 8);
    CeilLog2IsLeast(144, 7);
    CeilLog2IsLeast(8, 3);
    CeilLog2IsLeast(8, 2);
  }

  /** More than 128 and at most 144 slots have fallback buckets of six slots, so at least twelve special
      slots, which leave room for one bucket on each of the 22 levels. */
  lemma OneBucketEach(n: nat, plan: Plan)
    requires IsPlan(n, 3, plan) && n <= 144 && plan.special <= n
    ensures plan.alpha == 22 == (n - plan.special) / plan.beta
  {
    hide CeilLog2, Pow2, SpecialLower, SpecialUpper, NearestFirst;
    assert CompatibleSpecial(n, 3, plan.special);
    SpecialHoldsTwoBuckets(n, 3, plan.special);
    TimesIsProduct(22, 6);
    EightBits(n);
    QuotientAtLeast(n - plan.special, 6, 22);
    QuotientAtLeast(n - plan.special, 6, 23);
  }

  lemma EightBits(n: nat)
    requires 132 <= n <= 144
    ensures LogLogCeiling(n) == 3
  {
    hide CeilLog2, Pow2;
    SmallPowers();
    SmallLogs();
    CeilLog2IsLeast(n, 8);
    CeilLog2IsLeast(n, 7);
  }

  /** A table of at most 144 slots at the smallest exponent has a single bucket on its first level. */
  lemma OneBucketFirst(shape: FunnelShape)
    requires LaidOut(shape.n, 3, shape) && 0 < shape.n <= 144
    ensures |shape.levels| > 0 && shape.levels[0].buckets == 1
  {
    hide IsPlan, Greedy, MinSum, MaxSum;
    var plan :| IsPlan(shape.n, 3, plan) && FollowsPlan(shape, plan);
    OneBucketEach(shape.n, plan);
    MinSumAtLeast(plan.first, 22);
    GreedyIsPath(plan.first, 22, 22);
  }

  /** A key of the run's table always has its first bucket drawn. */
  lemma BucketDrawn<V>(t: FunnelTable.Table<bool, V>, key: bool)
    requires t.env == FunnelEnv() && |t.shape.levels| > 0 && t.shape.levels[0].buckets == 1
    ensures FirstDraw(t, key)
  {
    hide HashRouting.FunnelSample;
    HashRouting.OneBucketDraws(t.seed, Word(0), Ordinary(0), 0);
  }

  lemma NewTable<V>(t: FunnelTable.Table<bool, V>)
    requires t.Valid() && t.M() == map[] && t.tombstones == 0 && t.stale == 0 && !t.exceptional
    requires t.d == 3 && t.shape.maxInsertions >= 2 && t.env == FunnelEnv() && t.shape.n <= 144
    ensures New(t) && |t.shape.levels| > 0 && t.shape.levels[0].buckets == 1
  {
    hide Inv, FollowsPlan;
    OneBucketFirst(t.shape);
  }

  /** What the run has come to when the key is lost. */
  ghost predicate Lost(t: FunnelTable.Table<bool, nat>)
    reads t, t.ctrl, t.data, t.filter
  {
    && t.Sound() && t.M() == map[true := 0] && !t.Valid() && t.env == FunnelEnv() && Forgotten(t, true)
    && |t.shape.levels| > 0 && t.shape.levels[0].buckets == 1 && t.shape.maxInsertions >= 2
  }

  /** The run: a table for two entries, both with the same hash; one is stored, the other comes and goes
      until the filter is refreshed, and the hasher panics on the first key. */
  method FunnelLosesKey() returns (t: FunnelTable.Table<bool, nat>, found: Option<nat>)
    ensures Lost(t) && found.None? && fresh(t) && fresh(t.Repr())
  {
    hide FunnelTable.Table.Valid, FunnelTable.Table.M, FunnelTable.Table.Sound, FunnelEnv, SoundEnv, Sufficient,
         FirstDraw, New, Churning, Forgotten;
    FunnelEnvSound();
    SmallTableExists();
    var made := FunnelTable.WithInsertBudget<bool, nat>(FunnelEnv(), 2, 3);
    t := made.value;
    assert t.shape.n <= 144;
    NewTable(t);
    BucketDrawn(t, true);
    BucketDrawn(t, false);
    ghost var slot := InsertKept(t, true, false, 0);
    found := LoseKey(t, true, false, 0, slot);
  }

  lemma OneLiveSlot<V>(t: FunnelTable.Table<bool, V>)
    requires t.Sound() && t.at.Keys == {true}
    ensures t.len == 1 && t.Snap().ctrl == t.ctrl[..]
    ensures forall s :: 0 <= s < t.ctrl.Length && s != t.at[true] ==> IsFree(t.ctrl[s])
  {
    hide LaidOut, EntriesPlaced, SoundEnv, ValidShape;
    assert |t.at.Keys| == |t.at|;
    forall s | 0 <= s < t.ctrl.Length && s != t.at[true] ensures IsFree(t.ctrl[s]) {
      assert t.ctrl[..][s] == t.ctrl[s];
    }
  }

  /** The lost key is rejected by the filter, and its walk has a free slot. */
  lemma LostFacts(t: FunnelTable.Table<bool, nat>)
    requires Lost(t)
    ensures t.Sound() && true in t.at && !t.Passes(true) && t.len < t.shape.maxInsertions
            && !NoneFreeOnWalk(t.env, t.Snap(), true)
    ensures t.at[true] < t.data.Length && t.data[t.at[true]] == Entry(true, 0)
  {
    hide FunnelTable.Table.Valid, FunnelTable.Table.M, FunnelTable.Table.Sound, FirstFreeOnWalk, NoneFreeOnWalk,
         FirstDraw, FunnelEnv;
    OneLiveSlot(t);
    BucketDrawn(t, true);
    t.StoredHere(true);
    SomeBits(t);
    BucketHasVacancy(t, true, t.at[true]);
    var s: nat :| FirstFreeOnWalk(t.env, t.Snap(), true, s);
    FreeIsFirst(t.env, t.Snap(), true, s);
  }

  lemma SomeBits<V>(t: FunnelTable.Table<bool, V>)
    requires t.env == FunnelEnv()
    ensures t.env.filterSlot(t.env.keys.hash(true), t.filter.Length).bits != {}
  {
    assert HashRouting.SixBits(0) in t.env.filterSlot(Word(0), t.filter.Length).bits;
  }

  /** What follows: inserting the lost key again stores it a second time, with another value. */
  method FunnelStoresTwice() returns (t: FunnelTable.Table<bool, nat>, ghost first: nat, ghost second: nat)
    ensures HeldTwice(t.ctrl[..], t.data[..], true, first, second) && t.data[first] == Entry(true, 0)
            && t.data[second] == Entry(true, 1)
  {
    hide FunnelTable.Table.Valid, FunnelTable.Table.M, FunnelTable.Table.Sound, FunnelTable.Table.Passes,
         FirstFreeOnWalk, NoneFreeOnWalk, Lost, Record, FunnelTable.Table.Carried, FunnelTable.Table.Inserts, Put;
    var found, r;
    t, found := FunnelLosesKey();
    LostFacts(t);
    t.KeysOfMap();
    first := t.at[true];
    assert t.data[first] == t.data[..][first];
    ghost var walked, prepared, mid;
    r, walked, prepared, mid := t.Insert(true, 1, 0);
    second := walked.value;
    assert t.Snap().data == t.data[..];
    assert t.data[first] == t.data[..][first] && t.data[second] == t.data[..][second];
  }
}
