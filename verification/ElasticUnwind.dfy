/** How a refresh of an Elastic table that unwinds loses stored keys: concrete runs from a new table to
    one on which `find` misses a key it holds. */
module ElasticUnwind {
  import opened Arith
  import opened Controls
  import opened Wrappers
  import opened Store
  import opened Membership
  import opened ElasticPlan
  import opened ElasticBatches
  import opened ElasticGeometry
  import opened ElasticSchedule
  import opened ElasticState
  import opened ElasticPlacement
  import opened Capacity
  import opened ElasticTable
  import GoldenWords
  import HashRouting
  import QueryPosition

  /** Room on level zero for two keys, placed by the first batch. */
  ghost predicate Roomy<K, V>(t: Table<K, V>)
    reads t, t.scheduler
  {
    && |t.geometry.caps| > 0 && t.geometry.caps[0] >= 4 && t.geometry.maxInsertions >= 3
    && NonDecreasing(t.scheduler.batchEnds) && |t.scheduler.batchEnds| > 0 && t.scheduler.batchEnds[0] >= 3
  }

  /** The key's first probe of level zero leads to this slot. */
  ghost predicate FirstProbe<K, V>(t: Table<K, V>, key: K, slot: nat)
    reads t
  {
    |t.geometry.caps| > 0 && t.env.route(t.env.keys.hash(key), 0, 0, t.geometry.caps[0]) == Some(slot)
  }

  /** With the first batch active, a key whose probe `logical` of level zero is the first to yield a free
      slot is placed there. */
  lemma BootstrapChoice<K, V>(t: Table<K, V>, hash: Word, slot: nat, logical: nat)
    requires Roomy(t) && |t.levelLen| == |t.geometry.caps| && t.len < 3 && logical < 2
    requires FreeProbe(t.env.route, t.geometry.caps, t.ctrl[..], hash, 0, logical) == Some(slot)
    requires forall i: nat :: i < logical ==> FreeProbe(t.env.route, t.geometry.caps, t.ctrl[..], hash, 0, i).None?
    ensures !t.StuckActive(hash)
    ensures forall index: nat :: Active(t.scheduler.batchEnds, t.len, index) ==> index == 0
    ensures forall p: Placement, l: nat :: t.Chosen(hash, Bootstrap, p, l) ==> p.level == 0 && p.slot == slot
  {
    hide FreeProbe, LevelProbeLimit, QueryPosition.Phi;
    TwoProbesAllowed();
    assert t.FirstFreeOn(hash, 0, LevelProbeLimit(0)) == Some((slot, logical));
    forall index: nat | Active(t.scheduler.batchEnds, t.len, index) ensures index == 0 {
      ActiveUnique(t.scheduler.batchEnds, t.len, 0, index);
    }
  }

  lemma TwoProbesAllowed()
    ensures LevelProbeLimit(0) >= 2
  {
    hide QueryPosition.Phi;
    QueryPosition.PhiBound(1, 2);
    LevelProbeLimitExact(0, 1);
  }

  /** An ordinary epoch that holds `kept` away from its first probe and keeps reusing the slot of
      `churned`'s. */
  ghost predicate Churning<K, V>(t: Table<K, V>, kept: K, churned: K, slot: nat, removed: nat)
    reads t, t.scheduler, t.ctrl, t.data, t.filter
  {
    && t.Valid() && t.at.Keys == {kept} && kept != churned && !t.exceptional && Roomy(t)
    && (exists first: nat :: FirstProbe(t, kept, first) && first != t.at[kept])
    && FirstProbe(t, churned, slot) && slot < t.geometry.caps[0] <= t.ctrl.Length && IsFree(t.ctrl[slot])
    && |t.levelTombs| > 0 && t.levelTombs[0] == (if t.ctrl[slot] == Tombstone then 1 else 0) && t.stale == removed
  }

  lemma ChurningFacts<K, V>(t: Table<K, V>, kept: K, churned: K, slot: nat, removed: nat)
    requires Churning(t, kept, churned, slot, removed)
    ensures t.Valid() && t.M().Keys == t.at.Keys && churned !in t.M() && t.len == 1 < t.geometry.maxInsertions
    ensures |t.levelLen| == |t.levelTombs| == |t.geometry.caps| && Offset(t.geometry.caps, 0) == 0
    ensures FreeProbe(t.env.route, t.geometry.caps, t.ctrl[..], t.env.keys.hash(churned), 0, 0) == Some(slot)
  {
    hide Table.Valid, Table.Sound, Table.M, IsGeometry, Inv, Intact;
    t.Facts();
    assert |t.at.Keys| == |t.at|;
  }

  /** Inserts a key whose probe `logical` of level zero is the first to yield a free slot. */
  method InsertOnFirstLevel<K(==), V>(t: Table<K, V>, key: K, value: V, ghost slot: nat, ghost logical: nat)
    requires t.Valid() && Roomy(t) && key !in t.M() && t.len < 2 && logical < 2
    requires FreeProbe(t.env.route, t.geometry.caps, t.ctrl[..], t.env.keys.hash(key), 0, logical) == Some(slot)
    requires forall i: nat :: i < logical ==>
                                FreeProbe(t.env.route, t.geometry.caps, t.ctrl[..], t.env.keys.hash(key), 0, i).None?
    modifies t, t.scheduler, t.ctrl, t.data, t.filter
    ensures t.Valid() && t.M() == old(t.M())[key := value]
    ensures t.SameArena(old(t.geometry), old(t.scheduler), old(t.ctrl), old(t.data), old(t.filter))
    ensures Wrote(t.env, old(t.Snap()), t.Snap(), 0, slot, key, value) && t.stale == old(t.stale)
  {
    hide Table.Valid, Table.Sound, Table.M, Table.StuckActive, Table.LandedOn, Table.Chosen, Wrote, Active, FreeProbe,
         Table.Carried, Table.StoredTwice, Table.Recording, Put, Findable, Table.Inserts;
    t.ValidIsSound();
    t.LevelCounters();
    BootstrapChoice(t, t.env.keys.hash(key), slot, logical);
    var r;
    ghost var landed, grown, mid, seat;
    r, landed, grown, mid, seat := t.Insert(key, value, 0);
  }

  /** Writing a key at a free slot of level zero and taking it out again leaves a tombstone there. */
  lemma BackToVacancy<K, V>(env: Env<K>, before: State<K, V>, mid: State<K, V>, slot: nat, key: K, value: V)
    requires Wrote(env, before, mid, 0, slot, key, value) && key !in before.at
    ensures CanVacate(mid, 0, slot) && mid.ctrl[slot].Full? && mid.at == before.at[key := slot]
            && mid.data[slot].key == key
    ensures |mid.levelTombs| == |before.levelTombs| && mid.caps == before.caps
    ensures mid.levelTombs[0] == if before.ctrl[slot] == Tombstone then before.levelTombs[0] - 1
                                 else before.levelTombs[0]
    ensures var after := Vacate(mid, 0, slot, Tombstone);
            && after.ctrl[slot] == Tombstone && after.at == before.at && after.caps == before.caps
            && after.exceptional == before.exceptional && |after.levelTombs| > 0
            && after.levelTombs[0] == mid.levelTombs[0] + 1
  {
    hide Record, SummaryLevel;
    assert mid.at - {key} == before.at;
  }

  /** Finds a key by its slot on level zero. */
  method FindOnFirstLevel<K(==), V>(t: Table<K, V>, key: K, ghost slot: nat) returns (loc: Location)
    requires t.Valid() && key in t.at && t.at[key] == slot && |t.geometry.caps| > 0
             && slot < t.geometry.caps[0] <= t.ctrl.Length
    ensures loc == Location(0, slot) && t.InLevel(loc) && Offset(t.geometry.caps, 0) == 0 && t.ctrl[slot].Full?
  {
    hide Table.Valid, Table.Sound, Table.M, Findable, FullScan, LevelAt;
    t.ValidIsSound();
    t.KeysOfMap();
    var r := t.Find(key);
    loc := r.value;
    LevelUnique(t.geometry.caps, 0, loc.level, slot);
  }

  /** Inserts `churned` and finds it in its slot, about to be removed again. */
  method PutChurned<K(==), V>(t: Table<K, V>, kept: K, churned: K, value: V, ghost slot: nat, ghost removed: nat)
      returns (loc: Location)
    requires Churning(t, kept, churned, slot, removed)
    modifies t, t.scheduler, t.ctrl, t.data, t.filter
    ensures t.Valid() && t.M() == old(t.M())[churned := value] && churned !in old(t.M())
    ensures t.SameArena(old(t.geometry), old(t.scheduler), old(t.ctrl), old(t.data), old(t.filter))
            && t.stale == removed
    ensures loc == Location(0, slot) && t.InLevel(loc) && Offset(t.geometry.caps, 0) == 0 && t.ctrl[slot].Full?
    ensures Arrived(t, old(t.at), churned, slot)
  {
    hide Table.Valid, Table.Sound, Table.M, Wrote, Offset;
    ghost var before := t.Snap();
    assert before.ctrl[slot] == t.ctrl[slot];
    ChurningFacts(t, kept, churned, slot, removed);
    InsertOnFirstLevel(t, churned, value, slot, 0);
    BackToVacancy(t.env, before, t.Snap(), slot, churned, value);
    loc := FindOnFirstLevel(t, churned, slot);
  }

  /** The key is in its slot, and taking it out leaves the slot map as it was with one tombstone. */
  ghost predicate Arrived<K, V>(t: Table<K, V>, at: map<K, nat>, key: K, slot: nat)
    reads t, t.ctrl, t.data, t.filter
  {
    && CanVacate(t.Snap(), 0, slot) && t.at == at[key := slot] && t.at - {key} == at && t.Snap().data[slot].key == key
    && !t.exceptional && t.levelTombs[0] == 0
  }

  /** What taking the key out again makes of the table. */
  lemma PutBack<K, V>(t: Table<K, V>, mid: State<K, V>, at: map<K, nat>, key: K, slot: nat)
    requires CanVacate(mid, 0, slot) && mid.at - {key} == at && mid.data[slot].key == key && !mid.exceptional
             && mid.levelTombs[0] == 0
    requires t.Snap() == Vacate(mid, 0, slot, Tombstone) && slot < t.ctrl.Length
    ensures t.at == at && t.ctrl[slot] == Tombstone && !t.exceptional && |t.levelTombs| > 0 && t.levelTombs[0] == 1
  {
    assert t.Snap().ctrl[slot] == t.ctrl[slot];
  }

  lemma Unbind<K, V>(m: map<K, V>, key: K, value: V)
    requires key !in m
    ensures m[key := value] - {key} == m
  {
  }

  /** Removes a key that was put on level zero, with neither a cleanup nor a refresh due. */
  method TakeBack<K(==), V>(t: Table<K, V>, key: K, loc: Location, ghost at: map<K, nat>)
    requires t.Valid() && Roomy(t) && t.InLevel(loc) && loc.level == 0 && Offset(t.geometry.caps, 0) == 0
    requires Arrived(t, at, key, loc.slot) && loc.slot < t.ctrl.Length && t.ctrl[loc.slot].Full?
    requires t.stale < RefreshDeletes(t.geometry.maxInsertions)
    modifies t, t.ctrl, t.filter
    ensures t.Valid() && t.M() == old(t.M()) - {key} && t.at == at && t.stale == old(t.stale) + 1
    ensures t.SameArena(old(t.geometry), old(t.scheduler), old(t.ctrl), old(t.data), old(t.filter))
    ensures t.ctrl[loc.slot] == Tombstone && !t.exceptional && |t.levelTombs| > 0 && t.levelTombs[0] == 1
  {
    hide Table.Valid, Table.Sound, Table.M, RefreshDeletes, Vacate;
    ghost var mid := t.Snap();
    var removed, gone, settled;
    ghost var cut;
    removed, gone, settled, cut := t.Remove(loc, 0);
    PutBack(t, mid, at, key, loc.slot);
  }

  /** One insertion and removal of `churned`, which counts one more delete. */
  method ChurnOnce<K(==), V>(t: Table<K, V>, kept: K, churned: K, value: V, ghost slot: nat, ghost removed: nat)
    requires Churning(t, kept, churned, slot, removed) && removed < RefreshDeletes(t.geometry.maxInsertions)
    modifies t, t.scheduler, t.ctrl, t.data, t.filter
    ensures Churning(t, kept, churned, slot, removed + 1) && t.M() == old(t.M())
    ensures t.SameArena(old(t.geometry), old(t.scheduler), old(t.ctrl), old(t.data), old(t.filter))
  {
    hide Table.Valid, Table.Sound, Table.M, RefreshDeletes, Offset, Arrived;
    ghost var first: nat :| FirstProbe(t, kept, first) && first != t.at[kept];
    var loc := PutChurned(t, kept, churned, value, slot, removed);
    Unbind(old(t.M()), churned, value);
    TakeBack(t, churned, loc, old(t.at));
    assert FirstProbe(t, kept, first) && first != t.at[kept];
  }

  /** A free slot of level zero, where the first batch still has room. */
  ghost predicate Reusable<K, V>(t: Table<K, V>, slot: nat)
    reads t, t.scheduler, t.ctrl
  {
    Roomy(t) && slot < t.geometry.caps[0] <= t.ctrl.Length && IsFree(t.ctrl[slot])
  }

  /** The removal that makes a refresh due, before it settles: fewer tombstones on its level than a
      cleanup needs, more deletes than a refresh needs. */
  method RemoveDue<K(==), V>(t: Table<K, V>, kept: K, churned: K, value: V, ghost slot: nat, ghost removed: nat)
    requires Churning(t, kept, churned, slot, removed) && removed == RefreshDeletes(t.geometry.maxInsertions)
    modifies t, t.scheduler, t.ctrl, t.data, t.filter
    ensures t.Valid() && t.M() == old(t.M()) && t.at.Keys == {kept} && !t.exceptional
    ensures t.SameArena(old(t.geometry), old(t.scheduler), old(t.ctrl), old(t.data), old(t.filter))
    ensures exists first: nat :: FirstProbe(t, kept, first) && first != t.at[kept]
    ensures Reusable(t, slot)
    ensures |t.levelTombs| > 0 && !Table<K, V>.NeedsCleanup(t.levelTombs[0], t.geometry.caps[0])
    ensures t.stale > RefreshDeletes(t.geometry.maxInsertions)
  {
    hide Table.Valid, Table.Sound, Table.M, RefreshDeletes, Offset, Vacate;
    ghost var first: nat :| FirstProbe(t, kept, first) && first != t.at[kept];
    var loc := PutChurned(t, kept, churned, value, slot, removed);
    Unbind(old(t.M()), churned, value);
    ghost var mid := t.Snap();
    var key, gone := t.Extract(loc);
    PutBack(t, mid, old(t.at), churned, slot);
    assert FirstProbe(t, kept, first) && first != t.at[kept];
  }

  /** A refresh whose hasher panics on the first key, and the lookup after it. */
  method RefreshCutShort<K(==), V>(t: Table<K, V>, kept: K) returns (found: Option<Location>)
    requires t.Valid() && t.at.Keys == {kept} && !t.exceptional
    requires exists first: nat :: FirstProbe(t, kept, first) && first != t.at[kept]
    modifies t, t.filter
    ensures t.Sound() && t.M() == old(t.M()) && kept in t.M() && found.None? && !t.Valid()
    ensures kept in t.at && !Findable(t.env, t.Snap(), kept) && t.len == 1
    ensures t.SameArena(old(t.geometry), old(t.scheduler), old(t.ctrl), old(t.data), old(t.filter))
  {
    hide Table.Valid, Table.Sound, Table.M, Intact, RefreshedUpTo, Findable, CoveredBy, FullScan, IsGeometry, MapOf,
         Covered, Table.TightFilter, Readout, Table.Scheduling;
    ghost var before := t.Snap();
    t.ValidIsSound();
    t.Facts();
    t.KeysOfMap();
    assert |t.at| == 1 by {
      assert |t.at.Keys| == 1;
    }
    var done;
    ghost var stop;
    done, stop := t.RefreshMembership(0);
    NothingCovered(t.env, before, stop, kept);
    FindableIffCovered(t.env, before, t.Snap(), stop, kept);
    found := t.Find(kept);
  }

  /** From an ordinary epoch that holds one key away from its first probe, with another key's first probe
      free: inserting and removing that other key until a removal is due to refresh the filter, and a
      hasher that panics on the first key of the refresh, leave a table that still stores its key and
      does not find it. */
  method LoseKey<K(==), V>(t: Table<K, V>, kept: K, churned: K, value: V, ghost slot: nat)
      returns (found: Option<Location>)
    requires Churning(t, kept, churned, slot, t.stale) && t.stale <= RefreshDeletes(t.geometry.maxInsertions)
    modifies t, t.scheduler, t.ctrl, t.data, t.filter
    ensures t.Sound() && t.M() == old(t.M()) && kept in t.M() && found.None? && !t.Valid()
    ensures kept in t.at && !Findable(t.env, t.Snap(), kept) && t.len == 1 && Reusable(t, slot)
    ensures t.SameArena(old(t.geometry), old(t.scheduler), old(t.ctrl), old(t.data), old(t.filter))
  {
    hide Table.Valid, Table.Sound, Table.M;
    var removed: nat := t.stale;
    while removed < RefreshDeletes(t.geometry.maxInsertions)
      invariant removed <= RefreshDeletes(t.geometry.maxInsertions)
      invariant Churning(t, kept, churned, slot, removed) && t.M() == old(t.M())
      invariant t.SameArena(old(t.geometry), old(t.scheduler), old(t.ctrl), old(t.data), old(t.filter))
    {
      ChurnOnce(t, kept, churned, value, slot, removed);
      removed := removed + 1;
    }
    RemoveDue(t, kept, churned, value, slot, removed);
    found := RefreshCutShort(t, kept);
  }

  /** A new table with room on level zero. */
  ghost predicate New<K, V>(t: Table<K, V>)
    reads t, t.scheduler, t.ctrl, t.data, t.filter
  {
    && t.Valid() && t.M() == map[] && t.stale == 0 && !t.exceptional && Roomy(t)
    && |t.levelTombs| > 0 && t.levelTombs[0] == 0
  }

  lemma NewFacts<K, V>(t: Table<K, V>)
    requires New(t)
    ensures t.at == map[] && t.len == 0 && t.Snap().ctrl == t.ctrl[..] && t.geometry.caps[0] <= t.ctrl.Length
    ensures Offset(t.geometry.caps, 0) == 0
    ensures forall s :: 0 <= s < t.ctrl.Length ==> IsFree(t.ctrl[s])
    ensures forall s :: 0 <= s < t.geometry.caps[0] ==> t.ctrl[s] != Tombstone
  {
    hide IsGeometry, EntriesFindable, EntriesRouted, SoundEnv, Table.Scheduling, IsSchedule;
    t.Facts();
    t.FirstLevel();
    CountExtremes(Region(t.geometry.caps, t.ctrl[..], 0));
    assert forall s :: 0 <= s < t.geometry.caps[0] ==> Region(t.geometry.caps, t.ctrl[..], 0)[s] == t.ctrl[s];
    assert t.at.Keys == {};
    forall s | 0 <= s < t.ctrl.Length ensures IsFree(t.ctrl[s]) {
      assert t.ctrl[..][s] == t.ctrl[s];
    }
  }

  /** The key's second probe of level zero leads to this slot. */
  ghost predicate SecondProbe<K, V>(t: Table<K, V>, key: K, slot: nat)
    reads t
  {
    |t.geometry.caps| > 0 && t.env.route(t.env.keys.hash(key), 0, 1, t.geometry.caps[0]) == Some(slot)
  }

  lemma WithoutFirst<K, T>(kept: K, churned: K, first: T, second: T)
    requires kept != churned
    ensures map[churned := first, kept := second] - {churned} == map[kept := second]
    ensures map[kept := second, churned := first] - {churned} == map[kept := second]
  {
  }

  lemma FewDeletes(maxInsertions: nat)
    ensures RefreshDeletes(maxInsertions) == maxInsertions
  {
  }

  /** Inserts two keys that collide on their first probe into a new table: the second one lands on its
      second probe. */
  method InsertColliding<K(==), V>(t: Table<K, V>, kept: K, churned: K, value: V, ghost first: nat, ghost second: nat)
    requires New(t) && kept != churned && FirstProbe(t, churned, first) && FirstProbe(t, kept, first)
    requires SecondProbe(t, kept, second) && second != first
    modifies t, t.scheduler, t.ctrl, t.data, t.filter
    ensures t.Valid() && t.M() == map[kept := value, churned := value] && t.at == map[churned := first, kept := second]
    ensures t.SameArena(old(t.geometry), old(t.scheduler), old(t.ctrl), old(t.data), old(t.filter))
    ensures t.stale == 0 && !t.exceptional && first < t.geometry.caps[0] <= t.ctrl.Length && t.ctrl[first].Full?
    ensures Offset(t.geometry.caps, 0) == 0 && Arrived(t, map[kept := second], churned, first)
  {
    hide Table.Valid, Table.Sound, Table.M, Offset;
    WithoutFirst(kept, churned, first, second);
    NewFacts(t);
    t.RoutedInside(t.env.keys.hash(kept), 0, 0, first);
    t.RoutedInside(t.env.keys.hash(kept), 0, 1, second);
    InsertOnFirstLevel(t, churned, value, first, 0);
    assert t.ctrl[..][first].Full?;
    InsertOnFirstLevel(t, kept, value, second, 1);
    assert t.ctrl[..][first].Full?;
  }

  /** Takes `churned` out again, which frees its slot and leaves `kept` off its first probe. */
  method StoreKept<K(==), V>(t: Table<K, V>, kept: K, churned: K, value: V, ghost first: nat, ghost second: nat)
    requires New(t) && kept != churned && FirstProbe(t, churned, first) && FirstProbe(t, kept, first)
    requires SecondProbe(t, kept, second) && second != first
    modifies t, t.scheduler, t.ctrl, t.data, t.filter
    ensures Churning(t, kept, churned, first, t.stale) && t.stale <= RefreshDeletes(t.geometry.maxInsertions)
    ensures t.M() == map[kept := value]
    ensures t.SameArena(old(t.geometry), old(t.scheduler), old(t.ctrl), old(t.data), old(t.filter))
  {
    hide Table.Valid, Table.Sound, Table.M, Offset, RefreshDeletes, Arrived;
    InsertColliding(t, kept, churned, value, first, second);
    FewDeletes(t.geometry.maxInsertions);
    WithoutFirst(kept, churned, value, value);
    var loc := FindOnFirstLevel(t, churned, first);
    TakeBack(t, churned, loc, map[kept := second]);
    assert FirstProbe(t, kept, first) && first != t.at[kept];
  }

  /** A user hasher under which all keys collide, with the table's own filter routing and probe choice. */
  function ElasticEnv(): Env<bool>
  {
    Env(Keys(_ => Word(1), Fingerprint), HashRouting.ElasticFilterSlot, HashRouting.ElasticRoute)
  }

  lemma ElasticEnvSound()
    ensures SoundEnv(ElasticEnv())
  {
    HashRouting.ElasticRoutingSound((_: bool) => Word(1));
    assert ElasticEnv().keys == Keys((_: bool) => Word(1), Fingerprint);
  }

  lemma EightSlots()
    ensures CeilLog2(8) == 3 && LevelLengthsOf(8) == [4] + Lengths(4, 2) && MaxInsertions(8, 3) == 7
            && CeilThreeQuarters(4) == 3
  {
    assert Pow2(3) == 8;
  }

  /** The first allocation accepts seven entries, the first three of them on level zero. */
  lemma FirstAllocation(g: Geometry)
    requires IsGeometry(g, 3) && g.slots == INITIAL_CAPACITY
    ensures |g.caps| > 0 && g.caps[0] == 4 && g.maxInsertions == 7 && |g.quotas| > 0 && g.quotas[0] == 3
  {
    hide LevelLengthsOf, CeilLog2, MaxInsertions;
    EightSlots();
  }

  /** One entry asks for the first allocation. */
  lemma OneEntry()
    ensures !TooLarge(1, 3)
    ensures forall slots: nat :: LeastDoubling(INITIAL_CAPACITY, 1, 3, slots) ==> slots == INITIAL_CAPACITY
  {
    hide MaxInsertions;
    EightSlots();
    assert Doubled(0) == 8 && DoubledFrom(INITIAL_CAPACITY, 0) == 8;
    forall slots: nat | LeastDoubling(INITIAL_CAPACITY, 1, 3, slots) ensures slots == INITIAL_CAPACITY {
      var k: nat :| slots == DoubledFrom(INITIAL_CAPACITY, k);
      AtLeastStart(INITIAL_CAPACITY, k);
    }
  }

  /** The first allocation is a new table on which every key goes to slot 2 first and to slot 1 next. */
  lemma NewTable<V>(t: Table<bool, V>)
    requires t.Valid() && t.d == 3 && t.geometry.slots == INITIAL_CAPACITY && t.env == ElasticEnv()
    requires t.M() == map[] && t.stale == 0 && !t.exceptional && t.levelTombs == seq(|t.geometry.caps|, _ => 0)
    ensures New(t) && forall key: bool :: FirstProbe(t, key, 2) && SecondProbe(t, key, 1)
    ensures |t.geometry.caps| > 0 && t.geometry.caps[0] == 4
  {
    hide Inv, IsGeometry, Table.M, HashRouting.ElasticRoute;
    GoldenWords.TwoProbes();
    FirstAllocation(t.geometry);
    EndsSorted(0, t.geometry.quotas);
  }

  /** What the run has come to when the key is lost. */
  ghost predicate Lost(t: Table<bool, nat>)
    reads t, t.scheduler, t.ctrl, t.data, t.filter
  {
    && t.Sound() && t.M() == map[true := 0] && !t.Valid() && t.env == ElasticEnv() && Reusable(t, 2)
    && true in t.at && !Findable(t.env, t.Snap(), true) && t.len == 1 && t.geometry.caps[0] == 4
  }

  /** The run: a table for one entry, all keys with the same hash; two are stored, the first of them comes
      and goes until the filter is refreshed, and the hasher panics on the first key. */
  method ElasticLosesKey() returns (t: Table<bool, nat>, found: Option<Location>)
    ensures Lost(t) && found.None? && fresh(t) && fresh(t.Repr())
  {
    hide Table.Valid, Table.M, Table.Sound, IsGeometry, TooLarge, LeastDoubling, ElasticEnv, SoundEnv, New, Churning,
         Findable, Reusable;
    ElasticEnvSound();
    OneEntry();
    var made := WithInsertBudget<bool, nat>(ElasticEnv(), 1, 3);
    t := made.value;
    NewTable(t);
    StoreKept(t, true, false, 0, 2, 1);
    found := LoseKey(t, true, false, 0, 2);
  }

  /** The lost key's first probe leads to a free slot, and the active target takes it. */
  lemma LostFacts(t: Table<bool, nat>)
    requires Lost(t)
    ensures t.Sound() && true in t.at && t.len < t.geometry.maxInsertions && !t.StuckActive(t.env.keys.hash(true))
    ensures !Findable(t.env, t.Snap(), true) && t.at[true] < t.data.Length && t.data[..][t.at[true]] == Entry(true, 0)
  {
    hide Table.Valid, Table.M, Table.Sound, IsGeometry, Findable, Table.StuckActive, HashRouting.ElasticRoute;
    GoldenWords.TwoProbes();
    t.LevelCounters();
    t.FirstLevel();
    BootstrapChoice(t, t.env.keys.hash(true), 2, 0);
    t.Present(true);
  }

  lemma OtherSlots<K, V>(env: Env<K>, before: State<K, V>, after: State<K, V>, key: K, value: V)
    requires Put(env, before, after, key, value)
    ensures key in after.at && after.at[key] < |before.data|
            && after.data == before.data[after.at[key] := Entry(key, value)]
  {
    hide SummaryLevel, LevelAt, IsSchedule, Target, Record;
  }

  /** What follows: inserting the lost key again stores it a second time, with another value. */
  method ElasticStoresTwice() returns (t: Table<bool, nat>, ghost first: nat, ghost second: nat)
    ensures HeldTwice(t.ctrl[..], t.data[..], true, first, second) && t.data[first] == Entry(true, 0)
            && t.data[second] == Entry(true, 1)
  {
    hide Table.Valid, Table.M, Table.Sound, Findable, Table.StuckActive, Table.LandedAt, Table.LandedOn, Lost, Record,
         Table.Carried, Table.Recording, Put, Table.Inserts;
    var found, r;
    t, found := ElasticLosesKey();
    LostFacts(t);
    first := t.at[true];
    t.KeysOfMap();
    ghost var landed, grown, mid, seat;
    r, landed, grown, mid, seat := t.Insert(true, 1, 0);
    second := t.at[true];
    OtherSlots(t.env, mid, t.Snap(), true, 1);
    assert t.Snap().data == t.data[..];
    assert t.data[first] == t.data[..][first] && t.data[second] == t.data[..][second];
  }
}
