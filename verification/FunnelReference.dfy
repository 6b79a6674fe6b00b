/** The scalar Funnel: one slot at a time, no fingerprints, filter, level masks or groups. While
    nothing is removed, the table puts every key where it does. */
module FunnelReference {
  import opened Arith
  import opened Controls
  import opened Wrappers
  import opened Store
  import opened FunnelPlan
  import opened FunnelWalk
  import opened FunnelState
  import opened FunnelSearch
  import opened FunnelTable

  datatype ScalarSearch = HitAt(slot: nat) | VacantAt(slot: nat) | NothingFree | OutOfWords

  datatype ScalarInsert = InsertedAt(slot: nat) | Duplicate(slot: nat) | TargetExhausted | FallbackFull | RangeFailed

  // ---- Where the scalar walk stops ----

  /** The first `upto` slots of a leg hold other keys. */
  ghost predicate Others<K>(slots: seq<Option<K>>, key: K, leg: seq<nat>, upto: nat)
  {
    upto <= |leg| && forall q: nat :: q < upto ==> leg[q] < |slots| && slots[leg[q]].Some? && slots[leg[q]].value != key
  }

  /** Legs before `i` exist and hold other keys. */
  ghost predicate OthersUpTo<K>(slots: seq<Option<K>>, w: Walk, key: K, i: nat)
  {
    && i <= LegCount(w.shape) && Reaches(w, i)
    && forall j: nat :: j < i ==> Others(slots, key, Leg(w, j), |Leg(w, j)|)
  }

  /** Slot `s` is the first on the walk that is vacant or holds the key. */
  ghost predicate StopsAt<K>(slots: seq<Option<K>>, w: Walk, key: K, s: nat, i: nat, p: nat)
  {
    && OthersUpTo(slots, w, key, i) && i < LegCount(w.shape) && p < |Leg(w, i)| && Leg(w, i)[p] == s
    && Others(slots, key, Leg(w, i), p)
    && s < |slots| && (slots[s].None? || slots[s].value == key)
  }

  ghost predicate VacantFirst<K>(slots: seq<Option<K>>, w: Walk, key: K, i: nat, p: nat)
  {
    exists s: nat :: StopsAt(slots, w, key, s, i, p) && slots[s].None?
  }

  /** What an insertion's result says of the slots it found. */
  ghost predicate Outcome<K>(slots: seq<Option<K>>, w: Walk, key: K, r: ScalarInsert, i: nat, p: nat)
  {
    match r
    case InsertedAt(s) => StopsAt(slots, w, key, s, i, p) && slots[s].None?
    case Duplicate(s) => StopsAt(slots, w, key, s, i, p) && slots[s].Some?
    case TargetExhausted => OthersUpTo(slots, w, key, LegCount(w.shape)) || VacantFirst(slots, w, key, i, p)
    case FallbackFull => OthersUpTo(slots, w, key, LegCount(w.shape))
    case RangeFailed => OthersUpTo(slots, w, key, i) && i < LegCount(w.shape) && Leg(w, i) == []
  }

  lemma OthersNext<K>(slots: seq<Option<K>>, w: Walk, key: K, i: nat)
    requires i < LegCount(w.shape) && OthersUpTo(slots, w, key, i)
    requires Leg(w, i) != [] && Others(slots, key, Leg(w, i), |Leg(w, i)|)
    ensures OthersUpTo(slots, w, key, i + 1)
  {
    hide Leg, Others;
  }

  class ScalarFunnel<K(==)> {
    const shape: FunnelShape
    const sample: Sampler
    const seed: Word
    const slots: array<Option<K>>
    var len: nat

    ghost predicate Valid()
      reads this
    {
      ValidShape(shape) && shape.n > 0 && SoundSampler(sample) && slots.Length == shape.n
    }

    constructor (shape: FunnelShape, sample: Sampler, seed: Word)
      requires ValidShape(shape) && shape.n > 0 && SoundSampler(sample)
      ensures Valid() && this.shape == shape && this.sample == sample && this.seed == seed
      ensures fresh(slots) && len == 0 && forall s :: 0 <= s < slots.Length ==> slots[s] == None
    {
      hide ValidShape, SoundSampler;
      this.shape, this.sample, this.seed, this.len := shape, sample, seed, 0;
      this.slots := new Option<K>[shape.n](_ => None);
    }

    /** What one slot says of the walk: a hit, a vacancy, or go on. */
    method Inspect(slot: nat, key: K) returns (r: Option<ScalarSearch>)
      requires slot < slots.Length
      ensures r == match slots[slot]
                   case None => Some(VacantAt(slot))
                   case Some(stored) => if stored == key then Some(HitAt(slot)) else None
    {
      match slots[slot] {
        case Some(stored) =>
          r := if stored == key then Some(HitAt(slot)) else None;
        case None =>
          r := Some(VacantAt(slot));
      }
    }

    ghost predicate Stopped(w: Walk, key: K, r: ScalarSearch, i: nat, p: nat)
      reads slots
    {
      match r
      case HitAt(s) => StopsAt(slots[..], w, key, s, i, p) && slots[..][s].Some?
      case VacantAt(s) => StopsAt(slots[..], w, key, s, i, p) && slots[..][s].None?
      case NothingFree => OthersUpTo(slots[..], w, key, LegCount(w.shape))
      case OutOfWords => OthersUpTo(slots[..], w, key, i) && i < LegCount(w.shape) && Leg(w, i) == []
    }

    /** The ordinary levels; `None` goes on to the special arrays. */
    method SearchLevels(w: Walk, key: K) returns (r: Option<ScalarSearch>, ghost i: nat, ghost p: nat)
      requires Valid() && w.shape == shape && w.sample == sample
      ensures r.Some? ==> Stopped(w, key, r.value, i, p)
      ensures r.None? ==> OthersUpTo(slots[..], w, key, |shape.levels|)
    {
      hide Leg, Times, ValidShape, SoundSampler;
      var level := 0;
      i, p := 0, 0;
      while level < |shape.levels|
        invariant level <= |shape.levels| && i == level && OthersUpTo(slots[..], w, key, i)
      {
        OrdinaryLeg(w, i);
        var bucket := w.Draw(Ordinary(level), 0, shape.levels[level].buckets);
        if bucket.None? {
          return Some(OutOfWords), i, p;
        }
        var start, slotInBucket := shape.levels[level].offset + Times(bucket.value, shape.beta), 0;
        while slotInBucket < shape.beta
          invariant slotInBucket <= shape.beta && Others(slots[..], key, Leg(w, i), slotInBucket)
        {
          assert Leg(w, i)[slotInBucket] == start + slotInBucket;
          r := Inspect(start + slotInBucket, key);
          if r.Some? {
            p := slotInBucket;
            return;
          }
          slotInBucket := slotInBucket + 1;
        }
        OthersNext(slots[..], w, key, i);
        level, i := level + 1, i + 1;
      }
      r := None;
    }

    /** The two fallback buckets, slot by slot in turn. */
    method SearchFallback(w: Walk, key: K) returns (r: ScalarSearch, ghost p: nat)
      requires Valid() && w.shape == shape && w.sample == sample
      requires OthersUpTo(slots[..], w, key, |shape.levels| + shape.loglog)
      ensures Stopped(w, key, r, |shape.levels| + shape.loglog, p)
    {
      hide Leg, Times, ValidShape, SoundSampler;
      ghost var i := |shape.levels| + shape.loglog;
      p := 0;
      FallbackLeg(w);
      var a := w.Draw(FallbackA, 0, shape.fallbackBuckets);
      if a.None? {
        return OutOfWords, p;
      }
      var b := w.Draw(FallbackB, 0, shape.fallbackBuckets);
      if b.None? {
        return OutOfWords, p;
      }
      var width, slotInBucket := shape.fallbackWidth, 0;
      while slotInBucket < width
        invariant slotInBucket <= width && Others(slots[..], key, Leg(w, i), 2 * slotInBucket)
      {
        var which := 0;
        while which < 2
          invariant which <= 2 && Others(slots[..], key, Leg(w, i), 2 * slotInBucket + which)
        {
          var bucket := if which == 0 then a.value else b.value;
          var slot := shape.fallbackOffset + Times(bucket, width) + slotInBucket;
          p := 2 * slotInBucket + which;
          assert Leg(w, i)[p] == slot;
          var stop := Inspect(slot, key);
          if stop.Some? {
            return stop.value, p;
          }
          which := which + 1;
        }
        slotInBucket := slotInBucket + 1;
      }
      OthersNext(slots[..], w, key, i);
      r := NothingFree;
    }

    /** The primary probes, then the two fallback buckets slot by slot in turn. */
    method SearchSpecial(w: Walk, key: K) returns (r: ScalarSearch, ghost i: nat, ghost p: nat)
      requires Valid() && w.shape == shape && w.sample == sample
      requires OthersUpTo(slots[..], w, key, |shape.levels|)
      ensures Stopped(w, key, r, i, p)
    {
      hide Leg, Times, ValidShape, SoundSampler;
      i, p := |shape.levels|, 0;
      var probe := 0;
      while probe < shape.loglog
        invariant probe <= shape.loglog && i == |shape.levels| + probe && OthersUpTo(slots[..], w, key, i)
      {
        PrimaryLeg(w, probe);
        var local := w.Draw(Primary, probe, shape.primaryLen);
        if local.None? {
          return OutOfWords, i, p;
        }
        assert Leg(w, i)[0] == shape.primaryOffset + local.value;
        var stop := Inspect(shape.primaryOffset + local.value, key);
        if stop.Some? {
          return stop.value, i, 0;
        }
        OthersNext(slots[..], w, key, i);
        probe, i := probe + 1, i + 1;
      }
      r, p := SearchFallback(w, key);
    }

    /** Walks to the first slot that is vacant or holds the key. */
    method Search(key: K, hash: Word) returns (r: ScalarSearch, ghost i: nat, ghost p: nat)
      requires Valid()
      ensures Stopped(Walk(shape, sample, seed, hash), key, r, i, p)
    {
      hide Valid, Leg, OthersUpTo, StopsAt;
      var w := Walk(shape, sample, seed, hash);
      var stop;
      stop, i, p := SearchLevels(w, key);
      if stop.Some? {
        return stop.value, i, p;
      }
      r, i, p := SearchSpecial(w, key);
    }

    method Insert(key: K, hash: Word) returns (r: ScalarInsert, ghost i: nat, ghost p: nat)
      requires Valid()
      modifies this, slots
      ensures Valid()
      ensures Outcome(old(slots[..]), Walk(shape, sample, seed, hash), key, r, i, p)
      ensures r.InsertedAt? ==> r.slot < slots.Length && slots[..] == old(slots[..])[r.slot := Some(key)]
      ensures r.InsertedAt? ==> old(len) < shape.maxInsertions && len == old(len) + 1
      ensures r.TargetExhausted? ==> old(len) >= shape.maxInsertions
      ensures !r.InsertedAt? ==> slots[..] == old(slots[..]) && len == old(len)
    {
      hide Leg, OthersUpTo, Others, ValidShape, SoundSampler, Reaches;
      var found;
      found, i, p := Search(key, hash);
      match found {
        case HitAt(slot) => r := Duplicate(slot);
        case OutOfWords => r := RangeFailed;
        case VacantAt(slot) =>
          if len >= shape.maxInsertions {
            return TargetExhausted, i, p;
          }
          slots[slot] := Some(key);
          len := len + 1;
          r := InsertedAt(slot);
        case NothingFree =>
          r := if len >= shape.maxInsertions then TargetExhausted else FallbackFull;
      }
    }
  }

  // ---- The table against it ----

  /** An insert-only epoch of the table whose keys sit where the scalar table has them. */
  ghost predicate Agree<K, V>(env: Env<K>, st: State<K, V>, slots: seq<Option<K>>)
  {
    && Inv(env, st) && |slots| == st.shape.n > 0 && SameSlots(st.at, slots)
    && st.tombstones == 0 && !st.exceptional
  }

  lemma SlotsAgree<K, V>(env: Env<K>, st: State<K, V>, slots: seq<Option<K>>)
    requires Agree(env, st, slots)
    ensures |slots| <= |st.ctrl|
    ensures forall s: nat :: s < |slots| ==> (slots[s].Some? <==> st.ctrl[s].Full?)
                                             && (slots[s].None? <==> st.ctrl[s] == Empty)
  {
    hide EntriesPlaced, EntriesAdmitted, SoundEnv, ValidShape;
    CountExtremes(st.ctrl);
    forall s: nat | s < |slots|
      ensures slots[s].Some? <==> st.ctrl[s].Full?
      ensures slots[s].None? <==> st.ctrl[s] == Empty
    {
      if st.ctrl[s].Full? {
        assert slots[st.at[st.data[s].key]] == Some(st.data[s].key);
      }
    }
  }

  lemma OthersAreCrowded<K, V>(env: Env<K>, st: State<K, V>, slots: seq<Option<K>>, key: K, leg: seq<nat>, upto: nat)
    requires Agree(env, st, slots) && Others(slots, key, leg, upto)
    ensures Crowded(st.ctrl, leg, upto)
  {
    hide Agree;
    SlotsAgree(env, st, slots);
  }

  /** A scalar vacancy is the first free slot of the table's walk. */
  lemma VacancyAgrees<K, V>(env: Env<K>, st: State<K, V>, slots: seq<Option<K>>, key: K, s: nat, i: nat, p: nat)
    requires Agree(env, st, slots) && StopsAt(slots, WalkOf(env, st, key), key, s, i, p) && slots[s].None?
    ensures VacancyAt(st.ctrl, WalkOf(env, st, key), s, i, p)
  {
    hide Agree, Leg, Others, Crowded;
    var w := WalkOf(env, st, key);
    SlotsAgree(env, st, slots);
    OthersAreCrowded(env, st, slots, key, Leg(w, i), p);
    forall j: nat | j < i ensures Crowded(st.ctrl, Leg(w, j), |Leg(w, j)|) {
      OthersAreCrowded(env, st, slots, key, Leg(w, j), |Leg(w, j)|);
    }
  }

  /** Step `p'` of leg `i'` comes before step `p` of leg `i`. */
  predicate Before(i': nat, p': nat, i: nat, p: nat)
  {
    i' < i || (i' == i && p' < p)
  }

  /** A present key is not on a stretch of the walk that holds only others. */
  lemma NotAmongOthers<K>(slots: seq<Option<K>>, at: map<K, nat>, w: Walk, key: K, i: nat, p: nat, i': nat, p': nat)
    requires key in at && SameSlots(at, slots) && OthersUpTo(slots, w, key, i)
    requires p > 0 ==> i < LegCount(w.shape) && Others(slots, key, Leg(w, i), p)
    requires i' < LegCount(w.shape) && p' < |Leg(w, i')| && Leg(w, i')[p'] == at[key]
    ensures !Before(i', p', i, p)
  {
    hide Leg;
  }

  /** A present key is what the scalar walk stops at: the table's walk has no EMPTY before it. */
  lemma PresentIsHit<K, V>(env: Env<K>, st: State<K, V>, slots: seq<Option<K>>, key: K, s: nat, i: nat, p: nat)
    requires Agree(env, st, slots) && key in st.at && StopsAt(slots, WalkOf(env, st, key), key, s, i, p)
    ensures slots[s] == Some(key) && st.at[key] == s
  {
    hide Leg, Sized, Stored, EntriesAdmitted, SoundEnv;
    var w := WalkOf(env, st, key);
    SlotsAgree(env, st, slots);
    var i': nat, p': nat :| PlacedAt(st.ctrl, w, st.at[key], i', p');
    NotAmongOthers(slots, st.at, w, key, i, p, i', p');
    if slots[s].None? && Before(i, p, i', p') {
      assert false;
    }
  }

  /** And it is never missed by a walk that runs out. */
  lemma PresentIsMetBy<K, V>(env: Env<K>, st: State<K, V>, slots: seq<Option<K>>, key: K, i: nat)
    requires Agree(env, st, slots) && OthersUpTo(slots, WalkOf(env, st, key), key, i)
    requires i == LegCount(st.shape) || Leg(WalkOf(env, st, key), i) == []
    ensures key !in st.at
  {
    hide Leg, Sized, Stored, EntriesAdmitted, SoundEnv;
    var w := WalkOf(env, st, key);
    if key in st.at {
      var i': nat, p': nat :| PlacedAt(st.ctrl, w, st.at[key], i', p');
      NotAmongOthers(slots, st.at, w, key, i, 0, i', p');
      assert false;
    }
  }

  /** The same plan, probe seed and routing, every key in the same slot, and nothing removed or placed
      outside its funnel. */
  ghost predicate Mirrors<K, V>(table: Table<K, V>, scalar: ScalarFunnel<K>)
    reads table, table.ctrl, table.data, table.filter, scalar, scalar.slots
  {
    && table.Valid() && scalar.Valid()
    && scalar.shape == table.shape && scalar.sample == table.env.sample && scalar.seed == table.seed
    && scalar.len == table.len && Agree(table.env, table.Snap(), scalar.slots[..])
  }

  lemma WalksAgree<K, V>(table: Table<K, V>, scalar: ScalarFunnel<K>, key: K)
    requires Mirrors(table, scalar)
    ensures Walk(scalar.shape, scalar.sample, scalar.seed, table.env.keys.hash(key)) ==
            WalkOf(table.env, table.Snap(), key)
    ensures Agree(table.env, table.Snap(), scalar.slots[..]) && table.M().Keys == table.at.Keys
    ensures scalar.Valid() && table.Valid() && scalar.len == table.len && scalar.shape == table.shape
  {
    hide Inv, LaidOut, ValidShape;
    table.KeysOfMap();
  }

  /** Nothing but a hit is reported for a present key, and a hit only for one. */
  lemma HitIffPresent<K, V>(env: Env<K>, st: State<K, V>, slots: seq<Option<K>>, key: K, r: ScalarInsert, i: nat,
                            p: nat)
    requires Agree(env, st, slots) && Outcome(slots, WalkOf(env, st, key), key, r, i, p)
    ensures r.Duplicate? <==> key in st.at
    ensures r.Duplicate? ==> st.at[key] == r.slot
    ensures r.InsertedAt? ==> FirstFreeOnWalk(env, st, key, r.slot) && r.slot < |slots| && slots[r.slot].None?
  {
    hide Inv, Leg, Others, OthersUpTo, VacancyAt, StopsAt, Agree;
    var w := WalkOf(env, st, key);
    match r {
      case InsertedAt(s) =>
        StopPoint(slots, w, key, s, i, p);
        VacancyAgrees(env, st, slots, key, s, i, p);
        if key in st.at {
          PresentIsHit(env, st, slots, key, s, i, p);
        }
      case Duplicate(s) =>
        StopPoint(slots, w, key, s, i, p);
        HeldKeys(env, st, slots, s);
      case TargetExhausted =>
        if VacantFirst(slots, w, key, i, p) {
          var s := VacancyPoint(slots, w, key, i, p);
          if key in st.at {
            PresentIsHit(env, st, slots, key, s, i, p);
          }
        } else {
          PresentIsMetBy(env, st, slots, key, LegCount(st.shape));
        }
      case FallbackFull => PresentIsMetBy(env, st, slots, key, LegCount(st.shape));
      case RangeFailed => PresentIsMetBy(env, st, slots, key, i);
    }
  }

  /** A walk that ran out, or lost a draw, has no free slot in the table either. */
  lemma NothingFree<K, V>(env: Env<K>, st: State<K, V>, slots: seq<Option<K>>, key: K, i: nat)
    requires Agree(env, st, slots) && OthersUpTo(slots, WalkOf(env, st, key), key, i)
    requires i == LegCount(st.shape) || Leg(WalkOf(env, st, key), i) == []
    ensures NoneFreeOnWalk(env, st, key)
  {
    hide Agree, Leg, Others;
    var w := WalkOf(env, st, key);
    forall s': nat, i': nat, p': nat ensures !VacancyAt(st.ctrl, w, s', i', p') {
      if VacancyAt(st.ctrl, w, s', i', p') && i' < i {
        OthersAreCrowded(env, st, slots, key, Leg(w, i'), |Leg(w, i')|);
        assert false;
      }
    }
  }

  /** A refusal for any reason but the insertion limit means the walk has no free slot. */
  lemma RefusedForSlot<K, V>(env: Env<K>, st: State<K, V>, slots: seq<Option<K>>, key: K, r: ScalarInsert, i: nat,
                             p: nat)
    requires Agree(env, st, slots) && Outcome(slots, WalkOf(env, st, key), key, r, i, p)
    requires r.FallbackFull? || r.RangeFailed?
    ensures NoneFreeOnWalk(env, st, key)
  {
    hide Agree, Leg, OthersUpTo, NoneFreeOnWalk;
    NothingFree(env, st, slots, key, if r.FallbackFull? then LegCount(st.shape) else i);
  }

  lemma VacancyPoint<K>(slots: seq<Option<K>>, w: Walk, key: K, i: nat, p: nat) returns (s: nat)
    requires VacantFirst(slots, w, key, i, p)
    ensures StopsAt(slots, w, key, s, i, p) && s < |slots| && slots[s].None?
  {
    hide Leg, OthersUpTo, Others;
    s :| StopsAt(slots, w, key, s, i, p) && slots[s].None?;
  }

  lemma StopPoint<K>(slots: seq<Option<K>>, w: Walk, key: K, s: nat, i: nat, p: nat)
    requires StopsAt(slots, w, key, s, i, p)
    ensures s < |slots| && (slots[s].None? || slots[s].value == key)
  {
    hide Leg, OthersUpTo;
  }

  lemma HeldKeys<K, V>(env: Env<K>, st: State<K, V>, slots: seq<Option<K>>, s: nat)
    requires Agree(env, st, slots) && s < |slots| && slots[s].Some?
    ensures slots[s].value in st.at && st.at[slots[s].value] == s
  {
    hide Inv;
  }

  lemma ValidInv<K, V>(table: Table<K, V>)
    requires table.Valid()
    ensures Inv(table.env, table.Snap()) && table.len == |table.at|
  {
    hide LaidOut, Stored, SoundEnv, EntriesPlaced, EntriesAdmitted;
  }

  lemma OneFirstFree<K, V>(env: Env<K>, st: State<K, V>, key: K, slot: nat, walked: Option<nat>)
    requires FirstFreeOnWalk(env, st, key, slot)
    ensures !NoneFreeOnWalk(env, st, key)
    ensures walked.Some? && FirstFreeOnWalk(env, st, key, walked.value) ==> walked.value == slot
  {
    hide VacancyAt;
    var w := WalkOf(env, st, key);
    var i: nat, p: nat :| VacancyAt(st.ctrl, w, slot, i, p);
    if walked.Some? && FirstFreeOnWalk(env, st, key, walked.value) {
      var i': nat, p': nat :| VacancyAt(st.ctrl, w, walked.value, i', p');
      VacancyUnique(st.ctrl, w, slot, i, p, walked.value, i', p');
    }
  }

  lemma AgreeAfter<K, V>(env: Env<K>, st: State<K, V>, st': State<K, V>, slots: seq<Option<K>>, slots': seq<Option<K>>,
                         key: K, r: ScalarInsert)
    requires Agree(env, st, slots) && Inv(env, st')
    requires st'.shape == st.shape && st'.exceptional == st.exceptional && st'.tombstones <= st.tombstones
    requires if r.InsertedAt? then
               && r.slot < |slots| && slots[r.slot].None? && key !in st.at
               && slots' == slots[r.slot := Some(key)] && st'.at == st.at[key := r.slot]
             else slots' == slots && st'.at == st.at
    ensures Agree(env, st', slots')
    ensures |st'.at| == |st.at| + if r.InsertedAt? then 1 else 0
  {
    hide Inv;
    if r.InsertedAt? {
      assert st'.at.Keys == st.at.Keys + {key};
      assert |st'.at.Keys| == |st.at.Keys| + 1;
    }
  }

  /** Inserts one entry into both. The scalar table accepts an absent key exactly when the table has room
      and a free slot on the key's walk, and then both put it in the same slot. */
  method InsertBoth<K, V>(table: Table<K, V>, scalar: ScalarFunnel<K>, key: K, value: V) returns (r: ScalarInsert)
    requires Mirrors(table, scalar)
    modifies table, table.ctrl, table.data, table.filter, scalar, scalar.slots
    ensures r.Duplicate? <==> key in old(table.at)
    ensures r.InsertedAt? <==> key !in old(table.at) && old(table.len < table.shape.maxInsertions)
                               && !NoneFreeOnWalk(table.env, old(table.Snap()), key)
    ensures r.InsertedAt? ==> table.at == old(table.at)[key := r.slot]
    ensures !r.InsertedAt? ==> table.at == old(table.at)
    ensures !r.InsertedAt? && !r.Duplicate? ==> table.Snap() == old(table.Snap())
    ensures r.Duplicate? ==> table.at[key] == r.slot
    ensures Mirrors(table, scalar)
    ensures table.M() == if r.InsertedAt? || r.Duplicate? then old(table.M())[key := value] else old(table.M())
    ensures fresh(table.Repr() - old(table.Repr()))
  {
    hide Inv, LaidOut, ValidShape, Agree, Outcome, Table.Valid, Table.Sound, Table.M, FirstFreeOnWalk, NoneFreeOnWalk,
         SoundSampler, Wrote, Put, Table.Recording, Table.Carried, Table.StoredTwice, Table.Passes, Table.Inserts,
         Growable;
    WalksAgree(table, scalar, key);
    ValidInv(table);
    ghost var before, was := table.Snap(), scalar.slots[..];
    ghost var i, p;
    r, i, p := scalar.Insert(key, table.env.keys.hash(key));
    HitIffPresent(table.env, before, was, key, r, i, p);
    if r.FallbackFull? || r.RangeFailed? {
      RefusedForSlot(table.env, before, was, key, r, i, p);
    }
    if r.InsertedAt? || r.Duplicate? {
      var inserted;
      ghost var walked, prepared, mid;
      inserted, walked, prepared, mid := table.Insert(key, value, 0);
      if r.InsertedAt? {
        OneFirstFree(table.env, before, key, r.slot, walked);
      }
      ValidInv(table);
      AgreeAfter(table.env, before, table.Snap(), was, scalar.slots[..], key, r);
    }
  }

  /** Any run of insertions into an empty table: as far as the scalar table takes it, both hold every
      key in the same slot, and the table stands for the run's bindings. The run stops early only at an
      absent key for which the table has no room or no free slot on its walk. */
  method InsertRun<K(==), V>(env: Env<K>, d: nat, shape: FunnelShape, entries: seq<(K, V)>)
      returns (table: Table<K, V>, scalar: ScalarFunnel<K>, taken: nat, refusal: Option<ScalarInsert>)
    requires SoundEnv(env) && d < U32_LIMIT && LaidOut(shape.n, d, shape) && shape.n > 0
    ensures taken <= |entries| && Mirrors(table, scalar) && table.M() == Bound(entries[..taken])
    ensures refusal.None? ==> taken == |entries|
    ensures refusal.Some? ==> taken < |entries| && !refusal.value.InsertedAt? && !refusal.value.Duplicate?
                              && entries[taken].0 !in table.at
    ensures refusal.Some? ==> table.len >= table.shape.maxInsertions
                              || NoneFreeOnWalk(table.env, table.Snap(), entries[taken].0)
  {
    hide LaidOut, Table.Valid, Table.M, ScalarFunnel.Valid, Agree, NoneFreeOnWalk;
    LaidOutShape(env, d, shape);
    table := new Table.FromShape(env, d, shape);
    scalar := new ScalarFunnel(shape, env.sample, PROBE_SEED);
    EmptyMirrors(table, scalar);
    taken, refusal := 0, None;
    while taken < |entries|
      invariant taken <= |entries| && Mirrors(table, scalar) && table.M() == Bound(entries[..taken])
      invariant fresh(table) && fresh(table.Repr()) && fresh(scalar) && fresh(scalar.slots)
    {
      assert entries[..taken + 1][..taken] == entries[..taken];
      var r := InsertBoth(table, scalar, entries[taken].0, entries[taken].1);
      if !r.InsertedAt? && !r.Duplicate? {
        return table, scalar, taken, Some(r);
      }
      taken := taken + 1;
    }
    assert entries[..taken] == entries;
  }

  lemma LaidOutShape<K>(env: Env<K>, d: nat, shape: FunnelShape)
    requires SoundEnv(env) && LaidOut(shape.n, d, shape) && shape.n > 0
    ensures ValidShape(shape) && SoundSampler(env.sample)
  {
    hide ValidShape, SoundSampler;
  }

  lemma EmptyMirrors<K, V>(table: Table<K, V>, scalar: ScalarFunnel<K>)
    requires table.Valid() && table.M() == map[] && table.tombstones == 0 && !table.exceptional
    requires scalar.Valid() && scalar.shape == table.shape && scalar.sample == table.env.sample
             && scalar.seed == table.seed
    requires scalar.len == 0 && forall s :: 0 <= s < scalar.slots.Length ==> scalar.slots[s] == None
    ensures Mirrors(table, scalar)
  {
    hide LaidOut, ValidShape, Inv, Table.Valid, Table.M;
    table.KeysOfMap();
    ValidInv(table);
  }
}
