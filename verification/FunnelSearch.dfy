/** The walks over a Funnel table: placement walk, exact search and level-masked lookup, each
    against the same leg-by-leg meaning. */
module FunnelSearch {
  import opened Arith
  import opened Controls
  import opened Wrappers
  import opened Store
  import opened BucketScan
  import opened Membership
  import opened FunnelPlan
  import opened FunnelWalk
  import opened FunnelState

  datatype SearchResult = Hit(slot: nat) | Vacant(slot: nat) | Full | RangeFailure

  /** A free slot and the level-bin bit an entry placed there records. */
  datatype Vacancy = Vacancy(slot: nat, levelBit: nat)

  /** Arrays large enough for every group load of the walk. */
  ghost predicate Readable<K, V>(ctrl: seq<Control>, data: seq<Slot<K, V>>, w: Walk)
  {
    && Usable(w) && |data| == w.shape.n && |ctrl| == w.shape.n + GROUP - 1
    && forall i :: 0 <= i < |ctrl| ==> Proper(ctrl[i])
  }

  // ---- Legs as the walks compute them ----

  lemma OrdinaryLeg(w: Walk, i: nat)
    requires Usable(w) && i < |w.shape.levels|
    ensures var draw := w.Draw(Ordinary(i), 0, w.shape.levels[i].buckets);
            && (draw.None? ==> Leg(w, i) == [])
            && (draw.Some? ==>
                  var start := w.shape.levels[i].offset + Times(draw.value, w.shape.beta);
                  Leg(w, i) == Run(start, w.shape.beta) && w.shape.beta >= 1 && start + w.shape.beta <= w.shape.n)
  {
    var draw := w.Draw(Ordinary(i), 0, w.shape.levels[i].buckets);
    if draw.Some? {
      BucketFits(w.shape, i, draw.value);
    }
  }

  lemma PrimaryLeg(w: Walk, j: nat)
    requires Usable(w) && j < w.shape.loglog
    ensures var draw, i := w.Draw(Primary, j, w.shape.primaryLen), |w.shape.levels| + j;
            && (draw.None? ==> Leg(w, i) == [])
            && (draw.Some? ==> Leg(w, i) == [w.shape.primaryOffset + draw.value]
                               && w.shape.primaryOffset + draw.value < w.shape.n)
  {
  }

  lemma FallbackLeg(w: Walk)
    requires Usable(w)
    ensures var a, b := w.Draw(FallbackA, 0, w.shape.fallbackBuckets), w.Draw(FallbackB, 0, w.shape.fallbackBuckets);
            var i := LegCount(w.shape) - 1;
            && (a.None? || b.None? ==> Leg(w, i) == [])
            && (a.Some? && b.Some? ==>
                  var startA := w.shape.fallbackOffset + Times(a.value, w.shape.fallbackWidth);
                  var startB := w.shape.fallbackOffset + Times(b.value, w.shape.fallbackWidth);
                  && Leg(w, i) == Interleaved(startA, startB, w.shape.fallbackWidth) && w.shape.fallbackWidth >= 1
                  && startA + w.shape.fallbackWidth <= w.shape.n && startB + w.shape.fallbackWidth <= w.shape.n)
  {
    var a, b := w.Draw(FallbackA, 0, w.shape.fallbackBuckets), w.Draw(FallbackB, 0, w.shape.fallbackBuckets);
    if a.Some? { FallbackFits(w.shape, a.value); }
    if b.Some? { FallbackFits(w.shape, b.value); }
  }

  // ---- The placement walk ----

  /** Legs before `i` exist and hold only live entries. */
  ghost predicate CrowdedUpTo(ctrl: seq<Control>, w: Walk, i: nat)
  {
    && i <= LegCount(w.shape) && Reaches(w, i)
    && forall j: nat :: j < i ==> Crowded(ctrl, Leg(w, j), |Leg(w, j)|)
  }

  lemma CrowdedNext(ctrl: seq<Control>, w: Walk, i: nat)
    requires i < LegCount(w.shape) && CrowdedUpTo(ctrl, w, i)
    requires Leg(w, i) != [] && Crowded(ctrl, Leg(w, i), |Leg(w, i)|)
    ensures CrowdedUpTo(ctrl, w, i + 1)
  {
  }

  /** A walk whose remaining legs are missing has no vacancy. */
  lemma CrowdedEnd(ctrl: seq<Control>, w: Walk, i: nat)
    requires CrowdedUpTo(ctrl, w, i) && (i == LegCount(w.shape) || Leg(w, i) == [])
    ensures NoVacancy(ctrl, w)
  {
    hide Leg;
    forall s: nat, j: nat, p: nat ensures !VacancyAt(ctrl, w, s, j, p) {
      if VacancyAt(ctrl, w, s, j, p) {
        assert false;
      }
    }
  }

  lemma {:induction false} FirstFreeMeaning(ctrl: seq<Control>, pos: nat, end: nat)
    requires pos <= end <= |ctrl|
    ensures var r := FirstFree(ctrl, pos, end);
            && (r.Some? ==> pos <= r.value < end && IsFree(ctrl[r.value]) && forall x: nat :: pos <= x < r.value ==>
               ctrl[x].Full?)
            && (r.None? ==> forall x: nat :: pos <= x < end ==> ctrl[x].Full?)
    decreases end - pos
  {
    if pos < end {
      FirstFreeMeaning(ctrl, pos + 1, end);
    }
  }

  /** Placement walk over the ordinary levels; `next` is the leg it stopped at. */
  method OrdinaryVacancy(ctrl: array<Control>, w: Walk) returns (r: Option<Vacancy>, next: nat, ghost p: nat)
    requires Usable(w) && ctrl.Length == w.shape.n + GROUP - 1
    requires forall i :: 0 <= i < ctrl.Length ==> Proper(ctrl[i])
    ensures next <= |w.shape.levels| && CrowdedUpTo(ctrl[..], w, next)
    ensures r.Some? ==> VacancyAt(ctrl[..], w, r.value.slot, next, p) && r.value.levelBit == LegBit(w.shape, next)
    ensures r.None? && next < |w.shape.levels| ==> Leg(w, next) == []
  {
    hide Leg, Times, ValidShape;
    r, next, p := None, 0, 0;
    while next < |w.shape.levels|
      invariant next <= |w.shape.levels| && CrowdedUpTo(ctrl[..], w, next)
      decreases |w.shape.levels| - next
    {
      OrdinaryLeg(w, next);
      var draw := w.Draw(Ordinary(next), 0, w.shape.levels[next].buckets);
      if draw.None? {
        return;
      }
      var start := w.shape.levels[next].offset + Times(draw.value, w.shape.beta);
      var slot := FirstFreeInBucket(ctrl, start, w.shape.beta);
      FirstFreeMeaning(ctrl[..], start, start + w.shape.beta);
      if slot.Some? {
        p := slot.value - start;
        assert Leg(w, next)[p] == slot.value;
        return Some(Vacancy(slot.value, if next < LAST_BIT then next else LAST_BIT)), next, p;
      }
      CrowdedNext(ctrl[..], w, next);
      next := next + 1;
    }
  }

  /** Placement walk over the two fallback buckets, the last leg. */
  method FallbackVacancy(ctrl: array<Control>, w: Walk) returns (r: Option<nat>, ghost p: nat)
    requires Usable(w) && ctrl.Length == w.shape.n + GROUP - 1
    requires CrowdedUpTo(ctrl[..], w, |w.shape.levels| + w.shape.loglog)
    ensures r.Some? ==> VacancyAt(ctrl[..], w, r.value, |w.shape.levels| + w.shape.loglog, p)
    ensures r.None? ==> NoVacancy(ctrl[..], w)
  {
    hide Leg, Times, ValidShape, NoVacancy;
    ghost var i := |w.shape.levels| + w.shape.loglog;
    r, p := None, 0;
    FallbackLeg(w);
    var a := w.Draw(FallbackA, 0, w.shape.fallbackBuckets);
    if a.None? {
      CrowdedEnd(ctrl[..], w, i);
      return;
    }
    var b := w.Draw(FallbackB, 0, w.shape.fallbackBuckets);
    if b.None? {
      CrowdedEnd(ctrl[..], w, i);
      return;
    }
    var width := w.shape.fallbackWidth;
    var starts := [w.shape.fallbackOffset + Times(a.value, width), w.shape.fallbackOffset + Times(b.value, width)];
    var slotInBucket := 0;
    while slotInBucket < width
      invariant slotInBucket <= width && Crowded(ctrl[..], Leg(w, i), 2 * slotInBucket)
    {
      var which := 0;
      while which < 2
        invariant which <= 2 && Crowded(ctrl[..], Leg(w, i), 2 * slotInBucket + which)
      {
        var slot := starts[which] + slotInBucket;
        p := 2 * slotInBucket + which;
        assert Leg(w, i)[p] == slot;
        if IsFree(ctrl[slot]) {
          return Some(slot), p;
        }
        which := which + 1;
      }
      slotInBucket := slotInBucket + 1;
    }
    CrowdedNext(ctrl[..], w, i);
    CrowdedEnd(ctrl[..], w, i + 1);
  }

  /** Placement walk over the special arrays. */
  method SpecialVacancy(ctrl: array<Control>, w: Walk) returns (r: Option<nat>, ghost i: nat, ghost p: nat)
    requires Usable(w) && ctrl.Length == w.shape.n + GROUP - 1
    requires CrowdedUpTo(ctrl[..], w, |w.shape.levels|)
    ensures r.Some? ==> i >= |w.shape.levels| && VacancyAt(ctrl[..], w, r.value, i, p)
    ensures r.None? ==> NoVacancy(ctrl[..], w)
  {
    hide Leg, Times, ValidShape, NoVacancy;
    r, i, p := None, |w.shape.levels|, 0;
    var probe := 0;
    while probe < w.shape.loglog
      invariant probe <= w.shape.loglog && i == |w.shape.levels| + probe && CrowdedUpTo(ctrl[..], w, i)
    {
      PrimaryLeg(w, probe);
      var local := w.Draw(Primary, probe, w.shape.primaryLen);
      if local.None? {
        CrowdedEnd(ctrl[..], w, i);
        return;
      }
      var slot := w.shape.primaryOffset + local.value;
      assert Leg(w, i)[0] == slot;
      if IsFree(ctrl[slot]) {
        return Some(slot), i, 0;
      }
      CrowdedNext(ctrl[..], w, i);
      probe, i := probe + 1, i + 1;
    }
    r, p := FallbackVacancy(ctrl, w);
  }

  /** The placement walk for an absent key: the first free slot of its walk and the level bit the
      slot alone would yield, or proof that the walk has none. */
  method SearchVacancy(ctrl: array<Control>, w: Walk) returns (r: Option<Vacancy>, ghost i: nat, ghost p: nat)
    requires Usable(w) && ctrl.Length == w.shape.n + GROUP - 1
    requires forall i :: 0 <= i < ctrl.Length ==> Proper(ctrl[i])
    ensures r.Some? ==> VacancyAt(ctrl[..], w, r.value.slot, i, p)
                        && r.value.slot < w.shape.n && r.value.levelBit == SlotBit(w.shape, r.value.slot) <= LAST_BIT
    ensures r.None? ==> NoVacancy(ctrl[..], w)
  {
    hide Leg, NoVacancy, Times, ValidShape, SlotBit;
    var stopped;
    r, stopped, p := OrdinaryVacancy(ctrl, w);
    i := stopped;
    if r.Some? {
      LegSlots(w, i, p);
      return;
    }
    if stopped < |w.shape.levels| {
      CrowdedEnd(ctrl[..], w, i);
      return;
    }
    var slot;
    slot, i, p := SpecialVacancy(ctrl, w);
    if slot.Some? {
      LegSlots(w, i, p);
      r := Some(Vacancy(slot.value, LAST_BIT));
    }
  }

  // ---- Exact search ----

  /** None of the first `upto` slots of a leg holds the key. */
  ghost predicate Unmatched<K, V>(ctrl: seq<Control>, data: seq<Slot<K, V>>, key: K, fp: bv8, leg: seq<nat>, upto: nat)
  {
    && upto <= |leg|
    && forall q: nat :: q < upto && leg[q] < |ctrl| && leg[q] < |data| ==>
                          !(ctrl[leg[q]] == Controls.Full(fp) && Holds(data[leg[q]], key))
  }

  /** No leg before `i` that `levels` selects holds the key. */
  ghost predicate UnmatchedBelow<K, V>(ctrl: seq<Control>, data: seq<Slot<K, V>>, w: Walk, key: K, fp: bv8,
                                       levels: set<nat>, i: nat)
  {
    && i <= LegCount(w.shape)
    && forall j: nat :: j < i && LegBit(w.shape, j) in levels ==> Unmatched(ctrl, data, key, fp, Leg(w, j), |Leg(w, j)|)
  }

  /** A walk that ends, or loses a draw, with nothing matched proves the key is not placed on the
      selected legs. */
  lemma MissAtEnd<K, V>(ctrl: seq<Control>, data: seq<Slot<K, V>>, w: Walk, key: K, fp: bv8, levels: set<nat>, i: nat)
    requires UnmatchedBelow(ctrl, data, w, key, fp, levels, i) && (i == LegCount(w.shape) || Leg(w, i) == [])
    ensures !MeetsKey(ctrl, data, w, key, fp, levels)
  {
    hide Leg;
    forall s: nat, j: nat, p: nat ensures !MeetsKeyAt(ctrl, data, w, key, fp, levels, s, j, p) {
      if MeetsKeyAt(ctrl, data, w, key, fp, levels, s, j, p) {
        assert false;
      }
    }
  }

  /** So does one that stops at an EMPTY slot, since no placed key has an EMPTY before it. */
  lemma MissAtEmpty<K, V>(ctrl: seq<Control>, data: seq<Slot<K, V>>, w: Walk, key: K, fp: bv8, levels: set<nat>, i: nat,
                          e: nat)
    requires UnmatchedBelow(ctrl, data, w, key, fp, levels, i) && i < LegCount(w.shape)
    requires e < |Leg(w, i)| && Leg(w, i)[e] < |ctrl| && ctrl[Leg(w, i)[e]] == Empty
    requires Unmatched(ctrl, data, key, fp, Leg(w, i), e)
    ensures !MeetsKey(ctrl, data, w, key, fp, levels)
  {
    hide Leg;
    forall s: nat, j: nat, p: nat ensures !MeetsKeyAt(ctrl, data, w, key, fp, levels, s, j, p) {
      if MeetsKeyAt(ctrl, data, w, key, fp, levels, s, j, p) {
        assert false;
      }
    }
  }

  const ALL_BITS: set<nat> := set b: nat | b <= LAST_BIT

  lemma BitsAreAll(shape: FunnelShape, slot: nat)
    ensures SlotBit(shape, slot) in ALL_BITS
  {
  }

  lemma {:induction false} ScanMeaning<K, V>(ctrl: seq<Control>, data: seq<Slot<K, V>>, key: K, fp: bv8,
                                             pos: nat, end: nat, tomb: Option<nat>)
    requires pos <= end <= |data| && end <= |ctrl|
    ensures var (r, t) := ScalarScan(ctrl, data, key, fp, pos, end, tomb);
            && (r.Hit? ==> pos <= r.slot < end && ctrl[r.slot] == Controls.Full(fp) && Holds(data[r.slot], key))
            && (r.NoStop? ==> forall x: nat :: pos <= x < end ==>
                                                 !(ctrl[x] == Controls.Full(fp) && Holds(data[x], key)))
            && (tomb.Some? ==> t == tomb && (r.EmptyAt? ==> r.slot == tomb.value))
            && (tomb.None? && t.Some? ==>
                  && pos <= t.value < end && IsFree(ctrl[t.value])
                  && (forall x: nat :: pos <= x < t.value ==> ctrl[x].Full?)
                  && (r.EmptyAt? ==> r.slot == t.value))
            && (tomb.None? && t.None? && r.EmptyAt? ==>
                  && pos <= r.slot < end && IsFree(ctrl[r.slot])
                  && (forall x: nat :: pos <= x < r.slot ==> ctrl[x].Full?))
            && (tomb.None? && t.None? && r.NoStop? ==> forall x: nat :: pos <= x < end ==> ctrl[x].Full?)
    decreases end - pos
  {
    if pos < end {
      match ctrl[pos]
      case Empty =>
      case Tombstone => ScanMeaning(ctrl, data, key, fp, pos + 1, end, if tomb.Some? then tomb else Some(pos));
      case Full(f) => ScanMeaning(ctrl, data, key, fp, pos + 1, end, tomb);
    }
  }

  /** Where an EMPTY-stopped scan stopped: nothing before it matches. */
  lemma {:induction false} ScanEmptyAt<K, V>(ctrl: seq<Control>, data: seq<Slot<K, V>>, key: K, fp: bv8,
                                             pos: nat, end: nat, tomb: Option<nat>) returns (e: nat)
    requires pos <= end <= |data| && end <= |ctrl|
    requires ScalarScan(ctrl, data, key, fp, pos, end, tomb).0.EmptyAt?
    ensures pos <= e < end && ctrl[e] == Empty
    ensures forall x: nat :: pos <= x < e ==> !(ctrl[x] == Controls.Full(fp) && Holds(data[x], key))
    decreases end - pos
  {
    match ctrl[pos]
    case Empty => e := pos;
    case Tombstone => e := ScanEmptyAt(ctrl, data, key, fp, pos + 1, end, if tomb.Some? then tomb else Some(pos));
    case Full(f) => e := ScanEmptyAt(ctrl, data, key, fp, pos + 1, end, tomb);
  }

  lemma {:induction false} LookupMeaning<K, V>(ctrl: seq<Control>, data: seq<Slot<K, V>>, key: K, fp: bv8, pos: nat,
                                               end: nat)
    requires pos <= end <= |data| && end <= |ctrl|
    ensures var r := ScalarLookup(ctrl, data, key, fp, pos, end);
            var stop := if r.NoStop? then end else r.slot;
            && pos <= stop <= end
            && (r.Hit? ==> stop < end && ctrl[stop] == Controls.Full(fp) && Holds(data[stop], key))
            && (r.EmptyAt? ==> stop < end && ctrl[stop] == Empty)
            && forall x: nat :: pos <= x < stop ==> ctrl[x] != Empty
                                                    && !(ctrl[x] == Controls.Full(fp) && Holds(data[x], key))
    decreases end - pos
  {
    if pos < end {
      LookupMeaning(ctrl, data, key, fp, pos + 1, end);
    }
  }

  /** The remembered tombstone is the walk's vacancy, or nothing free has been passed yet. */
  ghost predicate Tracks(ctrl: seq<Control>, w: Walk, tomb: Option<nat>, i: nat, ti: nat, tp: nat)
  {
    if tomb.Some? then VacancyAt(ctrl, w, tomb.value, ti, tp) else CrowdedUpTo(ctrl, w, i)
  }

  /** One bucket of the exact search: the general scan, or the clean one in a tombstone-free epoch. */
  method ScanLevel<K(==), V>(ctrl: array<Control>, data: array<Slot<K, V>>, start: nat, length: nat, key: K, fp: bv8,
                             clean: bool, tombstone: Option<nat>) returns (r: Scan, tomb: Option<nat>)
    requires start + length <= data.Length && start + length + GROUP <= ctrl.Length + 1 && length >= 1
    requires ProperFingerprint(fp) && forall i :: 0 <= i < ctrl.Length ==> Proper(ctrl[i])
    requires clean ==> tombstone.None? && forall s: nat :: s < ctrl.Length ==> ctrl[s] != Tombstone
    ensures (r, tomb) == ScalarScan(ctrl[..], data[..], key, fp, start, start + length, tombstone)
    ensures clean ==> tomb.None?
  {
    if clean {
      r := ScanCleanBucket(ctrl, start, length, fp, data, key);
      CleanScanAgrees(ctrl[..], data[..], key, fp, start, start + length);
      tomb := tombstone;
    } else {
      r, tomb := ScanBucket(ctrl, start, length, fp, tombstone, data, key);
    }
  }

  /** Exact search over the ordinary levels. `None` leaves `next` at the end of the levels, or at
      the level whose draw failed. */
  method SearchOrdinary<K(==), V>(ctrl: array<Control>, data: array<Slot<K, V>>, w: Walk, key: K, fp: bv8, clean: bool)
      returns (r: Option<SearchResult>, tomb: Option<nat>, next: nat, ghost ti: nat, ghost tp: nat)
    requires Readable(ctrl[..], data[..], w) && ProperFingerprint(fp)
    requires clean ==> forall s: nat :: s < ctrl.Length ==> ctrl[s] != Tombstone
    ensures next <= |w.shape.levels|
    ensures r.Some? && r.value.Hit? ==> r.value.slot < data.Length && ctrl[r.value.slot] == Controls.Full(fp)
                                        && Holds(data[r.value.slot], key)
    ensures r.Some? && r.value.Vacant? ==> VacancyAt(ctrl[..], w, r.value.slot, ti, tp)
                                           && !MeetsKey(ctrl[..], data[..], w, key, fp, ALL_BITS)
    ensures r.Some? ==> r.value.Hit? || r.value.Vacant?
    ensures r.None? ==> Reaches(w, next) && UnmatchedBelow(ctrl[..], data[..], w, key, fp, ALL_BITS, next)
                        && Tracks(ctrl[..], w, tomb, next, ti, tp) && (clean ==> tomb.None?)
                        && (next < |w.shape.levels| ==> Leg(w, next) == [])
  {
    hide Leg, Times, ValidShape, MeetsKey, SoundSampler;
    r, tomb, next, ti, tp := None, None, 0, 0, 0;
    while next < |w.shape.levels|
      invariant next <= |w.shape.levels| && Reaches(w, next)
      invariant UnmatchedBelow(ctrl[..], data[..], w, key, fp, ALL_BITS, next)
      invariant Tracks(ctrl[..], w, tomb, next, ti, tp) && (clean ==> tomb.None?)
      decreases |w.shape.levels| - next
    {
      OrdinaryLeg(w, next);
      var draw := w.Draw(Ordinary(next), 0, w.shape.levels[next].buckets);
      if draw.None? {
        return;
      }
      var start := w.shape.levels[next].offset + Times(draw.value, w.shape.beta);
      var scan, t := ScanLevel(ctrl, data, start, w.shape.beta, key, fp, clean, tomb);
      ti, tp := BucketStep(ctrl[..], data[..], w, key, fp, next, start, tomb, ti, tp);
      match scan
      case Hit(slot) =>
        ScanMeaning(ctrl[..], data[..], key, fp, start, start + w.shape.beta, tomb);
        return Some(SearchResult.Hit(slot)), tomb, next, ti, tp;
      case EmptyAt(slot) =>
        return Some(Vacant(slot)), tomb, next, ti, tp;
      case NoStop =>
      tomb := t;
      next := next + 1;
    }
  }

  /** What scanning the whole bucket of leg `i` establishes. */
  lemma BucketStep<K, V>(ctrl: seq<Control>, data: seq<Slot<K, V>>, w: Walk, key: K, fp: bv8, i: nat, start: nat,
                         tomb: Option<nat>, ti: nat, tp: nat) returns (ti': nat, tp': nat)
    requires Readable(ctrl, data, w) && i < LegCount(w.shape) && Reaches(w, i)
    requires w.shape.beta >= 1 && start + w.shape.beta <= w.shape.n && Leg(w, i) == Run(start, w.shape.beta)
    requires UnmatchedBelow(ctrl, data, w, key, fp, ALL_BITS, i) && Tracks(ctrl, w, tomb, i, ti, tp)
    ensures var (r, t) := ScalarScan(ctrl, data, key, fp, start, start + w.shape.beta, tomb);
            && (r.EmptyAt? ==> VacancyAt(ctrl, w, r.slot, ti', tp') && !MeetsKey(ctrl, data, w, key, fp, ALL_BITS))
            && (r.NoStop? ==> Reaches(w, i + 1) && UnmatchedBelow(ctrl, data, w, key, fp, ALL_BITS, i + 1)
                              && Tracks(ctrl, w, t, i + 1, ti', tp'))
  {
    hide Leg, Times, ValidShape, MeetsKey, SoundSampler;
    var end := start + w.shape.beta;
    var (r, t) := ScalarScan(ctrl, data, key, fp, start, end, tomb);
    ScanMeaning(ctrl, data, key, fp, start, end, tomb);
    ti', tp' := ti, tp;
    if tomb.None? && (t.Some? || r.EmptyAt?) {
      ti', tp' := i, (if t.Some? then t.value else r.slot) - start;
      assert Leg(w, i)[tp'] == start + tp';
    }
    if r.EmptyAt? {
      var e := ScanEmptyAt(ctrl, data, key, fp, start, end, tomb);
      assert Leg(w, i)[e - start] == e;
      MissAtEmpty(ctrl, data, w, key, fp, ALL_BITS, i, e - start);
    } else if r.NoStop? {
      if t.None? {
        CrowdedNext(ctrl, w, i);
      }
    }
  }

  /** Progress of a search inside leg `i`: `p` slots inspected, none holding the key and none EMPTY. */
  ghost predicate InLeg<K, V>(ctrl: seq<Control>, data: seq<Slot<K, V>>, w: Walk, key: K, fp: bv8,
                              tomb: Option<nat>, i: nat, p: nat, ti: nat, tp: nat)
  {
    && i < LegCount(w.shape) && Reaches(w, i) && p <= |Leg(w, i)|
    && UnmatchedBelow(ctrl, data, w, key, fp, ALL_BITS, i) && Unmatched(ctrl, data, key, fp, Leg(w, i), p)
    && (if tomb.Some? then VacancyAt(ctrl, w, tomb.value, ti, tp)
        else CrowdedUpTo(ctrl, w, i) && Crowded(ctrl, Leg(w, i), p))
  }

  /** `inspect_slot`: an EMPTY ends the walk, a fingerprint match is compared, anything else passes. */
  method InspectSlot<K(==), V>(ctrl: array<Control>, data: array<Slot<K, V>>, slot: nat, key: K, fp: bv8)
      returns (r: Option<bool>)
    requires slot < data.Length && slot < ctrl.Length
    ensures r == Some(false) <==> ctrl[slot] == Empty
    ensures r == Some(true) <==> ctrl[slot] == Controls.Full(fp) && Holds(data[slot], key)
  {
    if ctrl[slot] == Empty {
      return Some(false);
    }
    if ctrl[slot] == Controls.Full(fp) {
      if Holds(data[slot], key) {
        return Some(true);
      }
    }
    return None;
  }

  /** One special-array slot of the exact search. */
  method SearchSlot<K(==), V>(ctrl: array<Control>, data: array<Slot<K, V>>, w: Walk, key: K, fp: bv8, slot: nat,
                              tombstone: Option<nat>, ghost i: nat, ghost p: nat, ghost ti: nat, ghost tp: nat)
      returns (r: Option<SearchResult>, tomb: Option<nat>, ghost ti': nat, ghost tp': nat)
    requires Readable(ctrl[..], data[..], w)
    requires InLeg(ctrl[..], data[..], w, key, fp, tombstone, i, p, ti, tp) && p < |Leg(w, i)|
             && Leg(w, i)[p] == slot < data.Length
    ensures r.Some? ==> r.value.Hit? || r.value.Vacant?
    ensures r.Some? && r.value.Hit? ==> r.value.slot < data.Length && ctrl[r.value.slot] == Controls.Full(fp)
                                        && Holds(data[r.value.slot], key)
    ensures r.Some? && r.value.Vacant? ==> VacancyAt(ctrl[..], w, r.value.slot, ti', tp')
                                           && !MeetsKey(ctrl[..], data[..], w, key, fp, ALL_BITS)
    ensures r.None? ==> InLeg(ctrl[..], data[..], w, key, fp, tomb, i, p + 1, ti', tp')
  {
    hide Leg, Times, ValidShape, MeetsKey, SoundSampler;
    r, tomb, ti', tp' := None, tombstone, ti, tp;
    if ctrl[slot] == Tombstone {
      if tomb.None? {
        tomb, ti', tp' := Some(slot), i, p;
      }
      return;
    }
    var inspected := InspectSlot(ctrl, data, slot, key, fp);
    if inspected == Some(true) {
      return Some(SearchResult.Hit(slot)), tomb, ti, tp;
    }
    if inspected == Some(false) {
      MissAtEmpty(ctrl[..], data[..], w, key, fp, ALL_BITS, i, p);
      if tomb.None? {
        ti', tp' := i, p;
      }
      return Some(Vacant(if tomb.Some? then tomb.value else slot)), tomb, ti', tp';
    }
  }

  lemma LegDone<K, V>(ctrl: seq<Control>, data: seq<Slot<K, V>>, w: Walk, key: K, fp: bv8,
                      tomb: Option<nat>, i: nat, ti: nat, tp: nat)
    requires i < LegCount(w.shape) && Leg(w, i) != []
    requires InLeg(ctrl, data, w, key, fp, tomb, i, |Leg(w, i)|, ti, tp)
    ensures Reaches(w, i + 1) && UnmatchedBelow(ctrl, data, w, key, fp, ALL_BITS, i + 1)
            && Tracks(ctrl, w, tomb, i + 1, ti, tp)
  {
  }

  lemma LegStart<K, V>(ctrl: seq<Control>, data: seq<Slot<K, V>>, w: Walk, key: K, fp: bv8,
                       tomb: Option<nat>, i: nat, ti: nat, tp: nat)
    requires i < LegCount(w.shape) && Reaches(w, i)
    requires UnmatchedBelow(ctrl, data, w, key, fp, ALL_BITS, i) && Tracks(ctrl, w, tomb, i, ti, tp)
    ensures InLeg(ctrl, data, w, key, fp, tomb, i, 0, ti, tp)
  {
  }

  /** The result of a walk that ran out: the remembered tombstone, or `otherwise`. */
  method WalkEnded<K(==), V>(ctrl: array<Control>, data: array<Slot<K, V>>, w: Walk, key: K, fp: bv8,
                             tomb: Option<nat>, ghost i: nat, ghost ti: nat, ghost tp: nat, otherwise: SearchResult)
      returns (r: SearchResult)
    requires UnmatchedBelow(ctrl[..], data[..], w, key, fp, ALL_BITS, i) && (i == LegCount(w.shape) || Leg(w, i) == [])
    requires Tracks(ctrl[..], w, tomb, i, ti, tp) && (otherwise.Full? || otherwise.RangeFailure?)
    ensures !MeetsKey(ctrl[..], data[..], w, key, fp, ALL_BITS)
    ensures r == (if tomb.Some? then Vacant(tomb.value) else otherwise)
    ensures r.Vacant? ==> VacancyAt(ctrl[..], w, r.slot, ti, tp)
    ensures !r.Vacant? ==> NoVacancy(ctrl[..], w)
  {
    MissAtEnd(ctrl[..], data[..], w, key, fp, ALL_BITS, i);
    if tomb.Some? {
      return Vacant(tomb.value);
    }
    CrowdedEnd(ctrl[..], w, i);
    return otherwise;
  }

  /** Exact search over the special arrays. */
  method SearchSpecial<K(==), V>(ctrl: array<Control>, data: array<Slot<K, V>>, w: Walk, key: K, fp: bv8,
                                 tombstone: Option<nat>, ghost ti0: nat, ghost tp0: nat)
      returns (r: SearchResult, ghost ti: nat, ghost tp: nat)
    requires Readable(ctrl[..], data[..], w) && Reaches(w, |w.shape.levels|)
    requires UnmatchedBelow(ctrl[..], data[..], w, key, fp, ALL_BITS, |w.shape.levels|)
    requires Tracks(ctrl[..], w, tombstone, |w.shape.levels|, ti0, tp0)
    ensures r.Hit? ==> r.slot < data.Length && ctrl[r.slot] == Controls.Full(fp) && Holds(data[r.slot], key)
    ensures !r.Hit? ==> !MeetsKey(ctrl[..], data[..], w, key, fp, ALL_BITS)
    ensures r.Vacant? ==> VacancyAt(ctrl[..], w, r.slot, ti, tp)
    ensures r.Full? || r.RangeFailure? ==> NoVacancy(ctrl[..], w)
  {
    hide Leg, Times, ValidShape, MeetsKey, SoundSampler, NoVacancy, VacancyAt, Tracks, UnmatchedBelow, Reaches, InLeg;
    var tomb, probe := tombstone, 0;
    ghost var i := |w.shape.levels|;
    ti, tp := ti0, tp0;
    while probe < w.shape.loglog
      invariant probe <= w.shape.loglog && i == |w.shape.levels| + probe && Reaches(w, i)
      invariant UnmatchedBelow(ctrl[..], data[..], w, key, fp, ALL_BITS, i) && Tracks(ctrl[..], w, tomb, i, ti, tp)
    {
      PrimaryLeg(w, probe);
      var local := w.Draw(Primary, probe, w.shape.primaryLen);
      if local.None? {
        r := WalkEnded(ctrl, data, w, key, fp, tomb, i, ti, tp, RangeFailure);
        return;
      }
      LegStart(ctrl[..], data[..], w, key, fp, tomb, i, ti, tp);
      var found;
      found, tomb, ti, tp := SearchSlot(ctrl, data, w, key, fp, w.shape.primaryOffset + local.value, tomb, i, 0, ti,
                                        tp);
      if found.Some? {
        return found.value, ti, tp;
      }
      LegDone(ctrl[..], data[..], w, key, fp, tomb, i, ti, tp);
      probe, i := probe + 1, i + 1;
    }
    FallbackLeg(w);
    var a := w.Draw(FallbackA, 0, w.shape.fallbackBuckets);
    if a.None? {
      r := WalkEnded(ctrl, data, w, key, fp, tomb, i, ti, tp, RangeFailure);
      return;
    }
    var b := w.Draw(FallbackB, 0, w.shape.fallbackBuckets);
    if b.None? {
      r := WalkEnded(ctrl, data, w, key, fp, tomb, i, ti, tp, RangeFailure);
      return;
    }
    LegStart(ctrl[..], data[..], w, key, fp, tomb, i, ti, tp);
    var width := w.shape.fallbackWidth;
    var starts := [w.shape.fallbackOffset + Times(a.value, width), w.shape.fallbackOffset + Times(b.value, width)];
    var slotInBucket := 0;
    while slotInBucket < width
      invariant slotInBucket <= width && InLeg(ctrl[..], data[..], w, key, fp, tomb, i, 2 * slotInBucket, ti, tp)
    {
      var which := 0;
      while which < 2
        invariant which <= 2 && InLeg(ctrl[..], data[..], w, key, fp, tomb, i, 2 * slotInBucket + which, ti, tp)
      {
        var found;
        found, tomb, ti, tp :=
          SearchSlot(ctrl, data, w, key, fp, starts[which] + slotInBucket, tomb, i, 2 * slotInBucket + which, ti, tp);
        if found.Some? {
          return found.value, ti, tp;
        }
        which := which + 1;
      }
      slotInBucket := slotInBucket + 1;
    }
    LegDone(ctrl[..], data[..], w, key, fp, tomb, i, ti, tp);
    r := WalkEnded(ctrl, data, w, key, fp, tomb, i + 1, ti, tp, SearchResult.Full);
  }

  /** The exact search, in its general and its tombstone-free mode: a hit is the key, a vacancy is
      the walk's first free slot, and anything but a hit proves the key is not placed. */
  method SearchExact<K(==), V>(ctrl: array<Control>, data: array<Slot<K, V>>, w: Walk, key: K, fp: bv8, clean: bool)
      returns (r: SearchResult, ghost ti: nat, ghost tp: nat)
    requires Readable(ctrl[..], data[..], w) && ProperFingerprint(fp)
    requires clean ==> forall s: nat :: s < ctrl.Length ==> ctrl[s] != Tombstone
    ensures r.Hit? ==> r.slot < data.Length && ctrl[r.slot] == Controls.Full(fp) && Holds(data[r.slot], key)
    ensures !r.Hit? ==> !MeetsKey(ctrl[..], data[..], w, key, fp, ALL_BITS)
    ensures r.Vacant? ==> VacancyAt(ctrl[..], w, r.slot, ti, tp)
    ensures r.Full? || r.RangeFailure? ==> NoVacancy(ctrl[..], w)
  {
    hide Leg, Times, ValidShape, MeetsKey, SoundSampler, NoVacancy, VacancyAt, Tracks, UnmatchedBelow, Reaches;
    var found, tomb, next;
    found, tomb, next, ti, tp := SearchOrdinary(ctrl, data, w, key, fp, clean);
    if found.Some? {
      return found.value, ti, tp;
    }
    if next < |w.shape.levels| {
      r := WalkEnded(ctrl, data, w, key, fp, tomb, next, ti, tp, RangeFailure);
      return;
    }
    r, ti, tp := SearchSpecial(ctrl, data, w, key, fp, tomb, ti, tp);
  }

  /** An exact search that misses and the placement walk come to the same thing: the same vacancy, with
      the level bit its slot yields, or none at all. */
  method SearchesAgree<K(==), V>(ctrl: array<Control>, data: array<Slot<K, V>>, w: Walk, key: K, fp: bv8, clean: bool)
      returns (exact: SearchResult, vacancy: Option<Vacancy>)
    requires Readable(ctrl[..], data[..], w) && ProperFingerprint(fp)
    requires clean ==> forall s: nat :: s < ctrl.Length ==> ctrl[s] != Tombstone
    ensures exact.Hit? ==> exact.slot < data.Length && ctrl[exact.slot] == Controls.Full(fp)
                           && Holds(data[exact.slot], key)
    ensures !exact.Hit? ==> (exact.Vacant? <==> vacancy.Some?)
    ensures exact.Vacant? ==> vacancy == Some(Vacancy(exact.slot, SlotBit(w.shape, exact.slot)))
    ensures exact.Full? || exact.RangeFailure? ==> vacancy.None? && NoVacancy(ctrl[..], w)
  {
    hide Leg, Times, ValidShape, MeetsKey, SoundSampler, VacancyAt, SlotBit;
    ghost var ti, tp, i, p;
    exact, ti, tp := SearchExact(ctrl, data, w, key, fp, clean);
    vacancy, i, p := SearchVacancy(ctrl, w);
    if exact.Vacant? && vacancy.Some? {
      VacancyUnique(ctrl[..], w, exact.slot, ti, tp, vacancy.value.slot, i, p);
    }
  }

  // ---- Level-masked lookup ----

  /** Tombstone-blind scan of the key's bucket on one ordinary level; `None` is a failed draw. */
  method LookupLevel<K(==), V>(ctrl: array<Control>, data: array<Slot<K, V>>, w: Walk, key: K, fp: bv8,
                               levels: set<nat>, level: nat) returns (r: Option<Scan>)
    requires Readable(ctrl[..], data[..], w) && ProperFingerprint(fp) && level < |w.shape.levels|
    requires UnmatchedBelow(ctrl[..], data[..], w, key, fp, levels, level)
    ensures r.None? || r.value.EmptyAt? ==> !MeetsKey(ctrl[..], data[..], w, key, fp, levels)
    ensures r.Some? && r.value.Hit? ==>
              r.value.slot < data.Length && ctrl[r.value.slot] == Controls.Full(fp) && Holds(data[r.value.slot], key)
              && SlotBit(w.shape, r.value.slot) == LegBit(w.shape, level)
    ensures r.Some? && r.value.NoStop? ==> UnmatchedBelow(ctrl[..], data[..], w, key, fp, levels, level + 1)
  {
    hide Leg, Times, ValidShape, MeetsKey, SoundSampler, SlotBit;
    OrdinaryLeg(w, level);
    var draw := w.Draw(Ordinary(level), 0, w.shape.levels[level].buckets);
    if draw.None? {
      MissAtEnd(ctrl[..], data[..], w, key, fp, levels, level);
      return None;
    }
    var start := w.shape.levels[level].offset + Times(draw.value, w.shape.beta);
    var scan := ScanCleanBucket(ctrl, start, w.shape.beta, fp, data, key);
    LookupMeaning(ctrl[..], data[..], key, fp, start, start + w.shape.beta);
    if scan.EmptyAt? {
      assert Leg(w, level)[scan.slot - start] == scan.slot;
      MissAtEmpty(ctrl[..], data[..], w, key, fp, levels, level, scan.slot - start);
    }
    if scan.Hit? {
      LegSlots(w, level, scan.slot - start);
    }
    return Some(scan);
  }

  /** Levels the bin does not record count as unmatched. */
  lemma SkipLevel<K, V>(ctrl: seq<Control>, data: seq<Slot<K, V>>, w: Walk, key: K, fp: bv8, levels: set<nat>, i: nat)
    requires i < LegCount(w.shape) && LegBit(w.shape, i) !in levels
    requires UnmatchedBelow(ctrl, data, w, key, fp, levels, i)
    ensures UnmatchedBelow(ctrl, data, w, key, fp, levels, i + 1)
  {
  }

  /** Read-only lookup: the walk's legs restricted to the recorded levels, shallowest first. */
  method LookupRecordedLevels<K(==), V>(ctrl: array<Control>, data: array<Slot<K, V>>, w: Walk, key: K, fp: bv8,
                                        levels: set<nat>) returns (r: Option<nat>)
    requires Readable(ctrl[..], data[..], w) && ProperFingerprint(fp)
    ensures r.Some? ==> r.value < data.Length && ctrl[r.value] == Controls.Full(fp) && Holds(data[r.value], key)
                        && SlotBit(w.shape, r.value) in levels
    ensures r.None? ==> !MeetsKey(ctrl[..], data[..], w, key, fp, levels)
  {
    hide Leg, Times, MeetsKey, SoundSampler, TiledLevels, Unmatched, SlotBit;
    var level := 0;
    while level < LAST_BIT
      invariant level <= LAST_BIT && UnmatchedBelow(ctrl[..], data[..], w, key, fp, levels, level)
    {
      if level in levels {
        var scan := LookupLevel(ctrl, data, w, key, fp, levels, level);
        if scan.None? {
          return None;
        }
        if scan.value.Hit? {
          return Some(scan.value.slot);
        }
        if scan.value.EmptyAt? {
          return None;
        }
      } else {
        SkipLevel(ctrl[..], data[..], w, key, fp, levels, level);
      }
      level := level + 1;
    }
    if LAST_BIT !in levels {
      assert UnmatchedBelow(ctrl[..], data[..], w, key, fp, levels, LegCount(w.shape));
      MissAtEnd(ctrl[..], data[..], w, key, fp, levels, LegCount(w.shape));
      return None;
    }
    r := LookupOverflowLevels(ctrl, data, w, key, fp, levels);
  }

  /** One special-array slot of the lookup: `Some(true)` hit, `Some(false)` miss, `None` go on. */
  method LookupSlot<K(==), V>(ctrl: array<Control>, data: array<Slot<K, V>>, w: Walk, key: K, fp: bv8, levels: set<nat>,
                              slot: nat, ghost i: nat, ghost p: nat) returns (r: Option<bool>)
    requires Readable(ctrl[..], data[..], w) && i < LegCount(w.shape)
    requires p < |Leg(w, i)| && Leg(w, i)[p] == slot < data.Length
    requires UnmatchedBelow(ctrl[..], data[..], w, key, fp, levels, i)
             && Unmatched(ctrl[..], data[..], key, fp, Leg(w, i), p)
    ensures r == Some(true) ==> ctrl[slot] == Controls.Full(fp) && Holds(data[slot], key)
                                && SlotBit(w.shape, slot) == LegBit(w.shape, i)
    ensures r == Some(false) ==> !MeetsKey(ctrl[..], data[..], w, key, fp, levels)
    ensures r == None ==> Unmatched(ctrl[..], data[..], key, fp, Leg(w, i), p + 1)
  {
    hide Leg, SlotBit, ValidShape, SoundSampler, MeetsKey;
    LegSlots(w, i, p);
    r := InspectSlot(ctrl, data, slot, key, fp);
    if r == Some(false) {
      MissAtEmpty(ctrl[..], data[..], w, key, fp, levels, i, p);
    }
  }

  /** Overflow leg: every deeper ordinary level, then the special arrays. */
  method LookupOverflowLevels<K(==), V>(ctrl: array<Control>, data: array<Slot<K, V>>, w: Walk, key: K, fp: bv8,
                                        levels: set<nat>) returns (r: Option<nat>)
    requires Readable(ctrl[..], data[..], w) && ProperFingerprint(fp)
    requires LAST_BIT in levels && UnmatchedBelow(ctrl[..], data[..], w, key, fp, levels, LAST_BIT)
    ensures r.Some? ==> r.value < data.Length && ctrl[r.value] == Controls.Full(fp) && Holds(data[r.value], key)
                        && SlotBit(w.shape, r.value) in levels
    ensures r.None? ==> !MeetsKey(ctrl[..], data[..], w, key, fp, levels)
  {
    hide Leg, Times, MeetsKey, SoundSampler, TiledLevels, Unmatched, UnmatchedBelow, SlotBit;
    var level := LAST_BIT;
    while level < |w.shape.levels|
      invariant level <= |w.shape.levels| && UnmatchedBelow(ctrl[..], data[..], w, key, fp, levels, level)
    {
      var scan := LookupLevel(ctrl, data, w, key, fp, levels, level);
      if scan.None? {
        return None;
      }
      if scan.value.Hit? {
        return Some(scan.value.slot);
      }
      if scan.value.EmptyAt? {
        return None;
      }
      level := level + 1;
    }
    r := LookupSpecial(ctrl, data, w, key, fp, levels);
  }

  lemma LegUnmatched<K, V>(ctrl: seq<Control>, data: seq<Slot<K, V>>, w: Walk, key: K, fp: bv8, levels: set<nat>,
                           i: nat)
    requires i < LegCount(w.shape) && UnmatchedBelow(ctrl, data, w, key, fp, levels, i)
    requires Unmatched(ctrl, data, key, fp, Leg(w, i), |Leg(w, i)|)
    ensures UnmatchedBelow(ctrl, data, w, key, fp, levels, i + 1)
  {
  }

  /** The two fallback buckets, the walk's last leg. */
  method LookupFallback<K(==), V>(ctrl: array<Control>, data: array<Slot<K, V>>, w: Walk, key: K, fp: bv8,
                                  levels: set<nat>) returns (r: Option<nat>)
    requires Readable(ctrl[..], data[..], w) && ProperFingerprint(fp) && LAST_BIT in levels
    requires UnmatchedBelow(ctrl[..], data[..], w, key, fp, levels, |w.shape.levels| + w.shape.loglog)
    ensures r.Some? ==> r.value < data.Length && ctrl[r.value] == Controls.Full(fp) && Holds(data[r.value], key)
                        && SlotBit(w.shape, r.value) in levels
    ensures r.None? ==> !MeetsKey(ctrl[..], data[..], w, key, fp, levels)
  {
    hide Leg, Times, MeetsKey, SoundSampler, ValidShape, UnmatchedBelow, SlotBit;
    ghost var i := |w.shape.levels| + w.shape.loglog;
    FallbackLeg(w);
    var a := w.Draw(FallbackA, 0, w.shape.fallbackBuckets);
    if a.None? {
      MissAtEnd(ctrl[..], data[..], w, key, fp, levels, i);
      return None;
    }
    var b := w.Draw(FallbackB, 0, w.shape.fallbackBuckets);
    if b.None? {
      MissAtEnd(ctrl[..], data[..], w, key, fp, levels, i);
      return None;
    }
    var width := w.shape.fallbackWidth;
    var starts := [w.shape.fallbackOffset + Times(a.value, width), w.shape.fallbackOffset + Times(b.value, width)];
    var slotInBucket := 0;
    while slotInBucket < width
      invariant slotInBucket <= width && Unmatched(ctrl[..], data[..], key, fp, Leg(w, i), 2 * slotInBucket)
    {
      var which := 0;
      while which < 2
        invariant which <= 2 && Unmatched(ctrl[..], data[..], key, fp, Leg(w, i), 2 * slotInBucket + which)
      {
        var slot := starts[which] + slotInBucket;
        var found := LookupSlot(ctrl, data, w, key, fp, levels, slot, i, 2 * slotInBucket + which);
        if found.Some? {
          return if found.value then Some(slot) else None;
        }
        which := which + 1;
      }
      slotInBucket := slotInBucket + 1;
    }
    LegUnmatched(ctrl[..], data[..], w, key, fp, levels, i);
    MissAtEnd(ctrl[..], data[..], w, key, fp, levels, i + 1);
    return None;
  }

  method LookupSpecial<K(==), V>(ctrl: array<Control>, data: array<Slot<K, V>>, w: Walk, key: K, fp: bv8,
                                 levels: set<nat>) returns (r: Option<nat>)
    requires Readable(ctrl[..], data[..], w) && ProperFingerprint(fp)
    requires LAST_BIT in levels && UnmatchedBelow(ctrl[..], data[..], w, key, fp, levels, |w.shape.levels|)
    ensures r.Some? ==> r.value < data.Length && ctrl[r.value] == Controls.Full(fp) && Holds(data[r.value], key)
                        && SlotBit(w.shape, r.value) in levels
    ensures r.None? ==> !MeetsKey(ctrl[..], data[..], w, key, fp, levels)
  {
    hide Leg, Times, MeetsKey, SoundSampler, ValidShape, UnmatchedBelow, SlotBit;
    var probe := 0;
    ghost var i := |w.shape.levels|;
    while probe < w.shape.loglog
      invariant probe <= w.shape.loglog && i == |w.shape.levels| + probe
      invariant UnmatchedBelow(ctrl[..], data[..], w, key, fp, levels, i)
    {
      PrimaryLeg(w, probe);
      var local := w.Draw(Primary, probe, w.shape.primaryLen);
      if local.None? {
        MissAtEnd(ctrl[..], data[..], w, key, fp, levels, i);
        return None;
      }
      var slot := w.shape.primaryOffset + local.value;
      var found := LookupSlot(ctrl, data, w, key, fp, levels, slot, i, 0);
      if found.Some? {
        return if found.value then Some(slot) else None;
      }
      LegUnmatched(ctrl[..], data[..], w, key, fp, levels, i);
      probe, i := probe + 1, i + 1;
    }
    r := LookupFallback(ctrl, data, w, key, fp, levels);
  }
}
