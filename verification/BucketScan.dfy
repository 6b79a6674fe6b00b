/** Bucket scans over control groups, against the in-order scalar scan of the same slots. */
module BucketScan {
  import opened Swar
  import opened Controls
  import opened Wrappers
  import opened Store

  datatype Scan = Hit(slot: nat) | EmptyAt(slot: nat) | NoStop

  /** The scalar scan: slots one by one, remembering the first tombstone, stopping at the first
      EMPTY or at the entry for `key`. An EMPTY reports the remembered tombstone if there is one. */
  function ScalarScan<K(==), V>(ctrl: seq<Control>, data: seq<Slot<K, V>>, key: K, fp: bv8,
                                pos: nat, end: nat, tomb: Option<nat>): (Scan, Option<nat>)
    requires pos <= end <= |data| && end <= |ctrl|
    decreases end - pos
  {
    if pos == end then (NoStop, tomb)
    else match ctrl[pos]
      case Empty => (EmptyAt(if tomb.Some? then tomb.value else pos), tomb)
      case Tombstone => ScalarScan(ctrl, data, key, fp, pos + 1, end, if tomb.Some? then tomb else Some(pos))
      case Full(f) =>
        if f == fp && Holds(data[pos], key) then (Hit(pos), tomb)
        else ScalarScan(ctrl, data, key, fp, pos + 1, end, tomb)
  }

  /** First free slot of a range, if any. */
  function FirstFree(ctrl: seq<Control>, pos: nat, end: nat): Option<nat>
    requires pos <= end <= |ctrl|
    decreases end - pos
  {
    if pos == end then None
    else if IsFree(ctrl[pos]) then Some(pos)
    else FirstFree(ctrl, pos + 1, end)
  }

  /** Tombstone-blind scalar scan: first EMPTY or the entry for `key`. */
  function ScalarLookup<K(==), V>(ctrl: seq<Control>, data: seq<Slot<K, V>>, key: K, fp: bv8, pos: nat, end: nat): Scan
    requires pos <= end <= |data| && end <= |ctrl|
    decreases end - pos
  {
    if pos == end then NoStop
    else match ctrl[pos]
      case Empty => EmptyAt(pos)
      case Tombstone => ScalarLookup(ctrl, data, key, fp, pos + 1, end)
      case Full(f) =>
        if f == fp && Holds(data[pos], key) then Hit(pos)
        else ScalarLookup(ctrl, data, key, fp, pos + 1, end)
  }

  /** A slot the scalar scan passes over. */
  predicate Passed<K(==), V>(ctrl: seq<Control>, data: seq<Slot<K, V>>, key: K, fp: bv8, s: nat)
    requires s < |ctrl| && s < |data|
  {
    ctrl[s].Full? && (ctrl[s].fp == fp ==> !Holds(data[s], key))
  }

  lemma {:induction false} SkipPassed<K, V>(ctrl: seq<Control>, data: seq<Slot<K, V>>, key: K, fp: bv8,
                                            pos: nat, next: nat, end: nat, tomb: Option<nat>)
    requires pos <= next <= end <= |data| && end <= |ctrl|
    requires forall s: nat :: pos <= s < next ==> Passed(ctrl, data, key, fp, s)
    ensures ScalarScan(ctrl, data, key, fp, pos, end, tomb) == ScalarScan(ctrl, data, key, fp, next, end, tomb)
    decreases next - pos
  {
    if pos < next {
      assert Passed(ctrl, data, key, fp, pos);
      SkipPassed(ctrl, data, key, fp, pos + 1, next, end, tomb);
    }
  }

  /** What is left of a mask being walked: the flagged lanes at or past `from`. */
  ghost predicate MaskFrom(mask: bv64, from: nat, flagged: seq<bool>)
    requires |flagged| == 8
  {
    && LaneBits(mask)
    && forall i: nat :: i < 8 ==> (InMask(mask, i) <==> from <= i && flagged[i])
  }

  lemma WalkMask(mask: bv64, from: nat, flagged: seq<bool>)
    requires |flagged| == 8 && from <= 8 && MaskFrom(mask, from, flagged)
    ensures mask == 0 ==> forall i: nat :: from <= i < 8 ==> !flagged[i]
    ensures mask != 0 ==>
              var lane := LowestLane(mask);
              && from <= lane < 8 && flagged[lane]
              && (forall i: nat :: from <= i < lane ==> !flagged[i])
              && MaskFrom(ClearLowest(mask), lane + 1, flagged)
  {
    hide LaneBits, InMask, LowestLane;
    if mask == 0 {
      forall i: nat | from <= i < 8 ensures !flagged[i] {
        EmptyMask(i);
      }
    } else {
      var lane, rest := LowestLane(mask), ClearLowest(mask);
      NextLane(mask, lane);
      assert LaneBits(rest);
      forall i: nat | i < 8
        ensures InMask(rest, i) <==> lane + 1 <= i && flagged[i]
        ensures from <= i < lane ==> !flagged[i]
      {
        NextLane(mask, i);
      }
      assert MaskFrom(rest, lane + 1, flagged);
    }
  }

  ghost function StopFlags(g: seq<Control>, fp: bv8): seq<bool>
    requires |g| == 8
  {
    seq(8, i requires 0 <= i < 8 => IsFree(g[i]) || g[i] == Full(fp))
  }

  lemma StopMask(g: seq<Control>, fp: bv8)
    requires |g| == 8 && ProperFingerprint(fp) && forall i :: 0 <= i < 8 ==> Proper(g[i])
    ensures MaskFrom(FreeMask(WordOf(g)) | EqMask(WordOf(g), fp), 0, StopFlags(g, fp))
  {
    hide LaneBits, InMask, FreeMask, EqMask, WordOf;
    forall i: nat | i < 8
      ensures LaneBits(FreeMask(WordOf(g)) | EqMask(WordOf(g), fp))
      ensures InMask(FreeMask(WordOf(g)) | EqMask(WordOf(g), fp), i) <==> StopFlags(g, fp)[i]
    {
      StopLane(g, fp, i);
    }
    StopLane(g, fp, 0);
  }

  lemma StopLane(g: seq<Control>, fp: bv8, i: nat)
    requires |g| == 8 && i < 8 && ProperFingerprint(fp) && Proper(g[i])
    ensures LaneBits(FreeMask(WordOf(g)) | EqMask(WordOf(g), fp))
    ensures InMask(FreeMask(WordOf(g)) | EqMask(WordOf(g), fp), i) <==> IsFree(g[i]) || g[i] == Full(fp)
  {
    hide LaneBits, InMask, FreeMask, EqMask, WordOf;
    GroupMasks(g, Full(fp), i);
    OrLanes(FreeMask(WordOf(g)), EqMask(WordOf(g), fp), i);
  }

  /** One masked group of at most eight logical slots. */
  method ScanGroup<K(==), V>(ctrl: array<Control>, start: nat, lanes: nat, fp: bv8,
                             tombstone: Option<nat>, data: array<Slot<K, V>>, key: K)
      returns (r: Scan, tomb: Option<nat>)
    requires lanes <= GROUP && start + lanes <= data.Length && start + GROUP <= ctrl.Length
    requires ProperFingerprint(fp) && forall i :: 0 <= i < ctrl.Length ==> Proper(ctrl[i])
    ensures (r, tomb) == ScalarScan(ctrl[..], data[..], key, fp, start, start + lanes, tombstone)
  {
    hide LaneBits, InMask, FreeMask, EqMask, WordOf, LowestLane, ScalarScan;
    var g := ctrl[start..start + GROUP];
    var events := FreeMask(WordOf(g)) | EqMask(WordOf(g), fp);
    StopMask(g, fp);
    tomb := tombstone;
    ghost var from := 0;
    while events != 0
      invariant from <= 8 && from <= lanes && MaskFrom(events, from, StopFlags(g, fp))
      invariant ScalarScan(ctrl[..], data[..], key, fp, start, start + lanes, tombstone)
             == ScalarScan(ctrl[..], data[..], key, fp, start + from, start + lanes, tomb)
      decreases 8 - from
    {
      WalkMask(events, from, StopFlags(g, fp));
      var lane := LowestLane(events);
      events := events & (events - 1);
      ghost var next := if lane < lanes then lane else lanes;
      forall s: nat | start + from <= s < start + next ensures Passed(ctrl[..], data[..], key, fp, s) {
        assert !StopFlags(g, fp)[s - start] && g[s - start] == ctrl[s];
      }
      SkipPassed(ctrl[..], data[..], key, fp, start + from, start + next, start + lanes, tomb);
      ScanEnds(ctrl[..], data[..], key, fp, start + lanes, tomb);
      if lane >= lanes {
        return NoStop, tomb;
      }
      var slot := start + lane;
      assert ctrl[start..start + GROUP][lane] == ctrl[..][start + lane];
      ScanHere(ctrl[..], data[..], key, fp, slot, start + lanes, tomb);
      if ctrl[slot] == Tombstone {
        if tomb.None? {
          tomb := Some(slot);
        }
      } else if ctrl[slot] == Empty {
        return EmptyAt(if tomb.Some? then tomb.value else slot), tomb;
      } else if Holds(data[slot], key) {
        return Hit(slot), tomb;
      }
      from := lane + 1;
    }
    WalkMask(events, from, StopFlags(g, fp));
    forall s: nat | start + from <= s < start + lanes ensures Passed(ctrl[..], data[..], key, fp, s) {
      assert !StopFlags(g, fp)[s - start] && g[s - start] == ctrl[s];
    }
    SkipPassed(ctrl[..], data[..], key, fp, start + from, start + lanes, start + lanes, tomb);
    ScanEnds(ctrl[..], data[..], key, fp, start + lanes, tomb);
    return NoStop, tomb;
  }

  lemma ScanEnds<K, V>(ctrl: seq<Control>, data: seq<Slot<K, V>>, key: K, fp: bv8, end: nat, tomb: Option<nat>)
    requires end <= |data| && end <= |ctrl|
    ensures ScalarScan(ctrl, data, key, fp, end, end, tomb) == (NoStop, tomb)
  {
  }

  /** What a scan makes of one slot. */
  lemma ScanHere<K, V>(ctrl: seq<Control>, data: seq<Slot<K, V>>, key: K, fp: bv8, pos: nat, end: nat,
                       tomb: Option<nat>)
    requires pos < end <= |data| && end <= |ctrl|
    ensures ScalarScan(ctrl, data, key, fp, pos, end, tomb)
         == match ctrl[pos]
            case Empty => (EmptyAt(if tomb.Some? then tomb.value else pos), tomb)
            case Tombstone => ScalarScan(ctrl, data, key, fp, pos + 1, end, if tomb.Some? then tomb else Some(pos))
            case Full(f) =>
              if f == fp && Holds(data[pos], key) then (Hit(pos), tomb)
              else ScalarScan(ctrl, data, key, fp, pos + 1, end, tomb)
  {
  }

  /** A scan that passes `mid` without stopping goes on from there with the tombstone it has. */
  lemma {:induction false} ScanSplits<K, V>(ctrl: seq<Control>, data: seq<Slot<K, V>>, key: K, fp: bv8,
                                            pos: nat, mid: nat, end: nat, tomb: Option<nat>)
    requires pos <= mid <= end <= |data| && end <= |ctrl|
    ensures var (r, t) := ScalarScan(ctrl, data, key, fp, pos, mid, tomb);
            ScalarScan(ctrl, data, key, fp, pos, end, tomb)
              == if r.NoStop? then ScalarScan(ctrl, data, key, fp, mid, end, t) else (r, t)
    decreases mid - pos
  {
    if pos < mid {
      match ctrl[pos]
      case Empty =>
      case Tombstone => ScanSplits(ctrl, data, key, fp, pos + 1, mid, end, if tomb.Some? then tomb else Some(pos));
      case Full(f) => ScanSplits(ctrl, data, key, fp, pos + 1, mid, end, tomb);
    }
  }

  /** One bucket of any length: a single masked group, or group after group. */
  method ScanBucket<K(==), V>(ctrl: array<Control>, start: nat, length: nat, fp: bv8,
                              tombstone: Option<nat>, data: array<Slot<K, V>>, key: K)
      returns (r: Scan, tomb: Option<nat>)
    requires start + length <= data.Length && start + length + GROUP <= ctrl.Length + 1 && length >= 1
    requires ProperFingerprint(fp) && forall i :: 0 <= i < ctrl.Length ==> Proper(ctrl[i])
    ensures (r, tomb) == ScalarScan(ctrl[..], data[..], key, fp, start, start + length, tombstone)
  {
    if length <= GROUP {
      r, tomb := ScanGroup(ctrl, start, length, fp, tombstone, data, key);
      return;
    }
    var end, position := start + length, start;
    r, tomb := NoStop, tombstone;
    while position < end
      invariant start <= position <= end && r == NoStop
      invariant ScalarScan(ctrl[..], data[..], key, fp, start, end, tombstone)
             == ScalarScan(ctrl[..], data[..], key, fp, position, end, tomb)
    {
      var lanes := if GROUP <= end - position then GROUP else end - position;
      ScanSplits(ctrl[..], data[..], key, fp, position, position + lanes, end, tomb);
      r, tomb := ScanGroup(ctrl, position, lanes, fp, tomb, data, key);
      if r != NoStop {
        return;
      }
      position := position + lanes;
    }
  }

  // ---- Tombstone-blind scans ----

  ghost function EqFlags(g: seq<Control>, target: Control): seq<bool>
    requires |g| == 8
  {
    seq(8, i requires 0 <= i < 8 => g[i] == target)
  }

  lemma EqMaskFlags(g: seq<Control>, target: Control)
    requires |g| == 8 && Proper(target) && forall i :: 0 <= i < 8 ==> Proper(g[i])
    ensures MaskFrom(EqMask(WordOf(g), Byte(target)), 0, EqFlags(g, target))
  {
    hide LaneBits, InMask, EqMask, WordOf, Byte, FreeMask, OccupiedMask;
    forall i: nat | i < 8
      ensures LaneBits(EqMask(WordOf(g), Byte(target)))
      ensures InMask(EqMask(WordOf(g), Byte(target)), i) <==> EqFlags(g, target)[i]
    {
      GroupMasks(g, target, i);
    }
    GroupMasks(g, target, 0);
  }

  /** Lowest flagged lane below `limit`; later lanes cannot qualify once it is past the limit. */
  method FirstBelow(mask: bv64, limit: nat, ghost flagged: seq<bool>) returns (r: Option<nat>)
    requires |flagged| == 8 && MaskFrom(mask, 0, flagged) && limit <= 8
    ensures r.Some? ==> r.value < limit && flagged[r.value] && forall i: nat :: i < r.value ==> !flagged[i]
    ensures r.None? ==> forall i: nat :: i < limit ==> !flagged[i]
  {
    hide LaneBits, InMask, LowestLane;
    WalkMask(mask, 0, flagged);
    if mask == 0 {
      return None;
    }
    var lane := LowestLane(mask);
    return if lane < limit then Some(lane) else None;
  }

  /** A slot the tombstone-blind scan passes over. */
  predicate PassedBlind<K(==), V>(ctrl: seq<Control>, data: seq<Slot<K, V>>, key: K, fp: bv8, s: nat)
    requires s < |ctrl| && s < |data|
  {
    ctrl[s] != Empty && (ctrl[s] == Full(fp) ==> !Holds(data[s], key))
  }

  lemma {:induction false} SkipPassedBlind<K, V>(ctrl: seq<Control>, data: seq<Slot<K, V>>, key: K, fp: bv8,
                                                 pos: nat, next: nat, end: nat)
    requires pos <= next <= end <= |data| && end <= |ctrl|
    requires forall s: nat :: pos <= s < next ==> PassedBlind(ctrl, data, key, fp, s)
    ensures ScalarLookup(ctrl, data, key, fp, pos, end) == ScalarLookup(ctrl, data, key, fp, next, end)
    decreases next - pos
  {
    if pos < next {
      assert PassedBlind(ctrl, data, key, fp, pos);
      SkipPassedBlind(ctrl, data, key, fp, pos + 1, next, end);
    }
  }

  /** Lanes flagged neither as EMPTY nor as a fingerprint match change nothing. */
  lemma SkipLanes<K, V>(ctrl: seq<Control>, data: seq<Slot<K, V>>, key: K, fp: bv8, start: nat, lanes: nat, from: nat,
                        next: nat)
    requires start + 8 <= |ctrl| && start + lanes <= |data| && from <= next <= lanes <= 8
    requires var g := ctrl[start..start + 8];
             forall i: nat :: from <= i < next ==> !EqFlags(g, Full(fp))[i] && !EqFlags(g, Empty)[i]
    ensures ScalarLookup(ctrl, data, key, fp, start + from, start + lanes)
         == ScalarLookup(ctrl, data, key, fp, start + next, start + lanes)
  {
    var g := ctrl[start..start + 8];
    forall s: nat | start + from <= s < start + next ensures PassedBlind(ctrl, data, key, fp, s) {
      assert !EqFlags(g, Full(fp))[s - start] && !EqFlags(g, Empty)[s - start] && g[s - start] == ctrl[s];
    }
    SkipPassedBlind(ctrl, data, key, fp, start + from, start + next, start + lanes);
  }

  /** One step of the scalar lookup at a slot that may stop it. */
  lemma ScalarStep<K, V>(ctrl: seq<Control>, data: seq<Slot<K, V>>, key: K, fp: bv8, pos: nat, end: nat)
    requires pos <= end <= |data| && end <= |ctrl|
    ensures pos == end ==> ScalarLookup(ctrl, data, key, fp, pos, end) == NoStop
    ensures pos < end && ctrl[pos] == Empty ==> ScalarLookup(ctrl, data, key, fp, pos, end) == EmptyAt(pos)
    ensures pos < end && ctrl[pos] == Full(fp) ==>
              ScalarLookup(ctrl, data, key, fp, pos, end)
                == if Holds(data[pos], key) then Hit(pos) else ScalarLookup(ctrl, data, key, fp, pos + 1, end)
  {
  }

  /** The matches are inspected before the EMPTY is reported, yet only below it. */
  method ScanCleanGroup<K(==), V>(ctrl: array<Control>, start: nat, lanes: nat, fp: bv8,
                                  data: array<Slot<K, V>>, key: K)
      returns (r: Scan)
    requires lanes <= GROUP && start + lanes <= data.Length && start + GROUP <= ctrl.Length
    requires ProperFingerprint(fp) && forall i :: 0 <= i < ctrl.Length ==> Proper(ctrl[i])
    ensures r == ScalarLookup(ctrl[..], data[..], key, fp, start, start + lanes)
  {
    hide LaneBits, InMask, EqMask, WordOf, LowestLane, Byte, ScalarLookup;
    var g := ctrl[start..start + GROUP];
    assert g == ctrl[..][start..start + GROUP];
    var matches, empties := EqMask(WordOf(g), Byte(Full(fp))), EqMask(WordOf(g), Byte(Empty));
    EqMaskFlags(g, Full(fp));
    EqMaskFlags(g, Empty);
    var firstEmpty := FirstBelow(empties, lanes, EqFlags(g, Empty));
    var semantic := if firstEmpty.Some? then firstEmpty.value else lanes;
    ghost var from := 0;
    while matches != 0
      invariant from <= semantic && MaskFrom(matches, from, EqFlags(g, Full(fp)))
      invariant ScalarLookup(ctrl[..], data[..], key, fp, start, start + lanes)
             == ScalarLookup(ctrl[..], data[..], key, fp, start + from, start + lanes)
      decreases 8 - from
    {
      WalkMask(matches, from, EqFlags(g, Full(fp)));
      var lane := LowestLane(matches);
      if lane >= semantic {
        SkipLanes(ctrl[..], data[..], key, fp, start, lanes, from, semantic);
        from := semantic;
        break;
      }
      matches := matches & (matches - 1);
      SkipLanes(ctrl[..], data[..], key, fp, start, lanes, from, lane);
      var slot := start + lane;
      assert ctrl[start..start + GROUP][lane] == ctrl[..][start + lane];
      ScalarStep(ctrl[..], data[..], key, fp, slot, start + lanes);
      if Holds(data[slot], key) {
        return Hit(slot);
      }
      from := lane + 1;
    }
    if from < semantic {
      WalkMask(matches, from, EqFlags(g, Full(fp)));
      SkipLanes(ctrl[..], data[..], key, fp, start, lanes, from, semantic);
    }
    ScalarStep(ctrl[..], data[..], key, fp, start + semantic, start + lanes);
    if firstEmpty.Some? {
      assert g[firstEmpty.value] == ctrl[start + firstEmpty.value];
      return EmptyAt(start + firstEmpty.value);
    }
    return NoStop;
  }

  lemma {:induction false} LookupSplits<K, V>(ctrl: seq<Control>, data: seq<Slot<K, V>>, key: K, fp: bv8,
                                              pos: nat, mid: nat, end: nat)
    requires pos <= mid <= end <= |data| && end <= |ctrl|
    ensures var r := ScalarLookup(ctrl, data, key, fp, pos, mid);
            ScalarLookup(ctrl, data, key, fp, pos, end)
              == if r.NoStop? then ScalarLookup(ctrl, data, key, fp, mid, end) else r
    decreases mid - pos
  {
    if pos < mid {
      LookupSplits(ctrl, data, key, fp, pos + 1, mid, end);
    }
  }

  method ScanCleanBucket<K(==), V>(ctrl: array<Control>, start: nat, length: nat, fp: bv8,
                                   data: array<Slot<K, V>>, key: K)
      returns (r: Scan)
    requires start + length <= data.Length && start + length + GROUP <= ctrl.Length + 1 && length >= 1
    requires ProperFingerprint(fp) && forall i :: 0 <= i < ctrl.Length ==> Proper(ctrl[i])
    ensures r == ScalarLookup(ctrl[..], data[..], key, fp, start, start + length)
  {
    if length <= GROUP {
      r := ScanCleanGroup(ctrl, start, length, fp, data, key);
      return;
    }
    var end, position := start + length, start;
    r := NoStop;
    while position < end
      invariant start <= position <= end && r == NoStop
      invariant ScalarLookup(ctrl[..], data[..], key, fp, start, end)
             == ScalarLookup(ctrl[..], data[..], key, fp, position, end)
    {
      var lanes := if GROUP <= end - position then GROUP else end - position;
      LookupSplits(ctrl[..], data[..], key, fp, position, position + lanes, end);
      r := ScanCleanGroup(ctrl, position, lanes, fp, data, key);
      if r != NoStop {
        return;
      }
      position := position + lanes;
    }
  }

  // ---- First free slot ----

  ghost function FreeFlags(g: seq<Control>): seq<bool>
    requires |g| == 8
  {
    seq(8, i requires 0 <= i < 8 => IsFree(g[i]))
  }

  lemma FreeMaskFlags(g: seq<Control>)
    requires |g| == 8 && forall i :: 0 <= i < 8 ==> Proper(g[i])
    ensures MaskFrom(FreeMask(WordOf(g)), 0, FreeFlags(g))
  {
    hide LaneBits, InMask, EqMask, WordOf, Byte, FreeMask, OccupiedMask;
    forall i: nat | i < 8
      ensures LaneBits(FreeMask(WordOf(g)))
      ensures InMask(FreeMask(WordOf(g)), i) <==> FreeFlags(g)[i]
    {
      GroupMasks(g, Empty, i);
    }
    GroupMasks(g, Empty, 0);
  }

  lemma {:induction false} FirstFreeFrom(ctrl: seq<Control>, pos: nat, next: nat, end: nat)
    requires pos <= next <= end <= |ctrl| && forall s: nat :: pos <= s < next ==> !IsFree(ctrl[s])
    ensures FirstFree(ctrl, pos, end) == FirstFree(ctrl, next, end)
    decreases next - pos
  {
    if pos < next {
      FirstFreeFrom(ctrl, pos + 1, next, end);
    }
  }

  method FirstFreeInBucket(ctrl: array<Control>, start: nat, length: nat) returns (r: Option<nat>)
    requires start + length + GROUP <= ctrl.Length + 1
    requires forall i :: 0 <= i < ctrl.Length ==> Proper(ctrl[i])
    ensures r == FirstFree(ctrl[..], start, start + length)
  {
    hide LaneBits, InMask, FreeMask, WordOf;
    var end, position := start + length, start;
    while position < end
      invariant start <= position <= end
      invariant FirstFree(ctrl[..], start, end) == FirstFree(ctrl[..], position, end)
    {
      var lanes := if GROUP <= end - position then GROUP else end - position;
      var g := ctrl[position..position + GROUP];
      FreeMaskFlags(g);
      var lane := FirstBelow(FreeMask(WordOf(g)), lanes, FreeFlags(g));
      ghost var free := if lane.Some? then lane.value else lanes;
      forall s: nat | position <= s < position + free ensures !IsFree(ctrl[..][s]) {
        assert !FreeFlags(g)[s - position] && g[s - position] == ctrl[s];
      }
      FirstFreeFrom(ctrl[..], position, position + free, end);
      if lane.Some? {
        assert g[lane.value] == ctrl[position + lane.value];
        return Some(position + lane.value);
      }
      position := position + lanes;
    }
    return None;
  }

  // ---- How the scans relate ----

  /** Without tombstones in range the blind scan is the general one. */
  lemma {:induction false} CleanScanAgrees<K, V>(ctrl: seq<Control>, data: seq<Slot<K, V>>, key: K, fp: bv8,
                                                 pos: nat, end: nat)
    requires pos <= end <= |data| && end <= |ctrl|
    requires forall s: nat :: pos <= s < end ==> ctrl[s] != Tombstone
    ensures ScalarScan(ctrl, data, key, fp, pos, end, None) == (ScalarLookup(ctrl, data, key, fp, pos, end), None)
    decreases end - pos
  {
    if pos < end {
      CleanScanAgrees(ctrl, data, key, fp, pos + 1, end);
    }
  }
}
