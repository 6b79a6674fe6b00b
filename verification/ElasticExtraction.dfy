/** The scan over an Elastic table's levels, and the removal scan behind its `extract_if`. */
module ElasticExtraction {
  import opened Controls
  import opened Wrappers
  import opened Store
  import opened Membership
  import opened Cursor
  import opened ElasticBatches
  import opened ElasticGeometry
  import opened ElasticState
  import opened ElasticTable
  import opened RemovalScan

  /** `ElasticScan`: the occupancy cursor of each level in turn. */
  class LevelScan {
    var level: nat
    var slots: OccupiedIndices

    constructor ()
      ensures level == 0 && slots.next == 0 && fresh(slots)
      ensures forall caps: seq<nat>, ctrl: seq<Control> :: |ctrl| == Offset(caps, |caps|) ==> Valid(caps, ctrl)
    {
      hide Offset;
      level := 0;
      slots := new OccupiedIndices();
      new;
      forall caps: seq<nat>, ctrl: seq<Control> | |ctrl| == Offset(caps, |caps|) ensures Valid(caps, ctrl) {
        if |caps| > 0 {
          OffsetsOrdered(caps, 0, |caps|);
        }
      }
    }

    /** First slot of the arena not yet passed. */
    ghost function Position(caps: seq<nat>): nat
      reads this, slots
    {
      if level < |caps| then Offset(caps, level) + slots.next else Offset(caps, |caps|)
    }

    ghost predicate Valid(caps: seq<nat>, ctrl: seq<Control>)
      reads this, slots
    {
      && |ctrl| == Offset(caps, |caps|)
      && (level < |caps| ==> Offset(caps, level) + caps[level] <= |ctrl| && slots.next <= caps[level]
                             && slots.Valid(ctrl[Offset(caps, level)..], caps[level]))
    }

    /** Changing slots already passed leaves the scan valid. */
    lemma StillValid(caps: seq<nat>, ctrl: seq<Control>, ctrl': seq<Control>)
      requires Valid(caps, ctrl) && |ctrl| == |ctrl'|
               && (forall s :: Position(caps) <= s < |ctrl| ==> ctrl'[s] == ctrl[s])
      ensures Valid(caps, ctrl')
    {
      hide Offset;
      if level < |caps| {
        slots.StillValid(ctrl[Offset(caps, level)..], ctrl'[Offset(caps, level)..], caps[level]);
      }
    }

    /** `scan_next`: the next live slot, level by level. */
    method Next(caps: seq<nat>, ctrl: array<Control>) returns (r: Option<Location>)
      requires Valid(caps, ctrl[..]) && forall s :: 0 <= s < ctrl.Length ==> Proper(ctrl[s])
      modifies this, slots
      ensures Valid(caps, ctrl[..]) && Position(caps) >= old(Position(caps)) && (slots == old(slots) || fresh(slots))
      ensures r.None? ==> LiveSlots(ctrl[..], old(Position(caps))) == []
      ensures r.Some? ==> r.value.level < |caps| && r.value.slot < caps[r.value.level]
                          && var s := Offset(caps, r.value.level) + r.value.slot;
                             && s < ctrl.Length && ctrl[s].Full? && old(Position(caps)) <= s && Position(caps) == s + 1
                             && LiveSlots(ctrl[..], old(Position(caps))) == [s] + LiveSlots(ctrl[..], s + 1)
    {
      hide Offset, LiveSlots, OccupiedIndices.Valid;
      ghost var from := Position(caps);
      while level < |caps|
        invariant Valid(caps, ctrl[..]) && Position(caps) >= from && (slots == old(slots) || fresh(slots))
        invariant forall s :: from <= s < Position(caps) && s < ctrl.Length ==> !ctrl[s].Full?
        decreases |caps| - level
      {
        ghost var passed := slots.next;
        var slot := slots.Step(ctrl, Offset(caps, level), caps[level], false);
        if slot.Some? {
          FirstLive(ctrl[..], from, Offset(caps, level) + slot.value);
          return Some(Location(level, slot.value));
        }
        NextLevel(caps, level);
        level := level + 1;
        slots := new OccupiedIndices();
      }
      NoneLive(ctrl[..], from);
      return None;
    }

    static lemma NextLevel(caps: seq<nat>, level: nat)
      requires level < |caps|
      ensures Offset(caps, level + 1) == Offset(caps, level) + caps[level]
      ensures level + 1 < |caps| ==> Offset(caps, level + 1) + caps[level + 1] <= Offset(caps, |caps|)
    {
      if level + 1 < |caps| {
        OffsetsOrdered(caps, level + 1, |caps|);
      }
    }
  }

  // ---- Removal scan ----

  class ExtractScan<K(==, !new), V(!new)> {
    const table: Table<K, V>
    const scan: LevelScan
    var finished: bool
    var calls: nat
    ghost const start: map<K, V>
    ghost const full: map<K, nat>
    /** Verdicts on the entries visited so far, and those entries in the order of the calls. */
    ghost var judged: map<K, Verdict<V>>
    ghost var order: seq<K>

    constructor (table: Table<K, V>)
      requires table.Valid() || table.Sound()
      ensures Valid() && !finished && judged == map[] && calls == 0
      ensures this.table == table && start == table.M() && fresh(scan) && fresh(scan.slots)
    {
      hide LiveSlots, Table.Valid, Table.Sound, Table.M, Inv, MapOf, Table.Snap, Offset;
      this.table := table;
      scan := new LevelScan();
      finished, calls, judged, order := false, 0, map[], [];
      start, full := table.M(), table.at;
      new;
      if table.Valid() {
        table.ValidIsSound();
      }
      table.KeysOfMap();
      table.LevelCounters();
      OffsetZero(table.geometry.caps);
      assert After(start, judged) == start;
      assert SlotsLeft(full, judged) == full;
      assert Passed(full, 0) == {};
    }

    ghost function Objects(): set<object>
      reads this, scan, table
    {
      {this, scan, scan.slots, table, table.scheduler, table.ctrl, table.data, table.filter}
    }

    /** The map holds the entries it started with, less the accepted ones and with the visited ones
        rewritten; one predicate call went to each visited entry, in slot order. */
    ghost predicate Judged()
      reads this, table, table.ctrl, table.data, table.filter
    {
      && table.M() == After(start, judged) && full.Keys == start.Keys
      && calls == |order| && InSlotOrder(full, order, judged.Keys)
    }

    /** Until the scan finishes, the visited entries are those the cursor passed; then they are all. */
    ghost predicate Valid()
      reads this, scan, scan.slots, table, table.scheduler, table.ctrl, table.data, table.filter
    {
      && table.Sound() && Judged()
      && (if finished then judged.Keys == start.Keys
          else scan.Valid(table.geometry.caps, table.ctrl[..])
               && judged.Keys == Passed(full, scan.Position(table.geometry.caps))
               && table.at == SlotsLeft(full, judged))
    }

    /** `next_matching`: removes and returns the next entry the predicate accepts; every entry passed over
        on the way is kept. Each entry met gets one predicate call, level by level and in slot order. Once
        the scan is exhausted the deferred cleanup runs, and `settled` says whether it completed: every level's
        tombstones and the counted deletes are then within their thresholds. It fails only if it is due and
        the hasher does not survive the entries left. An unwind out of its filter refresh, `cut`, keeps the
        map but may leave the table less than valid. */
    method NextMatching(judge: Judge<K, V>, hashes: nat)
        returns (r: Option<(K, V)>, ghost settled: bool, ghost cut: Option<nat>)
      requires Valid()
      modifies Objects()
      ensures Judged() && table.Sound() && fresh(Objects() - old(Objects()))
      ensures Extends(start, old(judged), old(order), judged, order, judge)
      ensures r.None? ==> finished && judged.Keys == start.Keys && AllKept(old(judged), judged)
      ensures r.Some? ==> !finished && RemovedOnly(old(judged), judged, r.value.0, r.value.1) && cut.None?
      ensures cut.None? ==> Valid() && (old(table.Valid()) ==> table.Valid())
      ensures r.None? && !old(finished) && cut.None? ==> (settled <==> table.Tidy())
      ensures r.None? && !old(finished) ==> (settled <==> old(table.Tidy()) || old(table.len) <= hashes)
      ensures cut.Some? ==> CutShort(cut.value) && !settled
      ensures old(table.Recording()) && cut.None? ==> table.Recording()
    {
      hide Table.Recording, After, SlotsLeft, Passed, LiveSlots, Valid, Extends, AllKept, RemovedOnly, Judged,
           CutShort, Table.Valid, Table.Sound, Table.Tidy, LevelScan.Position;
      ExtendsSelf(start, judged, order, judge);
      ValidParts();
      cut, settled := None, true;
      if finished {
        return None, true, None;
      }
      while true
        invariant Valid() && !finished && SameTable(old(table.geometry), old(table.scheduler), old(table.ctrl),
                                                    old(table.data), old(table.filter))
        invariant fresh(Objects() - old(Objects()))
        invariant Extends(start, old(judged), old(order), judged, order, judge) && AllKept(old(judged), judged)
        invariant (old(table.Valid()) ==> table.Valid()) && (old(table.Recording()) ==> table.Recording())
        invariant table.Tidy() == old(table.Tidy()) && table.len == old(table.len)
        decreases table.ctrl.Length - scan.Position(table.geometry.caps)
      {
        ghost var before, since := judged, order;
        var step;
        step, settled, cut := JudgeNext(judge, hashes);
        ExtendsTransitive(start, old(judged), old(order), before, since, judged, order, judge);
        match step {
          case End =>
            return None, settled, cut;
          case Removed(key, value) =>
            ExtendsKeys(start, old(judged), old(order), before, since, judge);
            RemovedLast(old(judged), before, judged, key, value);
            ValidParts();
            return Some((key, value)), true, None;
          case Kept =>
        }
      }
    }

    ghost predicate SameTable(g: Geometry, s: BatchScheduler, c: array<Control>, v: array<Slot<K, V>>,
                              f: array<MetadataWord>)
      reads table
    {
      table.geometry == g && table.scheduler == s && table.ctrl == c && table.data == v && table.filter == f
    }

    lemma ValidParts()
      requires Valid()
      ensures Judged() && table.Sound() && (finished ==> judged.Keys == start.Keys)
    {
      hide Judged, Table.Sound;
    }

    /** The filter refresh of the deferred cleanup unwound at `stop`: it had come from some state of the same
        entries, and the table is valid again if and only if that state was covered. */
    ghost predicate CutShort(stop: nat)
      reads table, table.scheduler, table.ctrl, table.data, table.filter
    {
      exists before: State<K, V> ::
        && Intact(table.env, before) && RefreshedUpTo(table.env, before, table.Snap(), stop)
        && (table.Valid() <==> Covered(table.env, before, stop))
    }

    /** One step of the scan: judges the next live entry, or finishes. */
    method JudgeNext(judge: Judge<K, V>, hashes: nat)
        returns (step: Step<K, V>, ghost settled: bool, ghost cut: Option<nat>)
      requires Valid() && !finished
      modifies Objects()
      ensures Extends(start, old(judged), old(order), judged, order, judge) && fresh(Objects() - old(Objects()))
      ensures step.End? ==> finished && Judged() && table.Sound() && judged.Keys == start.Keys
                            && AllKept(old(judged), judged)
      ensures cut.None? ==> Valid() && (old(table.Valid()) ==> table.Valid())
      ensures step.End? && cut.None? ==> (settled <==> table.Tidy())
      ensures step.End? ==> (settled <==> old(table.Tidy()) || old(table.len) <= hashes)
      ensures step.Kept? ==> table.Tidy() == old(table.Tidy()) && table.len == old(table.len)
      ensures cut.Some? ==> step.End? && CutShort(cut.value) && !settled
      ensures !step.End? ==> !finished
                             && SameTable(old(table.geometry), old(table.scheduler), old(table.ctrl), old(table.data),
                                          old(table.filter))
      ensures !step.End? ==> old(scan.Position(table.geometry.caps)) < scan.Position(table.geometry.caps)
                             && scan.Position(table.geometry.caps) <= table.ctrl.Length
      ensures step.Kept? ==> AllKept(old(judged), judged)
      ensures step.Removed? ==> step.key !in old(judged) && judged == old(judged)[step.key := Verdict(true, step.value)]
      ensures old(table.Recording()) && cut.None? ==> table.Recording()
    {
      hide Table.Recording, After, SlotsLeft, Passed, LiveSlots, Table.Valid, Table.Sound, Table.M, Inv, MapOf,
           CutShort, Extends, InSlotOrder, Readout, LevelScan.Position, LevelScan.Valid, Offset, Table.Tidy;
      ghost var from := scan.Position(table.geometry.caps);
      ReadyToScan();
      cut, settled := None, true;
      var loc := scan.Next(table.geometry.caps, table.ctrl);
      if loc.None? {
        AllJudged(table.ctrl[..], table.data[..], table.at, full, start, judged, from);
        ExtendsSelf(start, judged, order, judge);
        settled, cut := Finish(hashes);
        return End, settled, cut;
      }
      NextIsFirst(table.ctrl[..], from, Offset(table.geometry.caps, loc.value.level) + loc.value.slot);
      step := JudgeSlot(loc.value, from, judge);
    }

    lemma ReadyToScan()
      requires table.Valid() || table.Sound()
      ensures Readout(table.ctrl[..], table.data[..], table.at) && forall s :: 0 <= s < table.ctrl.Length ==>
              Proper(table.ctrl[s])
    {
      hide Table.Valid, Inv, Intact, Table.Sound, Table.M;
      table.Facts();
    }

    /** The scan has just yielded this location, with nothing live between it and the position before. */
    ghost predicate Yielded(loc: Location, from: nat)
      reads this, scan, scan.slots, table, table.scheduler, table.ctrl, table.data, table.filter
    {
      && !finished && table.Sound() && Judged() && table.InLevel(loc) && scan.Valid(table.geometry.caps, table.ctrl[..])
      && table.at == SlotsLeft(full, judged) && judged.Keys == Passed(full, from)
      && var s := Offset(table.geometry.caps, loc.level) + loc.slot;
         && from <= s < table.ctrl.Length && table.ctrl[s].Full? && scan.Position(table.geometry.caps) == s + 1
         && forall x :: from <= x < s ==> !table.ctrl[x].Full?
    }

    /** Calls the predicate on the entry the scan has just yielded, and stores the value it leaves. */
    method CallJudge(loc: Location, ghost from: nat, judge: Judge<K, V>) returns (key: K, verdict: Verdict<V>)
      requires Yielded(loc, from)
      modifies `calls, `order, table.data
      ensures table.Sound() && (old(table.Valid()) ==> table.Valid())
      ensures table.LiveEntryAt(loc, key) && table.M() == old(table.M())[key := verdict.value]
      ensures calls == |order| && order == old(order) + [key] && key in start && key in full && key !in judged
      ensures Extends(start, judged, old(order), judged[key := verdict], order, judge)
      ensures InSlotOrder(full, order, judged.Keys + {key})
      ensures Passed(full, scan.Position(table.geometry.caps)) == judged.Keys + {key}
      ensures scan.Position(table.geometry.caps) == Offset(table.geometry.caps, loc.level) + loc.slot + 1
      ensures old(table.Recording()) ==> table.Recording()
    {
      hide Table.Recording, After, SlotsLeft, Passed, LiveSlots, Table.Valid, Table.Sound, Table.M, Extends,
           InSlotOrder, Table.Snap, LevelScan.Position, LevelScan.Valid, Offset, Table.LiveEntryAt;
      AboutToJudge(loc, from, judge);
      var s := Offset(table.geometry.caps, loc.level) + loc.slot;
      key := table.data[s].key;
      verdict := judge(calls, key, table.data[s].value);
      calls, order := calls + 1, order + [key];
      var previous := table.ReplaceValue(loc, verdict.value, key);
    }

    /** Judges the entry the scan has just yielded. */
    method JudgeSlot(loc: Location, ghost from: nat, judge: Judge<K, V>) returns (step: Step<K, V>)
      requires Yielded(loc, from)
      modifies `calls, `judged, `order, table, table.ctrl, table.data
      ensures Valid() && !finished && Extends(start, old(judged), old(order), judged, order, judge)
      ensures old(table.Valid()) ==> table.Valid()
      ensures SameTable(old(table.geometry), old(table.scheduler), old(table.ctrl), old(table.data), old(table.filter))
      ensures scan.Position(table.geometry.caps) == old(scan.Position(table.geometry.caps)) <= table.ctrl.Length
      ensures step.Kept? || step.Removed?
      ensures step.Kept? ==> AllKept(old(judged), judged)
      ensures step.Kept? ==> table.Tidy() == old(table.Tidy()) && table.len == old(table.len)
      ensures step.Removed? ==> step.key !in old(judged) && judged == old(judged)[step.key := Verdict(true, step.value)]
      ensures old(table.Recording()) ==> table.Recording()
    {
      hide Table.Recording, After, SlotsLeft, Passed, LiveSlots, Valid, Table.Valid, Table.Sound, Table.M, Extends,
           InSlotOrder, Table.Snap, LevelScan.Position, LevelScan.Valid, Offset, Table.LiveEntryAt;
      ghost var before := judged;
      var key, verdict := CallJudge(loc, from, judge);
      JudgeStep(start, full, before, key, verdict);
      judged := before[key := verdict];
      assert judged.Keys == before.Keys + {key};
      step := Kept;
      if verdict.accept {
        var v := TakeJudged(loc, key);
        step := Removed(key, v);
      }
      Continues();
    }

    lemma Continues()
      requires table.Sound() && !finished && table.M() == After(start, judged) && full.Keys == start.Keys
      requires calls == |order| && InSlotOrder(full, order, judged.Keys) && table.at == SlotsLeft(full, judged)
      requires scan.Valid(table.geometry.caps, table.ctrl[..])
               && judged.Keys == Passed(full, scan.Position(table.geometry.caps))
      ensures Valid()
    {
      hide After, SlotsLeft, Passed, Table.Valid, Table.Sound, Table.M, InSlotOrder, LevelScan.Position,
           LevelScan.Valid;
    }

    /** Moves the entry just judged out of the table. */
    method TakeJudged(loc: Location, key: K) returns (value: V)
      requires table.Sound() && table.LiveEntryAt(loc, key) && scan.Valid(table.geometry.caps, table.ctrl[..])
      requires scan.Position(table.geometry.caps) == Offset(table.geometry.caps, loc.level) + loc.slot + 1
      modifies table, table.ctrl
      ensures table.Sound() && (old(table.Valid()) ==> table.Valid())
      ensures value == old(table.M())[key] && table.M() == old(table.M()) - {key}
              && table.at == old(table.at) - {key}
      ensures SameTable(old(table.geometry), old(table.scheduler), old(table.ctrl), old(table.data), old(table.filter))
      ensures scan.Valid(table.geometry.caps, table.ctrl[..])
      ensures old(table.Recording()) ==> table.Recording()
    {
      hide Table.Recording, Table.Valid, Table.Sound, Table.M, Vacate, CanVacate, LevelScan.Position,
           LevelScan.Valid, Offset;
      ghost var controls := table.ctrl[..];
      LiveHere(loc);
      assert table.Snap().data == table.data[..];
      var k;
      k, value := table.Extract(loc);
      scan.StillValid(table.geometry.caps, controls, table.ctrl[..]);
    }

    /** The entry of the slot the scan has just yielded is the next to judge. */
    lemma AboutToJudge(loc: Location, from: nat, judge: Judge<K, V>)
      requires Yielded(loc, from)
      ensures var s := Offset(table.geometry.caps, loc.level) + loc.slot;
              && s < table.data.Length && table.data[s].Entry? && table.LiveEntryAt(loc, table.data[s].key)
              && NextUp(full, start, judged, order, s, table.data[s].key, table.data[s].value, judge)
    {
      hide After, SlotsLeft, Passed, LiveSlots, Table.Valid, Table.Sound, Table.M, Readout, NextUp, InSlotOrder, Offset,
           Table.LiveEntryAt, LevelScan.Position, LevelScan.Valid;
      var s := Offset(table.geometry.caps, loc.level) + loc.slot;
      ReadyToScan();
      LiveHere(loc);
      YieldedIsNext(table.ctrl[..], table.data[..], table.at, full, start, judged, order, from, s, table.data[s].key,
                    judge);
    }

    /** A live slot holds its key's entry. */
    lemma LiveHere(loc: Location)
      requires table.Sound() && table.InLevel(loc)
      requires Offset(table.geometry.caps, loc.level) + loc.slot < table.ctrl.Length
      requires table.ctrl[Offset(table.geometry.caps, loc.level) + loc.slot].Full?
      ensures var s := Offset(table.geometry.caps, loc.level) + loc.slot;
              && s < table.data.Length && table.data[s].Entry? && table.data[s].key in table.at
              && table.at[table.data[s].key] == s
              && table.LiveEntryAt(loc, table.data[s].key) && table.data[s].key in table.M()
              && table.M()[table.data[s].key] == table.data[s].value
    {
      hide Table.Valid, Inv, Intact, Table.Sound, Table.M, Offset;
      table.Facts();
      var s := Offset(table.geometry.caps, loc.level) + loc.slot;
      assert table.ctrl[..][s] == table.ctrl[s];
      table.Present(table.data[s].key);
    }

    /** Deferred cleanup once the scan is exhausted. */
    method Finish(hashes: nat) returns (settled: bool, ghost cut: Option<nat>)
      requires table.Sound() && Judged() && judged.Keys == start.Keys && !finished
      modifies this`finished, table, table.filter
      ensures finished && Judged() && table.Sound() && fresh(Objects() - old(Objects()))
      ensures cut.None? ==> Valid() && (settled <==> table.Tidy()) && (old(table.Valid()) ==> table.Valid())
      ensures settled <==> old(table.Tidy()) || old(table.len) <= hashes
      ensures cut.Some? ==> CutShort(cut.value) && !settled
      ensures old(table.Recording()) && cut.None? ==> table.Recording()
    {
      hide Table.Recording, After, SlotsLeft, Passed, LiveSlots, Table.Valid, Table.Sound, Table.M, Intact, MapOf,
           Table.Snap, InSlotOrder, RefreshedUpTo, Covered, LevelScan.Position, LevelScan.Valid, Table.Tidy;
      finished := true;
      IntactOfSound();
      settled, cut := table.FinishDeferredRemovals(hashes);
    }

    lemma IntactOfSound()
      requires table.Sound()
      ensures Intact(table.env, table.Snap())
    {
      hide Intact;
    }

    /** Dropping the scan early runs the deferred cleanup and keeps the unvisited entries; the map left is
        what the verdicts so far describe, whether or not the cleanup completes. If it does, every level's
        tombstones and the counted deletes are within their thresholds; it fails only if it is due and the
        hasher does not survive the entries left. */
    method Drop(hashes: nat) returns (settled: bool, ghost cut: Option<nat>)
      requires Valid()
      modifies this`finished, table, table.filter
      ensures table.Sound() && table.M() == After(start, judged) && fresh(table.Repr() - old(table.Repr()))
      ensures cut.None? ==> (old(table.Valid()) ==> table.Valid())
                            && (!old(finished) ==> (settled <==> table.Tidy()))
      ensures settled <==> old(finished) || old(table.Tidy()) || old(table.len) <= hashes
      ensures cut.Some? ==> CutShort(cut.value) && !settled
      ensures old(table.Recording()) && cut.None? ==> table.Recording()
    {
      hide Table.Recording, After, SlotsLeft, Passed, LiveSlots, Table.Valid, Table.Sound, Table.M, Intact, MapOf,
           Table.Snap, InSlotOrder, RefreshedUpTo, Covered, LevelScan.Position, LevelScan.Valid, Table.Tidy;
      settled, cut := true, None;
      if !finished {
        IntactOfSound();
        settled, cut := table.FinishDeferredRemovals(hashes);
      }
    }
  }
}
