/** Scans over a Funnel table's live slots, and the removal scan behind its `extract_if`. */
module FunnelExtraction {
  import opened Controls
  import opened Wrappers
  import opened Store
  import opened FunnelPlan
  import opened FunnelState
  import opened Cursor
  import opened FunnelTable
  import opened RemovalScan

  /** `FunnelScan`: slot by slot in a dense table, by group masks in a sparse one. */
  class TableScan {
    const dense: bool
    const cursor: OccupiedIndices
    var nextSlot: nat

    constructor (len: nat, slots: nat)
      ensures dense <==> len > slots / 4
      ensures Position() == 0 && fresh(this) && fresh(cursor)
      ensures forall ctrl: seq<Control>, capacity: nat :: Valid(ctrl, capacity)
    {
      dense := len > slots / 4;
      nextSlot := 0;
      cursor := new OccupiedIndices();
    }

    /** First slot not yet passed. */
    ghost function Position(): nat
      reads this, cursor
    {
      if dense then nextSlot else cursor.next
    }

    ghost predicate Valid(ctrl: seq<Control>, capacity: nat)
      reads this, cursor
    {
      dense || cursor.Valid(ctrl, capacity)
    }

    /** Changing slots already passed leaves the scan valid. */
    lemma StillValid(ctrl: seq<Control>, ctrl': seq<Control>, capacity: nat)
      requires Valid(ctrl, capacity) && |ctrl| == |ctrl'|
      requires forall s :: Position() <= s < |ctrl| ==> ctrl'[s] == ctrl[s]
      ensures Valid(ctrl', capacity)
    {
      if !dense {
        cursor.StillValid(ctrl, ctrl', capacity);
      }
    }

    /** Both modes take the next live slot off the same sequence. */
    method Next(ctrl: array<Control>, capacity: nat) returns (r: Option<nat>)
      requires Valid(ctrl[..], capacity) && (capacity == 0 || capacity + GROUP <= ctrl.Length + 1)
      requires forall s :: 0 <= s < ctrl.Length ==> Proper(ctrl[s]) && (s >= capacity ==> !ctrl[s].Full?)
      modifies this, cursor
      ensures Valid(ctrl[..], capacity) && Position() >= old(Position())
      ensures r.None? ==> LiveSlots(ctrl[..], old(Position())) == []
      ensures r.Some? ==> r.value < ctrl.Length && ctrl[r.value].Full? && old(Position()) <= r.value
                          && Position() == r.value + 1
                          && LiveSlots(ctrl[..], old(Position())) == [r.value] + LiveSlots(ctrl[..], Position())
    {
      ghost var from := Position();
      if !dense {
        r := cursor.Step(ctrl, 0, capacity, true);
        if r.Some? {
          FirstLive(ctrl[..], from, r.value);
        } else {
          NoneLive(ctrl[..], from);
        }
        return;
      }
      while nextSlot < capacity
        invariant from <= nextSlot && forall s :: from <= s < nextSlot && s < ctrl.Length ==> !ctrl[s].Full?
        decreases capacity - nextSlot
      {
        var slot := nextSlot;
        nextSlot := nextSlot + 1;
        if !IsFree(ctrl[slot]) {
          FirstLive(ctrl[..], from, slot);
          return Some(slot);
        }
      }
      NoneLive(ctrl[..], from);
      return None;
    }
  }

  class ExtractScan<K(==, !new), V(!new)> {
    const table: Table<K, V>
    const scan: TableScan
    var finished: bool
    var calls: nat
    ghost const start: map<K, V>
    ghost const full: map<K, nat>
    /** Verdicts on the entries visited so far, and those entries in the order of the calls. */
    ghost var judged: map<K, Verdict<V>>
    ghost var order: seq<K>

    constructor (table: Table<K, V>)
      requires table.Valid() || table.Sound()
      ensures Valid() && !finished && judged == map[] && calls == 0
      ensures this.table == table && start == table.M() && fresh(scan) && fresh(scan.cursor)
    {
      hide LiveSlots, Table.Valid, Table.Sound, Table.M, Inv, LaidOut, MapOf, Table.Snap;
      this.table := table;
      scan := new TableScan(table.len, table.shape.n);
      finished, calls, judged, order := false, 0, map[], [];
      start, full := table.M(), table.at;
      new;
      if table.Valid() {
        table.ValidIsSound();
      }
      table.KeysOfMap();
      assert After(start, judged) == start;
      assert SlotsLeft(full, judged) == full;
      assert Passed(full, 0) == {};
    }

    ghost function Objects(): set<object>
      reads this, table
    {
      {this, scan, scan.cursor, table, table.ctrl, table.data, table.filter}
    }

    /** The map holds the entries it started with, less the accepted ones and with the visited ones
        rewritten; one predicate call went to each visited entry, in slot order. */
    ghost predicate Judged()
      reads this, table, table.ctrl, table.data, table.filter
    {
      && table.M() == After(start, judged) && full.Keys == start.Keys
      && calls == |order| && InSlotOrder(full, order, judged.Keys)
    }

    /** Until the scan finishes, the visited entries are those the cursor passed; then they are all. */
    ghost predicate Valid()
      reads this, scan, scan.cursor, table, table.ctrl, table.data, table.filter
    {
      && table.Sound() && Judged()
      && (if finished then judged.Keys == start.Keys
          else scan.Valid(table.ctrl[..], table.data.Length) && judged.Keys == Passed(full, scan.Position())
               && table.at == SlotsLeft(full, judged))
    }

    /** `next_matching`: removes and returns the next entry the predicate accepts; every entry passed
        over on the way is kept. Each entry met gets one predicate call, in slot order. Once the scan is
        exhausted the deferred cleanup runs, and `settled` says whether it completed: tombstones and counted
        deletes are then within their thresholds. It fails only if it is due and the hasher does not survive the
        entries left. An unwind out of its filter refresh, `cut`, keeps the map but may leave the table less
        than valid. */
    method NextMatching(judge: Judge<K, V>, hashes: nat)
        returns (r: Option<(K, V)>, ghost settled: bool, ghost cut: Option<nat>)
      requires Valid()
      modifies Objects()
      ensures Judged() && table.Sound() && fresh(Objects() - old(Objects()))
      ensures Extends(start, old(judged), old(order), judged, order, judge)
      ensures r.None? ==> finished && judged.Keys == start.Keys && AllKept(old(judged), judged)
      ensures r.Some? ==> !finished && RemovedOnly(old(judged), judged, r.value.0, r.value.1) && cut.None?
      ensures cut.None? ==> Valid() && (old(table.Valid()) ==> table.Valid())
      ensures r.None? && !old(finished) && cut.None? ==> (settled <==> table.Tidy())
      ensures r.None? && !old(finished) ==> (settled <==> old(table.Tidy()) || old(table.len) <= hashes)
      ensures cut.Some? ==> CutShort(cut.value) && !settled
      ensures old(table.Recording()) && cut.None? ==> table.Recording()
    {
      hide After, SlotsLeft, Passed, LiveSlots, Valid, Extends, AllKept, RemovedOnly, Judged, CutShort, Table.Sound,
           Table.Valid, Table.Recording, Table.Tidy;
      ExtendsSelf(start, judged, order, judge);
      ValidParts();
      cut, settled := None, true;
      if finished {
        return None, true, None;
      }
      while true
        invariant Valid() && !finished && table.ctrl == old(table.ctrl) && table.data == old(table.data)
                  && table.filter == old(table.filter)
        invariant Extends(start, old(judged), old(order), judged, order, judge) && AllKept(old(judged), judged)
        invariant (old(table.Valid()) ==> table.Valid()) && (old(table.Recording()) ==> table.Recording())
        invariant table.Tidy() == old(table.Tidy()) && table.len == old(table.len)
        decreases table.data.Length - scan.Position()
      {
        ghost var before, since := judged, order;
        var step;
        step, settled, cut := JudgeNext(judge, hashes);
        ExtendsTransitive(start, old(judged), old(order), before, since, judged, order, judge);
        match step {
          case End =>
            return None, settled, cut;
          case Removed(key, value) =>
            ExtendsKeys(start, old(judged), old(order), before, since, judge);
            RemovedLast(old(judged), before, judged, key, value);
            ValidParts();
            return Some((key, value)), true, None;
          case Kept =>
        }
      }
    }

    lemma ValidParts()
      requires Valid()
      ensures Judged() && table.Sound() && (finished ==> judged.Keys == start.Keys)
    {
      hide Judged, Table.Sound;
    }

    /** The filter refresh of the deferred cleanup unwound at `stop`: it had come from some state of the same
        entries, and the table is valid again if and only if that state was covered. */
    ghost predicate CutShort(stop: nat)
      reads table, table.ctrl, table.data, table.filter
    {
      exists before: State<K, V> ::
        && Intact(table.env, before) && RefreshedUpTo(table.env, before, table.Snap(), stop)
        && (table.Valid() <==> Covered(table.env, before, stop))
    }

    /** One step of the scan: judges the next live entry, or finishes. */
    method JudgeNext(judge: Judge<K, V>, hashes: nat)
        returns (step: Step<K, V>, ghost settled: bool, ghost cut: Option<nat>)
      requires Valid() && !finished
      modifies Objects()
      ensures Extends(start, old(judged), old(order), judged, order, judge)
      ensures step.End? ==> finished && Judged() && table.Sound() && judged.Keys == start.Keys
                            && fresh(Objects() - old(Objects())) && AllKept(old(judged), judged)
      ensures cut.None? ==> Valid() && (old(table.Valid()) ==> table.Valid())
      ensures step.End? && cut.None? ==> (settled <==> table.Tidy())
      ensures step.End? ==> (settled <==> old(table.Tidy()) || old(table.len) <= hashes)
      ensures step.Kept? ==> table.Tidy() == old(table.Tidy()) && table.len == old(table.len)
      ensures cut.Some? ==> step.End? && CutShort(cut.value) && !settled
      ensures !step.End? ==> !finished && table.ctrl == old(table.ctrl) && table.data == old(table.data)
                             && table.filter == old(table.filter)
                             && old(scan.Position()) < scan.Position() <= table.data.Length
      ensures step.Kept? ==> AllKept(old(judged), judged)
      ensures step.Removed? ==> step.key !in old(judged) && judged == old(judged)[step.key := Verdict(true, step.value)]
      ensures old(table.Recording()) && cut.None? ==> table.Recording()
    {
      hide After, SlotsLeft, Passed, LiveSlots, Table.Valid, Table.Sound, Table.M, Inv, LaidOut, MapOf, CutShort,
           Extends, InSlotOrder, Readout, Table.Recording, Table.Tidy;
      ghost var from := scan.Position();
      ReadyToScan();
      cut, settled := None, true;
      var slot := scan.Next(table.ctrl, table.data.Length);
      if slot.None? {
        AllJudged(table.ctrl[..], table.data[..], table.at, full, start, judged, from);
        ExtendsSelf(start, judged, order, judge);
        settled, cut := Finish(hashes);
        return End, settled, cut;
      }
      NextIsFirst(table.ctrl[..], from, slot.value);
      step := JudgeSlot(slot.value, from, judge);
    }

    lemma ReadyToScan()
      requires table.Valid() || table.Sound()
      ensures Readout(table.ctrl[..], table.data[..], table.at)
      ensures table.data.Length == 0 || table.data.Length + GROUP <= table.ctrl.Length + 1
      ensures forall s :: 0 <= s < table.ctrl.Length ==>
                            Proper(table.ctrl[s]) && (s >= table.data.Length ==> !table.ctrl[s].Full?)
    {
      hide Table.Valid, Table.Sound, Table.M, Inv, Intact, LaidOut, Readout;
      table.Facts();
      table.Scannable();
    }

    /** Judges the entry the scan has just yielded. */
    method JudgeSlot(slot: nat, ghost from: nat, judge: Judge<K, V>) returns (step: Step<K, V>)
      requires !finished && table.Sound() && Judged()
      requires table.at == SlotsLeft(full, judged) && judged.Keys == Passed(full, from)
      requires scan.Valid(table.ctrl[..], table.data.Length) && scan.Position() == slot + 1
      requires from <= slot < table.ctrl.Length && table.ctrl[slot].Full?
      requires forall s :: from <= s < slot && s < table.ctrl.Length ==> !table.ctrl[s].Full?
      modifies `calls, `judged, `order, table, table.ctrl, table.data
      ensures Valid() && !finished && Extends(start, old(judged), old(order), judged, order, judge)
      ensures old(table.Valid()) ==> table.Valid()
      ensures table.ctrl == old(table.ctrl) && table.data == old(table.data) && table.filter == old(table.filter)
      ensures scan.Position() == slot + 1 <= table.data.Length
      ensures step.Kept? || step.Removed?
      ensures step.Kept? ==> AllKept(old(judged), judged)
      ensures step.Kept? ==> table.Tidy() == old(table.Tidy()) && table.len == old(table.len)
      ensures step.Removed? ==> step.key !in old(judged) && judged == old(judged)[step.key := Verdict(true, step.value)]
      ensures old(table.Recording()) ==> table.Recording()
    {
      hide After, SlotsLeft, Passed, LiveSlots, Table.Valid, Table.Sound, Table.M, Inv, LaidOut, MapOf, Table.Source,
           Extends, InSlotOrder, Table.Snap, Table.TightFilter, Vacate, Table.Recording;
      AboutToJudge(slot, from, judge);
      var key, value := table.data[slot].key, table.data[slot].value;
      var verdict := judge(calls, key, value);
      calls, order := calls + 1, order + [key];
      JudgeStep(start, full, judged, key, verdict);
      var previous := table.ReplaceValue(slot, verdict.value);
      judged := judged[key := verdict];
      assert judged.Keys == old(judged).Keys + {key};
      step := Kept;
      if verdict.accept {
        ghost var controls := table.ctrl[..];
        var k, v := table.Extract(slot);
        scan.StillValid(controls, table.ctrl[..], table.data.Length);
        step := Removed(k, v);
      }
    }

    /** The entry of the slot the scan has just yielded is the next to judge. */
    lemma AboutToJudge(slot: nat, from: nat, judge: Judge<K, V>)
      requires !finished && table.Sound() && Judged()
      requires table.at == SlotsLeft(full, judged) && judged.Keys == Passed(full, from)
      requires from <= slot < table.ctrl.Length && table.ctrl[slot].Full?
      requires forall s :: from <= s < slot && s < table.ctrl.Length ==> !table.ctrl[s].Full?
      ensures slot < table.data.Length && table.data[slot].Entry?
      ensures NextUp(full, start, judged, order, slot, table.data[slot].key, table.data[slot].value, judge)
    {
      hide After, SlotsLeft, Passed, LiveSlots, Table.Valid, Table.Sound, Table.M, Inv, LaidOut, MapOf, Readout,
           NextUp, InSlotOrder;
      table.Facts();
      table.LiveEntry(slot);
      YieldedIsNext(table.ctrl[..], table.data[..], table.at, full, start, judged, order, from, slot,
                    table.data[slot].key, judge);
    }

    /** Deferred cleanup once the scan is exhausted. */
    method Finish(hashes: nat) returns (settled: bool, ghost cut: Option<nat>)
      requires table.Sound() && Judged() && judged.Keys == start.Keys && !finished
      modifies this`finished, table, table.filter
      ensures finished && Judged() && table.Sound() && fresh(Objects() - old(Objects()))
      ensures cut.None? ==> Valid() && (settled <==> table.Tidy()) && (old(table.Valid()) ==> table.Valid())
      ensures settled <==> old(table.Tidy()) || old(table.len) <= hashes
      ensures cut.Some? ==> CutShort(cut.value) && !settled
      ensures old(table.Recording()) && cut.None? ==> table.Recording()
    {
      hide After, SlotsLeft, Passed, LiveSlots, Table.Valid, Table.Sound, Table.M, Intact, LaidOut, MapOf,
           Table.Snap, RefreshedUpTo, Covered, Table.Recording, Table.Tidy, InSlotOrder, Rebuilt;
      finished := true;
      table.IntactOfSound();
      settled, cut := table.SettleAfterDeletes(hashes);
    }

    /** Dropping the scan early runs the deferred cleanup and keeps the unvisited entries; the map left is
        what the verdicts so far describe, whether or not the cleanup completes. If it does, tombstones and
        counted deletes are within their thresholds; it fails only if it is due and the hasher does not survive
        the entries left. */
    method Drop(hashes: nat) returns (settled: bool, ghost cut: Option<nat>)
      requires Valid()
      modifies this`finished, table, table.filter
      ensures table.Sound() && table.M() == After(start, judged) && fresh(table.Repr() - old(table.Repr()))
      ensures cut.None? ==> (old(table.Valid()) ==> table.Valid())
                            && (!old(finished) ==> (settled <==> table.Tidy()))
      ensures settled <==> old(finished) || old(table.Tidy()) || old(table.len) <= hashes
      ensures cut.Some? ==> CutShort(cut.value) && !settled
      ensures old(table.Recording()) && cut.None? ==> table.Recording()
    {
      hide After, SlotsLeft, Passed, LiveSlots, Table.Valid, Table.Sound, Table.M, Intact, LaidOut, MapOf,
           Table.Snap, RefreshedUpTo, Covered, Table.Recording, Table.Tidy, InSlotOrder, Rebuilt;
      settled, cut := true, None;
      if !finished {
        table.IntactOfSound();
        settled, cut := table.SettleAfterDeletes(hashes);
      }
    }
  }
}
