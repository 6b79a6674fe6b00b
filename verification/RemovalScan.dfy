/** What a removal scan does to a map, whichever table it runs over: live slots in order, the caller's
    verdict on each entry, and the map left by the verdicts so far. */
module RemovalScan {
  import opened Controls
  import opened Store

  /** Live slots at or past `from`, in slot order. */
  function LiveSlots(ctrl: seq<Control>, from: nat): seq<nat>
    decreases |ctrl| - from
  {
    if from >= |ctrl| then []
    else (if ctrl[from].Full? then [from] else []) + LiveSlots(ctrl, from + 1)
  }

  ghost predicate Ascending(slots: seq<nat>)
  {
    forall i, j :: 0 <= i < j < |slots| ==> slots[i] < slots[j]
  }

  /** The sequence lists exactly the live slots, each once and in ascending order. */
  lemma {:induction false} LiveSlotsExact(ctrl: seq<Control>, from: nat)
    ensures Ascending(LiveSlots(ctrl, from))
    ensures forall s: nat :: s in LiveSlots(ctrl, from) <==> from <= s < |ctrl| && ctrl[s].Full?
    decreases |ctrl| - from
  {
    if from < |ctrl| {
      LiveSlotsExact(ctrl, from + 1);
      var rest, all := LiveSlots(ctrl, from + 1), LiveSlots(ctrl, from);
      if ctrl[from].Full? {
        assert all == [from] + rest;
        forall i, j | 0 <= i < j < |all| ensures all[i] < all[j] {
          assert all[j] == rest[j - 1] && rest[j - 1] in rest;
          assert i > 0 ==> all[i] == rest[i - 1];
        }
      } else {
        assert all == rest;
      }
    }
  }

  /** Skipping slots that are not live skips nothing of the sequence. */
  lemma {:induction false} SkipDead(ctrl: seq<Control>, from: nat, upto: nat)
    requires from <= upto
    requires forall s :: from <= s < upto && s < |ctrl| ==> !ctrl[s].Full?
    ensures LiveSlots(ctrl, from) == LiveSlots(ctrl, upto)
    decreases upto
  {
    if from < upto {
      SkipDead(ctrl, from, upto - 1);
    }
  }

  /** The first live slot past a position heads the rest of the sequence. */
  lemma FirstLive(ctrl: seq<Control>, from: nat, slot: nat)
    requires from <= slot < |ctrl| && ctrl[slot].Full? && forall s :: from <= s < slot ==> !ctrl[s].Full?
    ensures LiveSlots(ctrl, from) == [slot] + LiveSlots(ctrl, slot + 1)
  {
    SkipDead(ctrl, from, slot);
  }

  lemma NoneLive(ctrl: seq<Control>, from: nat)
    requires forall s :: from <= s < |ctrl| ==> !ctrl[s].Full?
    ensures LiveSlots(ctrl, from) == []
  {
    if from < |ctrl| {
      SkipDead(ctrl, from, |ctrl|);
    }
  }

  /** Nothing between a scan's position and the slot it yields is live. */
  lemma NextIsFirst(ctrl: seq<Control>, from: nat, slot: nat)
    requires LiveSlots(ctrl, from) == [slot] + LiveSlots(ctrl, slot + 1)
    ensures forall s :: from <= s < slot && s < |ctrl| ==> !ctrl[s].Full?
  {
    LiveSlotsExact(ctrl, from);
    LiveSlotsExact(ctrl, slot + 1);
    forall s | from <= s < slot && s < |ctrl| ensures !ctrl[s].Full? {
      assert ctrl[s].Full? <==> s in [slot] + LiveSlots(ctrl, slot + 1);
    }
  }

  // ---- Removal scan ----

  /** What the caller's predicate makes of an entry: whether to remove it, and the value it leaves. */
  datatype Verdict<V> = Verdict(accept: bool, value: V)

  /** The predicate as a function of the call's number, the key and the value, so that it may carry
      state from call to call. */
  type Judge<!K, !V> = (nat, K, V) -> Verdict<V>

  /** The map left once the judged entries have been removed or rewritten. */
  ghost function After<K, V>(start: map<K, V>, judged: map<K, Verdict<V>>): map<K, V>
  {
    map k | k in start && !(k in judged && judged[k].accept) :: if k in judged then judged[k].value else start[k]
  }

  /** Slots of the entries not removed. */
  ghost function SlotsLeft<K, V>(full: map<K, nat>, judged: map<K, Verdict<V>>): map<K, nat>
  {
    map k | k in full && !(k in judged && judged[k].accept) :: full[k]
  }

  ghost function Passed<K>(full: map<K, nat>, position: nat): set<K>
  {
    set k | k in full && full[k] < position
  }

  lemma JudgeStep<K, V>(start: map<K, V>, full: map<K, nat>, judged: map<K, Verdict<V>>, key: K, verdict: Verdict<V>)
    requires key in start && key in full && key !in judged
    ensures var judged' := judged[key := verdict];
            && After(start, judged') == (if verdict.accept then After(start, judged) - {key}
                                         else After(start, judged)[key := verdict.value])
            && After(start, judged)[key := verdict.value] - {key} == After(start, judged) - {key}
            && SlotsLeft(full, judged') == (if verdict.accept then SlotsLeft(full, judged) - {key}
                                            else SlotsLeft(full, judged))
  {
  }

  /** Since `since`, exactly the entries appended to the order were judged, one predicate call each: the
      `i`-th entry of the order got the verdict of call `i` on its own key and value. Earlier verdicts
      stand. */
  ghost predicate Extends<K(!new), V(!new)>(start: map<K, V>, before: map<K, Verdict<V>>, since: seq<K>,
                                            judged: map<K, Verdict<V>>, order: seq<K>, judge: Judge<K, V>)
  {
    && since <= order
    && (forall k :: k in before ==> k in judged && judged[k] == before[k])
    && (forall k :: k in judged && k !in before ==> exists i :: |since| <= i < |order| && order[i] == k)
    && forall i :: |since| <= i < |order| ==>
                     order[i] !in before && order[i] in judged && order[i] in start
                     && judged[order[i]] == judge(i, order[i], start[order[i]])
  }

  /** Every verdict given since was to keep the entry. */
  ghost predicate AllKept<K, V>(before: map<K, Verdict<V>>, judged: map<K, Verdict<V>>)
  {
    forall k :: k in judged && k !in before ==> !judged[k].accept
  }

  lemma ExtendsTransitive<K(!new),
      V(!new)>(start: map<K, V>, a: map<K, Verdict<V>>, i: seq<K>, b: map<K, Verdict<V>>, j: seq<K>,
                                            c: map<K, Verdict<V>>, k: seq<K>, judge: Judge<K, V>)
    requires Extends(start, a, i, b, j, judge) && Extends(start, b, j, c, k, judge)
    ensures Extends(start, a, i, c, k, judge)
    ensures AllKept(a, b) && AllKept(b, c) ==> AllKept(a, c)
  {
    forall key | key in c && key !in a
      ensures exists n :: |i| <= n < |k| && k[n] == key
    {
      if key in b {
        var n :| |i| <= n < |j| && j[n] == key;
        assert k[n] == j[n];
      } else {
        var n :| |j| <= n < |k| && k[n] == key;
      }
    }
    forall n | |i| <= n < |k|
      ensures k[n] !in a && k[n] in c && k[n] in start && c[k[n]] == judge(n, k[n], start[k[n]])
    {
      if n < |j| {
        assert k[n] == j[n];
      }
    }
  }

  lemma ExtendsSelf<K(!new), V(!new)>(start: map<K, V>, a: map<K, Verdict<V>>, i: seq<K>, judge: Judge<K, V>)
    ensures Extends(start, a, i, a, i, judge) && AllKept(a, a)
  {
  }

  lemma ExtendsOnce<K(!new), V(!new)>(start: map<K, V>, a: map<K, Verdict<V>>, i: seq<K>, key: K, judge: Judge<K, V>)
    requires key in start && key !in a
    ensures Extends(start, a, i, a[key := judge(|i|, key, start[key])], i + [key], judge)
  {
    assert (i + [key])[|i|] == key;
  }

  lemma ExtendsKeys<K(!new), V(!new)>(start: map<K, V>, a: map<K, Verdict<V>>, i: seq<K>, b: map<K, Verdict<V>>,
                                      j: seq<K>, judge: Judge<K, V>)
    requires Extends(start, a, i, b, j, judge)
    ensures forall k :: k in a ==> k in b
  {
  }

  /** Judged entries stand in the order of their slots, each once. */
  ghost predicate InSlotOrder<K>(full: map<K, nat>, order: seq<K>, keys: set<K>)
  {
    && |order| == |keys|
    && (forall i :: 0 <= i < |order| ==> order[i] in keys && order[i] in full)
    && forall i, j :: 0 <= i < j < |order| ==> full[order[i]] < full[order[j]]
  }

  lemma OrderGrows<K>(full: map<K, nat>, order: seq<K>, keys: set<K>, key: K)
    requires InSlotOrder(full, order, keys) && key in full && key !in keys
    requires forall k :: k in keys && k in full ==> full[k] < full[key]
    ensures InSlotOrder(full, order + [key], keys + {key})
  {
  }

  /** Of the verdicts given since, exactly the one on `key` was to remove. */
  ghost predicate RemovedOnly<K, V>(before: map<K, Verdict<V>>, judged: map<K, Verdict<V>>, key: K, value: V)
  {
    && key in judged && key !in before && judged[key] == Verdict(true, value)
    && forall k :: k in judged && k !in before && k != key ==> !judged[k].accept
  }

  lemma RemovedLast<K, V>(before: map<K, Verdict<V>>, mid: map<K, Verdict<V>>, judged: map<K, Verdict<V>>, key: K,
                          value: V)
    requires AllKept(before, mid) && key !in mid && judged == mid[key := Verdict(true, value)]
    requires forall k :: k in before ==> k in mid
    ensures RemovedOnly(before, judged, key, value)
  {
  }

  datatype Step<K, V> = End | Kept | Removed(key: K, value: V)

  /** With no live slot at or past a position, every stored entry lies before it. */
  lemma StoredBefore<K, V>(ctrl: seq<Control>, data: seq<Slot<K, V>>, at: map<K, nat>, from: nat, k: K)
    requires Readout(ctrl, data, at) && LiveSlots(ctrl, from) == [] && k in at
    ensures at[k] < from
  {
    LiveSlotsExact(ctrl, from);
    assert LiveAt(ctrl, data, k, at[k]);
  }

  /** A scan position past every live slot has judged every entry. */
  lemma AllJudged<K, V>(ctrl: seq<Control>, data: seq<Slot<K, V>>, at: map<K, nat>, full: map<K, nat>, start: map<K, V>,
                        judged: map<K, Verdict<V>>, from: nat)
    requires Readout(ctrl, data, at) && at == SlotsLeft(full, judged) && full.Keys == start.Keys
    requires judged.Keys == Passed(full, from) && LiveSlots(ctrl, from) == []
    ensures judged.Keys == start.Keys
  {
    hide LiveSlots, Readout;
    forall k | k in at ensures at[k] < from {
      StoredBefore(ctrl, data, at, from, k);
    }
    forall k | k in full ensures k in judged {
      assert k in judged || k in at;
    }
  }

  /** The slot just yielded belongs to the one entry between the two positions. */
  lemma PassedStep<K, V>(ctrl: seq<Control>, data: seq<Slot<K, V>>, at: map<K, nat>, full: map<K, nat>,
                          judged: map<K, Verdict<V>>, from: nat, slot: nat, key: K)
    requires Readout(ctrl, data, at) && at == SlotsLeft(full, judged) && judged.Keys == Passed(full, from)
    requires from <= slot < |ctrl| && key in at && at[key] == slot
    requires forall s :: from <= s < slot && s < |ctrl| ==> !ctrl[s].Full?
    ensures key in full && key !in judged && Passed(full, slot + 1) == Passed(full, from) + {key}
  {
    assert full[key] == slot;
    forall k | k in full && k != key && from <= full[k] ensures full[k] > slot {
      assert k !in judged;
      assert LiveAt(ctrl, data, k, at[k]);
    }
  }

  lemma PassedBefore<K>(full: map<K, nat>, keys: set<K>, from: nat, key: K)
    requires keys == Passed(full, from) && key in full && key !in keys
    ensures forall k :: k in keys && k in full ==> full[k] < full[key]
  {
  }

  lemma Unjudged<K, V>(start: map<K, V>, full: map<K, nat>, judged: map<K, Verdict<V>>, key: K)
    requires key in full && key !in judged && full.Keys == start.Keys
    ensures key in start && key in After(start, judged) && After(start, judged)[key] == start[key]
  {
  }

  /** The entry at this slot is the next to judge, after exactly the entries before it. */
  ghost predicate NextUp<K(!new),
      V(!new)>(full: map<K, nat>, start: map<K, V>, judged: map<K, Verdict<V>>, order: seq<K>,
                                           slot: nat, key: K, value: V, judge: Judge<K, V>)
  {
    && key in full && key in start && key !in judged && start[key] == value
    && Passed(full, slot + 1) == judged.Keys + {key}
    && Extends(start, judged, order, judged[key := judge(|order|, key, value)], order + [key], judge)
    && InSlotOrder(full, order + [key], judged.Keys + {key})
  }

  /** A slot with nothing live between it and the scan's last position holds the next entry to judge. */
  lemma YieldedIsNext<K(!new), V(!new)>(ctrl: seq<Control>, data: seq<Slot<K, V>>, at: map<K, nat>, full: map<K, nat>,
                                        start: map<K, V>,
                                        judged: map<K, Verdict<V>>, order: seq<K>, from: nat, slot: nat, key: K,
                                            judge: Judge<K, V>)
    requires Readout(ctrl, data, at) && at == SlotsLeft(full, judged) && judged.Keys == Passed(full, from)
             && full.Keys == start.Keys
    requires from <= slot < |ctrl| && key in at && at[key] == slot && InSlotOrder(full, order, judged.Keys)
    requires forall s :: from <= s < slot && s < |ctrl| ==> !ctrl[s].Full?
    ensures key in After(start, judged)
            && NextUp(full, start, judged, order, slot, key, After(start, judged)[key], judge)
  {
    hide After, SlotsLeft, Passed, LiveSlots, Readout, Extends, InSlotOrder;
    PassedStep(ctrl, data, at, full, judged, from, slot, key);
    Unjudged(start, full, judged, key);
    ExtendsOnce(start, judged, order, key, judge);
    PassedBefore(full, judged.Keys, from, key);
    OrderGrows(full, order, judged.Keys, key);
  }
}
