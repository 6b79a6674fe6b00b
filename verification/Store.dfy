/** The part both tables share: control bytes and slots that hold each live key exactly once. */
module Store {
  import opened Controls
  import opened Wrappers

  // ---- Counting controls ----

  function Lives(ctrl: seq<Control>): nat
  {
    if ctrl == [] then 0 else (if ctrl[0].Full? then 1 else 0) + Lives(ctrl[1..])
  }

  function Tombs(ctrl: seq<Control>): nat
  {
    if ctrl == [] then 0 else (if ctrl[0] == Tombstone then 1 else 0) + Tombs(ctrl[1..])
  }

  lemma {:induction false} CountUpdate(ctrl: seq<Control>, s: nat, c: Control)
    requires s < |ctrl|
    ensures Lives(ctrl[s := c]) == Lives(ctrl) - (if ctrl[s].Full? then 1 else 0) + (if c.Full? then 1 else 0)
    ensures Tombs(ctrl[s := c]) == Tombs(ctrl) - (if ctrl[s] == Tombstone then 1 else 0)
            + (if c == Tombstone then 1 else 0)
    decreases |ctrl|
  {
    if s == 0 {
      assert ctrl[s := c][1..] == ctrl[1..];
    } else {
      CountUpdate(ctrl[1..], s - 1, c);
      assert ctrl[s := c][1..] == ctrl[1..][s - 1 := c];
    }
  }

  lemma {:induction false} CountExtremes(ctrl: seq<Control>)
    ensures Lives(ctrl) + Tombs(ctrl) <= |ctrl|
    ensures (forall s :: 0 <= s < |ctrl| ==> ctrl[s] == Empty) ==> Lives(ctrl) == 0 && Tombs(ctrl) == 0
    ensures Tombs(ctrl) == 0 <==> forall s :: 0 <= s < |ctrl| ==> ctrl[s] != Tombstone
    ensures Lives(ctrl) == 0 ==> forall s :: 0 <= s < |ctrl| ==> !ctrl[s].Full?
    decreases |ctrl|
  {
    if ctrl != [] {
      var rest := ctrl[1..];
      CountExtremes(rest);
      assert forall s :: 0 < s < |ctrl| ==> ctrl[s] == rest[s - 1];
      assert forall s :: 0 <= s < |rest| ==> rest[s] == ctrl[s + 1];
    }
  }

  /** Fewer live controls than the first `n` slots leave one of those free. */
  lemma {:induction false} FreeBelow(ctrl: seq<Control>, n: nat)
    requires Lives(ctrl) < n <= |ctrl|
    ensures exists s: nat :: s < n && IsFree(ctrl[s])
    decreases n
  {
    if ctrl[0].Full? {
      FreeBelow(ctrl[1..], n - 1);
      var s: nat :| s < n - 1 && IsFree(ctrl[1..][s]);
      assert IsFree(ctrl[s + 1]);
    }
  }

  /** The first free control from `from` on, or the end. */
  function LeastFree(ctrl: seq<Control>, from: nat): nat
    decreases |ctrl| - from
  {
    if from >= |ctrl| || IsFree(ctrl[from]) then from else LeastFree(ctrl, from + 1)
  }

  lemma {:induction false} LeastFreeIs(ctrl: seq<Control>, from: nat, slot: nat)
    requires from <= slot < |ctrl| && IsFree(ctrl[slot]) && forall s: nat :: from <= s < slot ==> !IsFree(ctrl[s])
    ensures LeastFree(ctrl, from) == slot
    decreases slot - from
  {
    if from < slot {
      LeastFreeIs(ctrl, from + 1, slot);
    }
  }

  // ---- Entries ----

  /** How keys hash and which fingerprint a hash leaves in the control byte. */
  datatype Keys<!K> = Keys(hash: K -> Word, fingerprint: Word -> bv8)
  {
    function Fp(key: K): bv8
    {
      fingerprint(hash(key))
    }
  }

  ghost predicate SoundKeys<K>(keys: Keys<K>)
  {
    forall h: Word :: ProperFingerprint(keys.fingerprint(h))
  }

  /** `at` names the one live slot of every key, and every live slot is named. Controls past the
      slots are padding, which never reads as live. */
  ghost predicate Stored<K, V>(ctrl: seq<Control>, data: seq<Slot<K, V>>, keys: Keys<K>, at: map<K, nat>)
  {
    && |data| <= |ctrl|
    && (forall k :: k in at ==> at[k] < |data| && ctrl[at[k]] == Full(keys.Fp(k)) && data[at[k]].Entry?
                                && data[at[k]].key == k)
    && (forall s :: 0 <= s < |ctrl| && ctrl[s].Full? ==> s < |data| && data[s].Entry? && data[s].key in at
                                                         && at[data[s].key] == s)
  }

  /** A scalar table's slots hold each key where the slot map has it, and no other. */
  ghost predicate SameSlots<K>(at: map<K, nat>, slots: seq<Option<K>>)
  {
    && (forall k :: k in at ==> at[k] < |slots| && slots[at[k]] == Some(k))
    && forall s :: 0 <= s < |slots| && slots[s].Some? ==> slots[s].value in at && at[slots[s].value] == s
  }

  /** The map the stored entries stand for. */
  ghost function Contents<K, V>(data: seq<Slot<K, V>>, at: map<K, nat>): map<K, V>
  {
    map k | k in at && at[k] < |data| && data[at[k]].Entry? :: data[at[k]].value
  }

  /** Writing an absent key into a free slot adds exactly that entry. */
  lemma PlaceStored<K, V>(ctrl: seq<Control>, data: seq<Slot<K, V>>, keys: Keys<K>, at: map<K, nat>, s: nat, key: K,
                          value: V)
    requires Stored(ctrl, data, keys, at) && s < |data| && IsFree(ctrl[s]) && key !in at
    ensures var ctrl', data', at' := ctrl[s := Full(keys.Fp(key))], data[s := Entry(key, value)], at[key := s];
            && Stored(ctrl', data', keys, at')
            && Contents(data', at') == Contents(data, at)[key := value]
            && |at'| == |at| + 1
  {
  }

  /** Two live slots hold entries of the key. */
  ghost predicate HeldTwice<K, V>(ctrl: seq<Control>, data: seq<Slot<K, V>>, key: K, s: nat, s': nat)
  {
    && s != s' && s < |ctrl| && s < |data| && s' < |ctrl| && s' < |data| && ctrl[s].Full? && ctrl[s'].Full?
    && data[s].Entry? && data[s].key == key && data[s'].Entry? && data[s'].key == key
  }

  /** Writing a stored key into a free slot leaves it in two live slots. */
  lemma PlaceTwice<K, V>(ctrl: seq<Control>, data: seq<Slot<K, V>>, keys: Keys<K>, at: map<K, nat>, s: nat, key: K,
                         value: V)
    requires Stored(ctrl, data, keys, at) && s < |data| && IsFree(ctrl[s]) && key in at
    ensures HeldTwice(ctrl[s := Full(keys.Fp(key))], data[s := Entry(key, value)], key, at[key], s)
  {
  }

  /** A key in two live slots is more than any slot map names. */
  lemma TwiceIsNotStored<K, V>(ctrl: seq<Control>, data: seq<Slot<K, V>>, keys: Keys<K>, at: map<K, nat>, key: K,
                               s: nat, s': nat)
    requires HeldTwice(ctrl, data, key, s, s')
    ensures !Stored(ctrl, data, keys, at)
  {
  }

  /** Vacating a live slot removes exactly its entry. */
  lemma VacateStored<K, V>(ctrl: seq<Control>, data: seq<Slot<K, V>>, keys: Keys<K>, at: map<K, nat>, s: nat,
                           c: Control)
    requires Stored(ctrl, data, keys, at) && s < |ctrl| && ctrl[s].Full? && IsFree(c)
    ensures var key := data[s].key;
            && key in at && Stored(ctrl[s := c], data, keys, at - {key})
            && Contents(data, at - {key}) == Contents(data, at) - {key}
            && |at - {key}| == |at| - 1
  {
    var key := data[s].key;
    var at' := at - {key};
    assert at'.Keys == at.Keys - {key};
  }

  lemma ReplaceStored<K, V>(ctrl: seq<Control>, data: seq<Slot<K, V>>, keys: Keys<K>, at: map<K, nat>, s: nat, value: V)
    requires Stored(ctrl, data, keys, at) && s < |ctrl| && ctrl[s].Full?
    ensures var data' := data[s := Entry(data[s].key, value)];
            && Stored(ctrl, data', keys, at)
            && Contents(data', at) == Contents(data, at)[data[s].key := value]
  {
  }

  predicate Holds<K(==), V>(slot: Slot<K, V>, key: K)
  {
    slot.Entry? && slot.key == key
  }

  /** The reference lookup: the first slot of a full scan that holds the key. */
  function FullScan<K(==), V>(ctrl: seq<Control>, data: seq<Slot<K, V>>, key: K, fp: bv8, from: nat): Option<nat>
    requires from <= |data| <= |ctrl|
    decreases |data| - from
  {
    if from == |data| then None
    else if ctrl[from] == Full(fp) && Holds(data[from], key) then Some(from)
    else FullScan(ctrl, data, key, fp, from + 1)
  }

  /** On stored entries a full scan finds exactly the keys of the map, at their one slot. */
  lemma {:induction false} FullScanFinds<K, V>(ctrl: seq<Control>, data: seq<Slot<K, V>>, keys: Keys<K>,
                                               at: map<K, nat>, key: K, from: nat)
    requires Stored(ctrl, data, keys, at) && from <= |data|
    ensures FullScan(ctrl, data, key, keys.Fp(key), from) == if key in at && at[key] >= from then Some(at[key])
                                                             else None
    decreases |data| - from
  {
    if from < |data| {
      FullScanFinds(ctrl, data, keys, at, key, from + 1);
    }
  }

  /** Each live slot carries one key, so there are as many live slots as keys. */
  lemma {:induction false} LivesAreKeys<K, V>(ctrl: seq<Control>, data: seq<Slot<K, V>>, keys: Keys<K>, at: map<K, nat>)
    requires Stored(ctrl, data, keys, at)
    ensures Lives(ctrl) == |at|
    decreases |at|
  {
    CountExtremes(ctrl);
    if |at| == 0 {
      if Lives(ctrl) > 0 {
        LiveExists(ctrl);
      }
    } else {
      var key :| key in at;
      VacateStored(ctrl, data, keys, at, at[key], Empty);
      CountUpdate(ctrl, at[key], Empty);
      LivesAreKeys(ctrl[at[key] := Empty], data, keys, at - {key});
    }
  }

  lemma {:induction false} LiveExists(ctrl: seq<Control>)
    requires Lives(ctrl) > 0
    ensures exists s :: 0 <= s < |ctrl| && ctrl[s].Full?
  {
    if !ctrl[0].Full? {
      LiveExists(ctrl[1..]);
      var s :| 0 <= s < |ctrl[1..]| && ctrl[1..][s].Full?;
      assert ctrl[s + 1].Full?;
    }
  }

  // ---- Passing over the live slots in order ----

  /** Slot `s` holds the entry of key `k`. */
  ghost predicate LiveAt<K, V>(ctrl: seq<Control>, data: seq<Slot<K, V>>, k: K, s: nat)
  {
    s < |data| && data[s].Entry? && data[s].key == k && s < |ctrl| && ctrl[s].Full?
  }

  /** What reading the slots in order relies on: `at` names the live slots, each by its key. */
  ghost predicate Readout<K, V>(ctrl: seq<Control>, data: seq<Slot<K, V>>, at: map<K, nat>)
  {
    && (forall k :: k in at ==> LiveAt(ctrl, data, k, at[k]))
    && (forall s :: 0 <= s < |ctrl| && ctrl[s].Full? ==>
          (s < |data| && data[s].Entry? && data[s].key in at && at[data[s].key] == s))
  }

  /** Keys whose slot a cursor at `next` has passed. */
  ghost function Moved<K>(at: map<K, nat>, next: nat): set<K>
  {
    set k | k in at && at[k] < next
  }

  /** Passing the next live slot adds exactly its key. */
  lemma MovedStep<K, V>(ctrl: seq<Control>, data: seq<Slot<K, V>>, at: map<K, nat>, passed: nat, slot: nat)
    requires Readout(ctrl, data, at) && passed <= slot < |ctrl| && ctrl[slot].Full?
    requires forall s :: passed <= s < slot ==> !ctrl[s].Full?
    ensures slot < |data| && data[slot].Entry? && data[slot].key in at && at[data[slot].key] == slot
    ensures Moved(at, slot + 1) == Moved(at, passed) + {data[slot].key}
    ensures data[slot].key !in Moved(at, passed) && |Moved(at, passed)| < |at|
  {
    var key := data[slot].key;
    assert Moved(at, passed) <= at.Keys - {key};
    SubsetSmaller(Moved(at, passed), at.Keys - {key});
  }

  /** With no live slot left, every key has been passed. */
  lemma MovedAll<K, V>(ctrl: seq<Control>, data: seq<Slot<K, V>>, at: map<K, nat>, passed: nat)
    requires Readout(ctrl, data, at) && forall s :: passed <= s < |ctrl| ==> !ctrl[s].Full?
    ensures Moved(at, passed) == at.Keys
  {
  }

  /** Slots that are not live can be passed without effect. */
  lemma MovedSkip<K, V>(ctrl: seq<Control>, data: seq<Slot<K, V>>, at: map<K, nat>, passed: nat, next: nat)
    requires Readout(ctrl, data, at) && passed <= next
    requires forall s :: passed <= s < next && s < |ctrl| ==> !ctrl[s].Full?
    ensures Moved(at, passed) == Moved(at, next)
  {
  }

  lemma {:induction false} SubsetSmaller<T>(a: set<T>, b: set<T>)
    requires a <= b
    ensures |a| <= |b|
    decreases |a|
  {
    if a != {} {
      var x :| x in a;
      SubsetSmaller(a - {x}, b - {x});
    }
  }

  /** A key at or past a position has not been passed. */
  lemma MovedFewer<K>(at: map<K, nat>, stop: nat, key: K)
    requires key in at && at[key] >= stop
    ensures |Moved(at, stop)| < |at|
  {
    SubsetSmaller(Moved(at, stop), at.Keys - {key});
  }

  lemma MovedCount<K>(at: map<K, nat>, passed: nat, key: K, slot: nat)
    requires key in at && at[key] == slot >= passed && Moved(at, slot + 1) == Moved(at, passed) + {key}
    ensures |Moved(at, slot + 1)| == |Moved(at, passed)| + 1
  {
  }

  /** Passing the one key at `slot`, with none between, adds one. */
  lemma MovedOne<K>(at: map<K, nat>, passed: nat, slot: nat, key: K)
    requires key in at && at[key] == slot >= passed
    requires forall k :: k in at && at[k] >= passed && k != key ==> at[k] > slot
    ensures |Moved(at, slot + 1)| == |Moved(at, passed)| + 1 && |Moved(at, passed)| < |at|
  {
    assert Moved(at, slot + 1) == Moved(at, passed) + {key};
    MovedFewer(at, passed, key);
  }

  lemma NoneMoved<K>(at: map<K, nat>)
    ensures |Moved(at, 0)| == 0
  {
    assert Moved(at, 0) == {};
  }

  /** `stop` comes right after the last of `drops + 1` keys. */
  ghost predicate CutAfter<K>(at: map<K, nat>, stop: nat, drops: nat)
  {
    |Moved(at, stop)| == drops + 1 && exists k :: k in at && at[k] + 1 == stop
  }

  /** Entries of `m` whose slot in `full` is at or past `next`. */
  ghost function Remaining<K, T>(m: map<K, T>, full: map<K, nat>, next: nat): map<K, T>
  {
    map k | k in m && k in full && full[k] >= next :: m[k]
  }

  /** A map after binding a run of entries in order. */
  ghost function Bound<K, V>(entries: seq<(K, V)>): map<K, V>
  {
    if |entries| == 0 then map[]
    else Bound(entries[..|entries| - 1])[entries[|entries| - 1].0 := entries[|entries| - 1].1]
  }
}
