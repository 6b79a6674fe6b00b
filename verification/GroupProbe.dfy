/** The greedy group-probing control table: portable group scans that may over-flag, a mirrored control
    tail, and triangular probing, together refining an insert-only map. */
module GroupProbe {
  import opened Arith
  import opened Swar
  import opened TriangularProbe
  import opened Wrappers
  import Words
  import Store

  /** A control byte: EMPTY (`0xFF`), or the seven-bit tag of the slot's entry. */
  datatype Ctrl = Vacant | Tagged(tag: bv8)

  predicate SevenBit(tag: bv8)
  {
    tag & 0x80 == 0
  }

  predicate Proper(c: Ctrl)
  {
    c.Tagged? ==> SevenBit(c.tag)
  }

  function CtrlByte(c: Ctrl): bv8
  {
    match c
    case Vacant => 0xff
    case Tagged(tag) => tag
  }

  /** `split_hash`: the low bits pick the start slot, the top seven bits are the tag. */
  function StartSlot(hash: bv64, slots: nat): (start: nat)
    requires slots > 0
    ensures start < slots
  {
    Words.Val(hash) % slots
  }

  function TagOf(hash: bv64): (tag: bv8)
    ensures SevenBit(tag)
  {
    (hash >> 57) as bv8
  }

  // ---- Group masks ----

  function MatchTag(word: bv64, tag: bv8): bv64
  {
    BorrowMask(word ^ Spread(tag))
  }

  function BorrowMask(diff: bv64): bv64
  {
    (diff - ONES) & !diff & HI
  }

  function MatchEmpty(word: bv64): bv64
  {
    word & HI
  }

  lemma BorrowMaskLane(diff: bv64, i: nat)
    requires i < 8
    ensures LaneBits(BorrowMask(diff))
    ensures InMask(BorrowMask(diff), i) <==>
              LaneByte(diff, i) == 0 || (i > 0 && LaneByte(diff, i) == 1 && InMask(BorrowMask(diff), i - 1))
  {
    if i == 0 {} else if i == 1 {} else if i == 2 {} else if i == 3 {}
    else if i == 4 {} else if i == 5 {} else if i == 6 {} else {}
  }

  /** The one byte a borrow can flag besides the tag: the tag with its low bit flipped. */
  function Flipped(tag: bv8): bv8
  {
    tag ^ 1
  }

  lemma DifferenceBytes(a: bv8, tag: bv8)
    ensures a ^ tag == 0 <==> a == tag
    ensures a ^ tag == 1 <==> a == Flipped(tag)
  {
  }

  lemma LaneDifference(word: bv64, tag: bv8, i: nat)
    requires i < 8
    ensures LaneByte(word ^ Spread(tag), i) == 0 <==> LaneByte(word, i) == tag
    ensures LaneByte(word ^ Spread(tag), i) == 1 <==> LaneByte(word, i) == Flipped(tag)
  {
    hide LaneByte, Spread, Flipped;
    XorLane(word, Spread(tag), i);
    Broadcast(tag, i);
    DifferenceBytes(LaneByte(word, i), tag);
  }

  /** Exactly which lanes the borrow flags: the matches, and above a flagged lane those holding the
      flipped tag. No match is missed, and the lowest flag is a match. */
  lemma MatchTagExact(word: bv64, tag: bv8, i: nat)
    requires i < 8
    ensures LaneBits(MatchTag(word, tag))
    ensures InMask(MatchTag(word, tag), i) <==>
              LaneByte(word, i) == tag || (i > 0 && LaneByte(word, i) == Flipped(tag)
                                           && InMask(MatchTag(word, tag), i - 1))
  {
    hide LaneByte, BorrowMask, InMask, Spread, LaneBits, Flipped;
    BorrowMaskLane(word ^ Spread(tag), i);
    LaneDifference(word, tag, i);
  }

  function GroupWord(g: seq<Ctrl>): bv64
    requires |g| == WIDTH
  {
    Load(seq(8, i requires 0 <= i < 8 => CtrlByte(g[i])))
  }

  lemma GroupLane(g: seq<Ctrl>, i: nat)
    requires |g| == WIDTH && i < 8
    ensures LaneByte(GroupWord(g), i) == CtrlByte(g[i])
  {
    hide LaneByte, Load, CtrlByte;
    LoadLanes(seq(8, j requires 0 <= j < 8 => CtrlByte(g[j])), i);
  }

  lemma FlippedTag(c: Ctrl, tag: bv8)
    requires Proper(c) && SevenBit(tag)
    ensures CtrlByte(c) == tag <==> c == Tagged(tag)
    ensures CtrlByte(c) == Flipped(tag) ==> c.Tagged?
    ensures CtrlByte(c) & 0x80 == 0x80 <==> c == Vacant
  {
  }

  /** Every entry with the tag is flagged, and a false flag still stands on an entry, so the key
      comparison never reads a slot that was never filled. */
  lemma TagLanes(g: seq<Ctrl>, tag: bv8, i: nat)
    requires |g| == WIDTH && i < 8 && Proper(g[i]) && SevenBit(tag)
    ensures LaneBits(MatchTag(GroupWord(g), tag))
    ensures g[i] == Tagged(tag) ==> InMask(MatchTag(GroupWord(g), tag), i)
    ensures InMask(MatchTag(GroupWord(g), tag), i) ==> g[i].Tagged?
  {
    hide LaneByte, InMask, LaneBits, MatchTag, GroupWord, CtrlByte, Proper, SevenBit, Flipped;
    MatchTagExact(GroupWord(g), tag, i);
    GroupLane(g, i);
    FlippedTag(g[i], tag);
  }

  /** The empty scan is exact: with no tombstones only EMPTY has its high bit set. */
  lemma EmptyLanes(g: seq<Ctrl>, i: nat)
    requires |g| == WIDTH && i < 8 && Proper(g[i])
    ensures LaneBits(MatchEmpty(GroupWord(g)))
    ensures InMask(MatchEmpty(GroupWord(g)), i) <==> g[i] == Vacant
  {
    hide LaneByte, LaneBits, GroupWord, CtrlByte, Proper, OccupiedMask;
    HighBits(GroupWord(g), i);
    GroupLane(g, i);
    ZeroIsSevenBit();
    FlippedTag(g[i], 0);
  }

  lemma ZeroIsSevenBit()
    ensures SevenBit(0)
  {
  }

  // ---- The control array ----

  /** The tail repeats the first group, so a load from any start position stays in bounds. */
  predicate Mirrored(c: seq<Ctrl>, slots: nat)
  {
    && WIDTH <= slots && |c| == slots + WIDTH
    && (forall i :: 0 <= i < WIDTH ==> c[slots + i] == c[i])
    && forall s :: 0 <= s < |c| ==> Proper(c[s])
  }

  /** A loaded byte is the control of its lane's slot, wrapped around the table. */
  lemma WindowLane(c: seq<Ctrl>, slots: nat, pos: nat, lane: nat)
    requires Mirrored(c, slots) && pos < slots && lane < WIDTH
    ensures c[pos + lane] == c[LaneSlot(pos, lane, slots)]
  {
    if pos + lane < slots {
      QuotientIs(pos + lane, slots, 0, pos + lane);
    } else {
      QuotientIs(pos + lane, slots, 1, pos + lane - slots);
      assert c[slots + (pos + lane - slots)] == c[pos + lane - slots];
    }
  }

  predicate NoneVacant(c: seq<Ctrl>, slots: nat, pos: nat)
    requires Mirrored(c, slots)
  {
    forall lane :: 0 <= lane < WIDTH ==> c[LaneSlot(pos, lane, slots)] != Vacant
  }

  /** Probe `t` loads the slot, and no earlier group had an empty lane to stop at. */
  ghost predicate ReachedAt(c: seq<Ctrl>, slots: nat, start: nat, slot: nat, t: nat)
    requires Mirrored(c, slots)
  {
    && InGroup(slots, start, slot, t)
    && forall u :: 0 <= u < t ==> NoneVacant(c, slots, GroupStart(start, u, slots))
  }

  ghost predicate InGroup(slots: nat, start: nat, slot: nat, t: nat)
    requires slots > 0
  {
    exists lane :: 0 <= lane < WIDTH && LaneSlot(GroupStart(start, t, slots), lane, slots) == slot
  }

  ghost predicate Reached(c: seq<Ctrl>, slots: nat, start: nat, slot: nat)
    requires Mirrored(c, slots)
  {
    exists t :: t >= 0 && ReachedAt(c, slots, start, slot, t)
  }

  /** Filling a slot keeps every other slot reached: nothing turns empty again. */
  lemma FillingKeepsReached(c: seq<Ctrl>, c': seq<Ctrl>, slots: nat, start: nat, slot: nat)
    requires Mirrored(c, slots) && Mirrored(c', slots) && Reached(c, slots, start, slot)
    requires forall s :: 0 <= s < slots && c[s] != Vacant ==> c'[s] != Vacant
    ensures Reached(c', slots, start, slot)
  {
    hide GroupStart, LaneSlot;
    var t :| t >= 0 && ReachedAt(c, slots, start, slot, t);
    forall u | 0 <= u < t
      ensures NoneVacant(c', slots, GroupStart(start, u, slots))
    {
      assert NoneVacant(c, slots, GroupStart(start, u, slots));
    }
    assert ReachedAt(c', slots, start, slot, t);
  }

  /** The control array after a slot is tagged, its mirror included. */
  function Filled(c: seq<Ctrl>, slots: nat, index: nat, tag: bv8): (r: seq<Ctrl>)
    requires WIDTH <= slots && |c| == slots + WIDTH && index < slots
  {
    var once := c[index := Tagged(tag)];
    if index < WIDTH then once[slots + index := Tagged(tag)] else once
  }

  lemma FilledFacts(c: seq<Ctrl>, slots: nat, index: nat, tag: bv8)
    requires Mirrored(c, slots) && index < slots && SevenBit(tag)
    ensures var r := Filled(c, slots, index, tag);
            && Mirrored(r, slots) && r[index] == Tagged(tag)
            && forall s :: 0 <= s < slots && s != index ==> r[s] == c[s]
  {
    hide SevenBit;
  }

  // ---- Pigeonhole ----

  ghost function KeysUpTo<K, V>(e: seq<(K, V)>, n: nat): set<K>
    requires n <= |e|
  {
    set s | 0 <= s < n :: e[s].0
  }

  lemma {:induction false} FullPrefix<K, V>(e: seq<(K, V)>, at: map<K, nat>, n: nat)
    requires n <= |e| && forall s :: 0 <= s < n ==> e[s].0 in at && at[e[s].0] == s
    ensures |KeysUpTo(e, n)| == n && KeysUpTo(e, n) <= at.Keys
  {
    if n > 0 {
      FullPrefix(e, at, n - 1);
      assert KeysUpTo(e, n) == KeysUpTo(e, n - 1) + {e[n - 1].0};
    }
  }

  // ---- The table ----

  datatype TableFull = TableFull

  /** Every filled slot belongs to the key stored in it. */
  ghost predicate Indexed(c: seq<Ctrl>, e: seq<(Word64, Word64)>, slots: nat, at: map<Word64, nat>)
    requires Mirrored(c, slots) && |e| == slots
  {
    forall s :: 0 <= s < slots && c[s] != Vacant ==> e[s].0 in at && at[e[s].0] == s
  }

  /** The key's slot carries its tag, and its walk reaches the slot before any empty lane. */
  ghost predicate Kept(c: seq<Ctrl>, e: seq<(Word64, Word64)>, slots: nat, hash: bv64, key: Word64, slot: nat)
    requires Mirrored(c, slots) && |e| == slots
  {
    && slot < slots && e[slot].0 == key && c[slot] == Tagged(TagOf(hash))
    && Reached(c, slots, StartSlot(hash, slots), slot)
  }

  ghost predicate AllKept(c: seq<Ctrl>, e: seq<(Word64, Word64)>, slots: nat, hasher: Word64 -> bv64,
                          at: map<Word64, nat>)
    requires Mirrored(c, slots) && |e| == slots
  {
    forall k :: k in at ==> Kept(c, e, slots, hasher(k), k, at[k])
  }

  ghost function Readings(e: seq<(Word64, Word64)>, at: map<Word64, nat>): map<Word64, Word64>
  {
    map k | k in at && at[k] < |e| :: e[at[k]].1
  }

  /** Filling an empty slot with a new key the walk reaches keeps every key stored, and adds the key. */
  lemma FillingStores(c: seq<Ctrl>, c': seq<Ctrl>, e: seq<(Word64, Word64)>, slots: nat, hasher: Word64 -> bv64,
                      at: map<Word64, nat>, key: Word64, value: Word64, slot: nat)
    requires Mirrored(c, slots) && Mirrored(c', slots) && |e| == slots && slot < slots
    requires Indexed(c, e, slots, at) && AllKept(c, e, slots, hasher, at)
    requires key !in at && c[slot] == Vacant && c'[slot] == Tagged(TagOf(hasher(key)))
    requires forall s :: 0 <= s < slots && s != slot ==> c'[s] == c[s]
    requires Reached(c', slots, StartSlot(hasher(key), slots), slot)
    ensures var e', at' := e[slot := (key, value)], at[key := slot];
            && Indexed(c', e', slots, at') && AllKept(c', e', slots, hasher, at')
            && Readings(e', at') == Readings(e, at)[key := value]
  {
    hide Reached, StartSlot, TagOf, Mirrored;
    var e', at' := e[slot := (key, value)], at[key := slot];
    MirroredLength(c, slots);
    MirroredLength(c', slots);
    forall k | k in at'
      ensures Kept(c', e', slots, hasher(k), k, at'[k])
    {
      if k != key {
        assert Kept(c, e, slots, hasher(k), k, at[k]);
        FillingKeepsReached(c, c', slots, StartSlot(hasher(k), slots), at[k]);
      }
    }
  }

  /** Lanes a group mask flags. */
  ghost function Flagging(mask: bv64): set<nat>
  {
    set i: nat | 0 <= i < WIDTH && InMask(mask, i)
  }

  lemma NothingFlags(mask: bv64)
    ensures mask == 0 ==> Flagging(mask) == {}
  {
    hide InMask;
    if mask == 0 {
      forall i: nat | i < WIDTH
        ensures !InMask(0, i)
      {
        EmptyMask(i);
      }
    }
  }

  /** `Lanes`: the flagged lanes of a group mask, lowest first, each once. */
  class Lanes {
    var mask: bv64

    ghost function Left(): set<nat>
      reads this
    {
      Flagging(mask)
    }

    constructor (mask: bv64)
      ensures this.mask == mask
    {
      this.mask := mask;
    }

    method Next() returns (lane: Option<nat>)
      requires LaneBits(mask)
      modifies this
      ensures LaneBits(mask)
      ensures lane.None? <==> old(Left()) == {}
      ensures lane.Some? ==> lane.value in old(Left()) && lane.value < WIDTH && forall i :: i in old(Left()) ==>
              lane.value <= i
      ensures Left() == old(Left()) - (if lane.Some? then {lane.value} else {})
    {
      hide InMask, LaneBits, LowestLane, ClearLowest;
      NothingFlags(mask);
      if mask == 0 {
        return None;
      }
      LowestFlag(mask);
      lane := Some(LowestLane(mask));
      assert lane.value in Left();
      mask := ClearLowest(mask);
    }
  }

  /** `Probe`: strides of one, two, three, ... groups. */
  class Probe {
    var pos: nat
    var stride: nat

    constructor (start: nat)
      ensures pos == start && stride == 0
    {
      pos, stride := start, 0;
    }

    /** Leads from the group of probe `t` to the group of probe `t + 1`. */
    method Advance(slots: nat, ghost start: nat, ghost t: nat)
      requires slots > 0 && pos == GroupStart(start, t, slots) && stride == WIDTH * t
      modifies this
      ensures pos == GroupStart(start, t + 1, slots) && stride == WIDTH * (t + 1)
    {
      hide GroupStart;
      NextGroupStart(start, t, slots);
      stride := stride + WIDTH;
      pos := (pos + stride) % slots;
    }
  }

  class GroupProbeMap {
    const ctrl: array<Ctrl>
    const entries: array<(Word64, Word64)>
    const slots: nat
    const maxLen: nat
    const hasher: Word64 -> bv64
    var len: nat
    /** The table holds `2^order` groups. */
    ghost const order: nat
    /** Slot of each key. */
    ghost var at: map<Word64, nat>

    /** Every key has one slot, tagged with its hash and reached by its walk before any empty lane. */
    ghost predicate Valid()
      reads this, ctrl, entries
    {
      && slots == WIDTH * Pow2(order) && entries.Length == slots && maxLen < slots
      && Mirrored(ctrl[..], slots)
      && len == |at| <= maxLen
      && Indexed(ctrl[..], entries[..], slots, at)
      && AllKept(ctrl[..], entries[..], slots, hasher, at)
    }

    /** The map the table stands for. */
    ghost function Contents(): map<Word64, Word64>
      reads this, entries
    {
      Readings(entries[..], at)
    }

    /** `with_slots`: the source panics unless `slots` is a power of two of at least one group and the
        budget leaves an empty slot. */
    constructor (slots: nat, maxLen: nat, hasher: Word64 -> bv64, ghost order: nat)
      requires slots == WIDTH * Pow2(order) && maxLen < slots
      ensures Valid() && Contents() == map[] && fresh(ctrl) && fresh(entries)
      ensures this.maxLen == maxLen && this.hasher == hasher
    {
      this.slots, this.maxLen, this.hasher, this.order := slots, maxLen, hasher, order;
      this.ctrl := new Ctrl[slots + WIDTH](_ => Vacant);
      this.entries := new (Word64, Word64)[slots](_ => (0, 0));
      len, at := 0, map[];
    }

    /** `max_len` leaves an empty slot in every state. */
    lemma SomeSlotVacant() returns (slot: nat)
      requires Valid()
      ensures slot < slots && ctrl[slot] == Vacant
    {
      hide AllKept, Mirrored, Pow2;
      assert |ctrl[..]| >= slots by { MirroredLength(ctrl[..], slots); }
      slot := 0;
      while slot < slots && ctrl[slot] != Vacant
        invariant slot <= slots && forall s :: 0 <= s < slot ==> ctrl[s] != Vacant
      {
        slot := slot + 1;
      }
      FullPrefix(entries[..], at, slot);
      Store.SubsetSmaller(KeysUpTo(entries[..], slot), at.Keys);
    }

    lemma Shape()
      requires Valid()
      ensures WIDTH <= slots == entries.Length && ctrl.Length == slots + WIDTH && Mirrored(ctrl[..], slots)
    {
      hide AllKept, Indexed, Pow2;
    }

    /** What the tag mask of a group says of the slots under its lanes. */
    lemma Flags(pos: nat, tag: bv8)
      requires Valid() && pos < slots && SevenBit(tag) && pos + WIDTH <= ctrl.Length
      ensures var mask := MatchTag(GroupWord(ctrl[pos..pos + WIDTH]), tag);
              && LaneBits(mask)
              && forall lane :: 0 <= lane < WIDTH ==>
                                  && LaneSlot(pos, lane, slots) < ctrl.Length
                                  && (ctrl[LaneSlot(pos, lane, slots)] == Tagged(tag) ==> lane in Flagging(mask))
                                  && (lane in Flagging(mask) ==> ctrl[LaneSlot(pos, lane, slots)] != Vacant)
    {
      hide Valid, InMask, LaneBits, MatchTag, GroupWord, SevenBit, LaneSlot;
      Shape();
      TagLanes(ctrl[pos..pos + WIDTH], tag, 0);
      forall lane | 0 <= lane < WIDTH
        ensures LaneSlot(pos, lane, slots) < ctrl.Length
        ensures ctrl[LaneSlot(pos, lane, slots)] == Tagged(tag) ==>
                InMask(MatchTag(GroupWord(ctrl[pos..pos + WIDTH]), tag), lane)
        ensures InMask(MatchTag(GroupWord(ctrl[pos..pos + WIDTH]), tag), lane) ==>
                ctrl[LaneSlot(pos, lane, slots)] != Vacant
      {
        WindowLane(ctrl[..], slots, pos, lane);
        assert ctrl[pos..pos + WIDTH][lane] == ctrl[..][pos + lane];
        TagLanes(ctrl[pos..pos + WIDTH], tag, lane);
      }
    }

    lemma Empties(pos: nat)
      requires Valid() && pos < slots && pos + WIDTH <= ctrl.Length
      ensures var mask := MatchEmpty(GroupWord(ctrl[pos..pos + WIDTH]));
              && LaneBits(mask)
              && forall lane :: 0 <= lane < WIDTH ==>
                                  && LaneSlot(pos, lane, slots) < ctrl.Length
                                  && (lane in Flagging(mask) <==> ctrl[LaneSlot(pos, lane, slots)] == Vacant)
    {
      hide Valid, InMask, LaneBits, MatchEmpty, GroupWord, LaneSlot;
      Shape();
      EmptyLanes(ctrl[pos..pos + WIDTH], 0);
      forall lane | 0 <= lane < WIDTH
        ensures LaneSlot(pos, lane, slots) < ctrl.Length
        ensures InMask(MatchEmpty(GroupWord(ctrl[pos..pos + WIDTH])), lane) <==>
                ctrl[LaneSlot(pos, lane, slots)] == Vacant
      {
        WindowLane(ctrl[..], slots, pos, lane);
        assert ctrl[pos..pos + WIDTH][lane] == ctrl[..][pos + lane];
        EmptyLanes(ctrl[pos..pos + WIDTH], lane);
      }
    }

    /** The entry a tag match of the group at `pos` leads to; a false flag is rejected by its key. */
    method FindInGroup(pos: nat, key: Word64, tag: bv8) returns (hit: Option<nat>)
      requires Valid() && pos < slots && SevenBit(tag)
      ensures hit.Some? ==> hit.value < slots && ctrl[hit.value] != Vacant && entries[hit.value].0 == key
      ensures hit.None? ==> forall lane :: 0 <= lane < WIDTH && ctrl[LaneSlot(pos, lane, slots)] == Tagged(tag) ==>
                              entries[LaneSlot(pos, lane, slots)].0 != key
    {
      hide Valid, MatchTag, InMask, LaneBits, SevenBit, Mirrored, LaneSlot, GroupWord, Reached, Flagging;
      Shape();
      Flags(pos, tag);
      var lanes := new Lanes(MatchTag(GroupWord(ctrl[pos..pos + WIDTH]), tag));
      ghost var flagged := lanes.Left();
      var lane := lanes.Next();
      while lane.Some?
        invariant LaneBits(lanes.mask) && lanes.Left() <= flagged && fresh(lanes)
        invariant lane.Some? ==> lane.value < WIDTH && lane.value in flagged
        invariant forall l :: l in flagged && l < WIDTH && l !in lanes.Left() && lane != Some(l) ==>
                    entries[LaneSlot(pos, l, slots)].0 != key
        invariant lane.None? ==> lanes.Left() == {}
        decreases lane.Some?, lanes.Left()
      {
        var slot := (pos + lane.value) % slots;
        assert slot == LaneSlot(pos, lane.value, slots) by { LaneSlotIs(pos, lane.value, slots); }
        if entries[slot].0 == key {
          return Some(slot);
        }
        lane := lanes.Next();
      }
      return None;
    }

    /** The first empty lane of the group at `pos`. */
    method FirstEmpty(pos: nat) returns (lane: Option<nat>)
      requires Valid() && pos < slots
      ensures lane.Some? ==> lane.value < WIDTH && ctrl[LaneSlot(pos, lane.value, slots)] == Vacant
      ensures lane.Some? ==> forall l :: 0 <= l < lane.value ==> ctrl[LaneSlot(pos, l, slots)] != Vacant
      ensures lane.None? <==> NoneVacant(ctrl[..], slots, pos)
    {
      hide Valid, MatchEmpty, InMask, LaneBits, Mirrored, LaneSlot, GroupWord, Reached, Flagging;
      Shape();
      Empties(pos);
      var lanes := new Lanes(MatchEmpty(GroupWord(ctrl[pos..pos + WIDTH])));
      lane := lanes.Next();
    }

    // ---- Walking ----

    /** The first `t` groups of the key's walk have no empty lane and do not hold the key. */
    ghost predicate Passed(key: Word64, t: nat)
      requires Mirrored(ctrl[..], slots) && entries.Length == slots
      reads this, ctrl, entries
    {
      forall u :: 0 <= u < t ==> NoneVacant(ctrl[..], slots, Group(key, u))
                                 && (key in at ==> !InGroup(slots, Start(key), at[key], u))
    }

    ghost function Start(key: Word64): nat
      requires slots > 0
    {
      StartSlot(hasher(key), slots)
    }

    ghost function Group(key: Word64, u: nat): (pos: nat)
      requires slots > 0
      ensures pos < slots
    {
      GroupStart(Start(key), u, slots)
    }

    /** The walk meets the empty slot before it has used up its `2^order` probes. */
    lemma WalkEnds(key: Word64, t: nat)
      requires Valid() && Passed(key, t)
      ensures t < Pow2(order)
    {
      hide GroupStart, LaneSlot, AllKept, Pow2, StartSlot;
      Shape();
      var e := SomeSlotVacant();
      EverySlotProbed(order, Start(key), e);
      var probe := ProbeOf(order, Start(key), e);
      assert !NoneVacant(ctrl[..], slots, Group(key, probe)) by {
        assert ctrl[..][LaneSlot(Group(key, probe), LaneOf(order, Start(key), e), slots)] == Vacant;
      }
      assert t <= probe;
    }

    /** A hit is the key's slot. */
    lemma HitIsSlot(key: Word64, slot: nat)
      requires Valid() && slot < slots && slot < entries.Length && ctrl[slot] != Vacant && entries[slot].0 == key
      ensures key in at && at[key] == slot && Contents()[key] == entries[slot].1
    {
      hide Reached, Pow2;
      assert ctrl[..][slot] != Vacant && entries[..][slot].0 == key;
    }

    /** Without a hit in the next group, the key is not in it. */
    lemma MissedGroup(key: Word64, t: nat)
      requires Valid() && Passed(key, t)
      requires forall lane :: 0 <= lane < WIDTH
                              && ctrl[LaneSlot(Group(key, t), lane, slots)] == Tagged(TagOf(hasher(key))) ==>
                 entries[LaneSlot(Group(key, t), lane, slots)].0 != key
      ensures key in at ==> !InGroup(slots, Start(key), at[key], t)
    {
      hide GroupStart, LaneSlot, Reached, Pow2, StartSlot, TagOf;
      Shape();
      if key in at {
        assert Kept(ctrl[..], entries[..], slots, hasher(key), key, at[key]);
        forall lane | 0 <= lane < WIDTH
          ensures LaneSlot(GroupStart(Start(key), t, slots), lane, slots) != at[key]
        {
          assert ctrl[LaneSlot(Group(key, t), lane, slots)] == Tagged(TagOf(hasher(key))) ==>
              entries[LaneSlot(Group(key, t), lane, slots)].0 != key;
        }
      }
    }

    /** An empty lane ends the walk: a key not met by then is nowhere in the table. */
    lemma AbsentAtEmpty(key: Word64, t: nat)
      requires Valid() && Passed(key, t) && !NoneVacant(ctrl[..], slots, Group(key, t))
      requires key in at ==> !InGroup(slots, Start(key), at[key], t)
      ensures key !in at
    {
      hide GroupStart, LaneSlot, InGroup, NoneVacant, Pow2, StartSlot, TagOf;
      Shape();
    }

    /** The lookup answers exactly as the map does. */
    method Get(key: Word64) returns (r: Option<Word64>)
      requires Valid()
      ensures r == if key in Contents() then Some(Contents()[key]) else None
    {
      hide Valid, Contents, Passed, StartSlot, TagOf, NoneVacant, InGroup, GroupStart, LaneSlot, SevenBit;
      Shape();
      var start, tag := StartSlot(hasher(key), slots), TagOf(hasher(key));
      var probe := new Probe(start);
      ghost var t := 0;
      FirstGroup(key);
      while true
        invariant Valid() && Passed(key, t) && fresh(probe)
        invariant probe.pos == Group(key, t) && probe.stride == WIDTH * t
        decreases Pow2(order) - t
      {
        WalkEnds(key, t);
        var hit := FindInGroup(probe.pos, key, tag);
        if hit.Some? {
          HitIsSlot(key, hit.value);
          InContents(key);
          return Some(entries[hit.value].1);
        }
        MissedGroup(key, t);
        var empty := FirstEmpty(probe.pos);
        if empty.Some? {
          AbsentAtEmpty(key, t);
          InContents(key);
          return None;
        }
        PassedNext(key, t);
        probe.Advance(slots, start, t);
        t := t + 1;
      }
    }

    // ---- Inserting ----

    /** Replaces the value of a key in the map, adds a key that is not, and refuses an absent key
        exactly when the insert budget is spent. */
    method Insert(key: Word64, value: Word64) returns (r: Result<Option<Word64>, TableFull>)
      requires Valid()
      modifies `len, `at, ctrl, entries
      ensures Valid()
      ensures r.Err? <==> key !in old(Contents()) && old(len) == maxLen
      ensures r.Ok? ==> Contents() == old(Contents())[key := value]
                        && r.value == if key in old(Contents()) then Some(old(Contents())[key]) else None
      ensures r.Err? ==> Contents() == old(Contents())
    {
      hide Valid, Contents, Passed, StartSlot, TagOf, NoneVacant, InGroup, GroupStart, LaneSlot, SevenBit;
      Shape();
      var start, tag := StartSlot(hasher(key), slots), TagOf(hasher(key));
      var probe := new Probe(start);
      ghost var t := 0;
      FirstGroup(key);
      while true
        invariant unchanged(this, ctrl, entries) && Mirrored(ctrl[..], slots) && entries.Length == slots
        invariant Valid() && Passed(key, t) && fresh(probe)
        invariant probe.pos == Group(key, t) && probe.stride == WIDTH * t
        decreases Pow2(order) - t
      {
        WalkEnds(key, t);
        InContents(key);
        var hit := FindInGroup(probe.pos, key, tag);
        if hit.Some? {
          HitIsSlot(key, hit.value);
          var previous := Overwrite(key, value, hit.value);
          return Ok(Some(previous));
        }
        MissedGroup(key, t);
        var empty := FirstEmpty(probe.pos);
        if empty.Some? {
          AbsentAtEmpty(key, t);
          WithinBudget();
          if len >= maxLen {
            return Err(TableFull);
          }
          Fill(key, value, tag, probe.pos, empty.value, t);
          return Ok(None);
        }
        PassedNext(key, t);
        probe.Advance(slots, start, t);
        t := t + 1;
      }
    }

    method Overwrite(key: Word64, value: Word64, slot: nat) returns (previous: Word64)
      requires Valid() && slot < slots && key in at && at[key] == slot
      modifies entries
      ensures Valid() && Contents() == old(Contents())[key := value]
      ensures key in old(Contents()) && previous == old(Contents())[key]
    {
      hide Reached, Mirrored, Pow2, StartSlot, TagOf;
      Shape();
      previous := entries[slot].1;
      entries[slot] := (key, value);
    }

    /** Takes the first empty lane of the walk for a key that is not in the table, and keeps the tail a
        copy of the first group. */
    method Fill(key: Word64, value: Word64, tag: bv8, pos: nat, lane: nat, ghost t: nat)
      requires Valid() && key !in at && len < maxLen && tag == TagOf(hasher(key))
      requires Passed(key, t) && pos == Group(key, t) && lane < WIDTH && ctrl[LaneSlot(pos, lane, slots)] == Vacant
      modifies `len, `at, ctrl, entries
      ensures Valid() && Contents() == old(Contents())[key := value]
    {
      hide Reached, NoneVacant, InGroup, Pow2, StartSlot, TagOf, LaneSlot, GroupStart, Mirrored, Filled, SevenBit,
           Group, Indexed, AllKept, Readings;
      Shape();
      var index := (pos + lane) % slots;
      LaneSlotIs(pos, lane, slots);
      ghost var before := ctrl[..];
      FilledFacts(before, slots, index, tag);
      NewReached(key, pos, lane, t, Filled(before, slots, index, tag));
      FillingStores(before, Filled(before, slots, index, tag), entries[..], slots, hasher, at, key, value, index);
      SetTag(index, tag);
      entries[index] := (key, value);
      len := len + 1;
      at := at[key := index];
    }

    method SetTag(index: nat, tag: bv8)
      requires WIDTH <= slots && ctrl.Length == slots + WIDTH && index < slots
      modifies ctrl
      ensures ctrl[..] == Filled(old(ctrl[..]), slots, index, tag)
    {
      ctrl[index] := Tagged(tag);
      if index < WIDTH {
        ctrl[slots + index] := Tagged(tag);
      }
    }

    lemma NewReached(key: Word64, pos: nat, lane: nat, t: nat, filled: seq<Ctrl>)
      requires Mirrored(ctrl[..], slots) && entries.Length == slots && Passed(key, t)
      requires pos == Group(key, t) && lane < WIDTH && Mirrored(filled, slots)
      requires forall s :: 0 <= s < slots && ctrl[s] != Vacant ==> filled[s] != Vacant
      ensures Reached(filled, slots, Start(key), LaneSlot(pos, lane, slots))
    {
      hide StartSlot, LaneSlot, GroupStart, Mirrored;
      MirroredLength(filled, slots);
      MirroredLength(ctrl[..], slots);
      forall u | 0 <= u < t
        ensures NoneVacant(filled, slots, GroupStart(Start(key), u, slots))
      {
        assert NoneVacant(ctrl[..], slots, Group(key, u));
      }
      assert LaneSlot(GroupStart(Start(key), t, slots), lane, slots) == LaneSlot(pos, lane, slots);
      assert ReachedAt(filled, slots, Start(key), LaneSlot(pos, lane, slots), t);
    }

    lemma WithinBudget()
      requires Valid()
      ensures len <= maxLen
    {
      hide AllKept, Indexed, Mirrored, Pow2;
    }

    lemma FirstGroup(key: Word64)
      requires Valid()
      ensures Group(key, 0) == Start(key) && Passed(key, 0)
    {
      Shape();
      QuotientIs(Start(key), slots, 0, Start(key));
    }

    lemma PassedNext(key: Word64, t: nat)
      requires Valid() && Passed(key, t) && NoneVacant(ctrl[..], slots, Group(key, t))
      requires key in at ==> !InGroup(slots, Start(key), at[key], t)
      ensures Passed(key, t + 1)
    {
      hide NoneVacant, InGroup, Group, Start, Mirrored, AllKept, Pow2;
    }

    lemma InContents(key: Word64)
      requires Valid()
      ensures key in Contents() <==> key in at
    {
      hide Pow2, Reached, Mirrored;
    }
  }

  lemma LaneSlotIs(pos: nat, lane: nat, slots: nat)
    requires slots > 0
    ensures LaneSlot(pos, lane, slots) == (pos + lane) % slots
  {
  }

  /** The lowest flagged lane, and the mask without it. */
  lemma LowestFlag(mask: bv64)
    requires mask != 0 && LaneBits(mask)
    ensures InMask(mask, LowestLane(mask)) && LaneBits(ClearLowest(mask))
    ensures forall i :: 0 <= i < WIDTH && InMask(mask, i) ==> LowestLane(mask) <= i
    ensures forall i :: 0 <= i < WIDTH ==> (InMask(ClearLowest(mask), i) <==> InMask(mask, i) && i != LowestLane(mask))
  {
    hide LaneByte, InMask, LaneBits, LowestLane, ClearLowest;
    forall i | 0 <= i < WIDTH
      ensures InMask(mask, LowestLane(mask)) && LaneBits(ClearLowest(mask))
      ensures InMask(mask, i) ==> LowestLane(mask) <= i
      ensures InMask(ClearLowest(mask), i) <==> InMask(mask, i) && i != LowestLane(mask)
    {
      NextLane(mask, i);
    }
  }

  lemma MirroredLength(c: seq<Ctrl>, slots: nat)
    requires Mirrored(c, slots)
    ensures WIDTH <= slots && |c| == slots + WIDTH
  {
  }
}
