/** The group-wise cursor over occupied slots: each live slot once, in ascending order, while
    slots already yielded may be vacated between steps. */
module Cursor {
  import opened Swar
  import opened Controls
  import opened Wrappers

  class OccupiedIndices {
    /** Starts one group before slot zero; the first load wraps it to zero. */
    const START: int := -8
    var currentGroupSlot: int
    var currentMask: bv64
    /** First slot not yet passed. */
    ghost var next: nat

    constructor ()
      ensures next == 0 && forall ctrl: seq<Control>, capacity: nat :: Valid(ctrl, capacity)
    {
      currentGroupSlot, currentMask, next := -8, 0, 0;
      new;
      forall i: nat | i < 8 ensures Walkable(0) && !Flagged(0, i) {
        NothingFlagged(i);
      }
      NothingFlagged(0);
    }

    /** The pending mask holds exactly the live slots of the loaded group that are still to come. */
    ghost predicate Valid(ctrl: seq<Control>, capacity: nat)
      reads this
    {
      && START <= currentGroupSlot && Walkable(currentMask)
      && (if currentGroupSlot < 0 then currentMask == 0 && next == 0 && currentGroupSlot == START
          else currentGroupSlot <= next <= currentGroupSlot + GROUP && currentGroupSlot < capacity)
      && forall i: nat :: i < 8 ==>
           (Flagged(currentMask, i) <==> Pending(ctrl, capacity, currentGroupSlot + i))
    }

    ghost predicate Pending(ctrl: seq<Control>, capacity: nat, s: int)
      reads this
    {
      next <= s < capacity && s < |ctrl| && currentGroupSlot >= 0 && ctrl[s].Full?
    }

    /** Changing slots already passed leaves the cursor valid. */
    lemma StillValid(ctrl: seq<Control>, ctrl': seq<Control>, capacity: nat)
      requires Valid(ctrl, capacity) && |ctrl| == |ctrl'|
      requires forall s :: next <= s < |ctrl| ==> ctrl'[s] == ctrl[s]
      ensures Valid(ctrl', capacity)
    {
      hide Flagged, Walkable;
      forall i: nat | i < 8
        ensures Flagged(currentMask, i) <==> Pending(ctrl', capacity, currentGroupSlot + i)
      {
        assert Pending(ctrl', capacity, currentGroupSlot + i) == Pending(ctrl, capacity, currentGroupSlot + i);
      }
    }

    /** Yields the next live slot of the region that starts at `base`, reading whole groups of a
        padded region and only the remaining controls of an unpadded one. */
    method Step(ctrl: array<Control>, base: nat, capacity: nat, padded: bool) returns (r: Option<nat>)
      requires base <= ctrl.Length && Valid(ctrl[base..], capacity)
      requires if padded then capacity == 0 || base + capacity + GROUP <= ctrl.Length + 1
               else base + capacity <= ctrl.Length
      requires forall s :: 0 <= s < ctrl.Length ==> Proper(ctrl[s])
                                                    && (padded && s >= base + capacity ==> !ctrl[s].Full?)
      modifies this
      ensures Valid(ctrl[base..], capacity)
      ensures r.Some? ==>
                && old(next) <= r.value < capacity && base + r.value < ctrl.Length && ctrl[base + r.value].Full?
                && next == r.value + 1
                && (forall s :: base + old(next) <= s < base + r.value ==> !ctrl[s].Full?)
      ensures r.None? ==> next >= old(next)
      ensures r.None? ==> forall s :: base + old(next) <= s < base + capacity && s < ctrl.Length ==> !ctrl[s].Full?
    {
      hide Flagged, Walkable, LowestLane;
      ghost var region := ctrl[base..];
      assert forall s :: base <= s < ctrl.Length ==> ctrl[s] == region[s - base];
      while true
        invariant Valid(region, capacity) && next >= old(next)
        invariant forall s :: old(next) <= s < next && s < capacity && s < |region| ==> !region[s].Full?
        decreases capacity + GROUP - currentGroupSlot
      {
        if currentMask != 0 {
          var bit := TakeLowest(region, capacity);
          return Some(currentGroupSlot + bit);
        }
        PassGroup(region, capacity);
        var nextGroup := currentGroupSlot + GROUP;
        if nextGroup >= capacity {
          return None;
        }
        var mask;
        if padded {
          mask := LoadGroup(ctrl, base + nextGroup);
        } else {
          mask := LoadPartial(ctrl, base + nextGroup, capacity - nextGroup);
        }
        MaskPending(ctrl[..], base, capacity, nextGroup, mask, padded);
        currentGroupSlot, currentMask, next := nextGroup, mask, nextGroup;
        LoadedValid(region, capacity);
      }
    }

    /** A cursor that has just loaded a group is valid. */
    lemma LoadedValid(ctrl: seq<Control>, capacity: nat)
      requires 0 <= currentGroupSlot == next < capacity && Walkable(currentMask)
      requires forall i: nat :: i < 8 ==>
                 (Flagged(currentMask, i) <==>
                    next + i < capacity && next + i < |ctrl| && ctrl[next + i].Full?)
      ensures Valid(ctrl, capacity)
    {
      hide Flagged, Walkable;
    }

    /** A freshly loaded mask flags the live slots of its group. */
    static lemma MaskPending(ctrl: seq<Control>, base: nat, capacity: nat, group: nat, mask: bv64, padded: bool)
      requires base <= |ctrl| && group < capacity
      requires if padded then base + group + GROUP <= |ctrl| else base + capacity <= |ctrl|
      requires forall s :: base + capacity <= s < base + group + GROUP && s < |ctrl| && padded ==> !ctrl[s].Full?
      requires forall i: nat :: i < 8 ==>
                                  (Flagged(mask, i) <==> (padded || group + i < capacity)
                                                         && ctrl[base + group + i].Full?)
      ensures forall i: nat :: i < 8 ==>
                (Flagged(mask, i) <==> group + i < capacity && group + i < |ctrl[base..]|
                                       && ctrl[base..][group + i].Full?)
    {
      hide Flagged;
    }

    /** With the mask used up, no live slot is left in the loaded group. */
    ghost method PassGroup(ctrl: seq<Control>, capacity: nat)
      requires Valid(ctrl, capacity) && currentMask == 0
      modifies this`next
      ensures Valid(ctrl, capacity)
      ensures currentGroupSlot >= 0 ==> next == currentGroupSlot + GROUP
      ensures currentGroupSlot < 0 ==> next == old(next)
      ensures forall s :: old(next) <= s < next && s < capacity && s < |ctrl| ==> !ctrl[s].Full?
    {
      hide Flagged, Walkable;
      if currentGroupSlot >= 0 {
        forall i: nat | i < 8 ensures !Flagged(currentMask, i) {
          NothingFlagged(i);
        }
        forall s | next <= s < currentGroupSlot + GROUP && s < capacity && s < |ctrl| ensures !ctrl[s].Full? {
          assert !Flagged(currentMask, s - currentGroupSlot);
          assert !Pending(ctrl, capacity, currentGroupSlot + (s - currentGroupSlot));
        }
        next := currentGroupSlot + GROUP;
      }
    }

    /** Clears the lowest pending lane and passes its slot. */
    method TakeLowest(ghost ctrl: seq<Control>, ghost capacity: nat) returns (bit: nat)
      requires Valid(ctrl, capacity) && currentMask != 0
      modifies this
      ensures Valid(ctrl, capacity) && currentGroupSlot == old(currentGroupSlot) >= 0
      ensures bit < 8 && next == currentGroupSlot + bit + 1
      ensures old(next) <= currentGroupSlot + bit < capacity && currentGroupSlot + bit < |ctrl|
              && ctrl[currentGroupSlot + bit].Full?
      ensures forall s :: old(next) <= s < currentGroupSlot + bit ==> s < |ctrl| && !ctrl[s].Full?
    {
      hide Flagged, Walkable, LowestLane, ClearLowest;
      bit := LowestLane(currentMask);
      RestOfMask(currentMask, bit);
      LowestPending(ctrl, capacity, bit);
      ghost var before := currentMask;
      currentMask := ClearLowest(currentMask);
      next := currentGroupSlot + bit + 1;
      forall i: nat | i < 8
        ensures Flagged(currentMask, i) <==> Pending(ctrl, capacity, currentGroupSlot + i)
      {
        assert Flagged(currentMask, i) <==> Flagged(before, i) && i != bit;
      }
    }

    /** The lowest pending lane is the first live slot not yet passed. */
    lemma LowestPending(ctrl: seq<Control>, capacity: nat, bit: nat)
      requires Valid(ctrl, capacity) && bit < 8 && Flagged(currentMask, bit)
      requires forall i: nat :: i < 8 ==> (Flagged(currentMask, i) ==> bit <= i)
      ensures currentGroupSlot >= 0 && Pending(ctrl, capacity, currentGroupSlot + bit)
      ensures forall s :: next <= s < currentGroupSlot + bit ==> s < |ctrl| && !ctrl[s].Full?
    {
      hide Flagged, Walkable;
      assert Pending(ctrl, capacity, currentGroupSlot + bit);
      forall s | next <= s < currentGroupSlot + bit ensures s < |ctrl| && !ctrl[s].Full? {
        var i := s - currentGroupSlot;
        assert !Flagged(currentMask, i);
        assert !Pending(ctrl, capacity, currentGroupSlot + i);
      }
    }
  }

  /** The mask left after taking the lowest lane. */
  lemma RestOfMask(mask: bv64, bit: nat)
    requires Walkable(mask) && mask != 0 && bit == LowestLane(mask)
    ensures Walkable(ClearLowest(mask)) && bit < 8 && Flagged(mask, bit)
    ensures forall i: nat :: i < 8 ==> (Flagged(ClearLowest(mask), i) <==> Flagged(mask, i) && i != bit)
    ensures forall i: nat :: i < 8 ==> (Flagged(mask, i) ==> bit <= i)
  {
    hide Flagged, Walkable, LowestLane, ClearLowest;
    NextFlagged(mask, 0);
    forall i: nat | i < 8
      ensures Flagged(ClearLowest(mask), i) <==> Flagged(mask, i) && i != bit
      ensures Flagged(mask, i) ==> bit <= i
    {
      NextFlagged(mask, i);
    }
  }

  /** Occupied lanes of one full group. */
  method LoadGroup(ctrl: array<Control>, start: nat) returns (mask: bv64)
    requires start + GROUP <= ctrl.Length && forall s :: 0 <= s < ctrl.Length ==> Proper(ctrl[s])
    ensures Walkable(mask) && forall i: nat :: i < 8 ==> (Flagged(mask, i) <==> ctrl[start + i].Full?)
  {
    hide Flagged, Walkable, WordOf, OccupiedMask, InMask, LaneBits, FreeMask, EqMask;
    var g := ctrl[start..start + GROUP];
    mask := OccupiedMask(WordOf(g));
    forall i: nat | i < 8 ensures Walkable(mask) && (Flagged(mask, i) <==> ctrl[start + i].Full?) {
      GroupMasks(g, Empty, i);
      HighMaskFlags(mask, i);
    }
    GroupMasks(g, Empty, 0);
    HighMaskFlags(mask, 0);
  }

  /** Occupied lanes of a group that may be partial: scalar reads of what remains. */
  method LoadPartial(ctrl: array<Control>, start: nat, remaining: nat) returns (mask: bv64)
    requires start + remaining <= ctrl.Length && forall s :: 0 <= s < ctrl.Length ==> Proper(ctrl[s])
    ensures Walkable(mask)
    ensures forall i: nat :: i < 8 ==> (Flagged(mask, i) <==> i < remaining && ctrl[start + i].Full?)
  {
    hide Flagged, LowBit;
    if remaining >= GROUP {
      mask := LoadGroup(ctrl, start);
      return;
    }
    mask := 0;
    forall i: nat | i < 8 ensures !Flagged(0, i) {
      NothingFlagged(i);
    }
    var index := 0;
    while index < remaining
      invariant index <= remaining && mask & ONES == mask
      invariant forall i: nat :: i < 8 ==> (Flagged(mask, i) <==> i < index && ctrl[start + i].Full?)
    {
      if !IsFree(ctrl[start + index]) {
        forall i: nat | i < 8
          ensures (mask | LowBit(index)) & ONES == mask | LowBit(index)
          ensures Flagged(mask | LowBit(index), i) <==> Flagged(mask, i) || i == index
        {
          SetLowBit(mask, index, i);
        }
        SetLowBit(mask, index, 0);
        ghost var before := mask;
        mask := mask | LowBit(index);
        forall i: nat | i < 8 ensures Flagged(mask, i) <==> i < index + 1 && ctrl[start + i].Full? {
          assert Flagged(mask, i) <==> Flagged(before, i) || i == index;
        }
      }
      index := index + 1;
    }
  }
}
