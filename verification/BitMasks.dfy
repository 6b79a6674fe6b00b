/** Stepping through a match mask on the groups whose masks are not one flag in an eight-bit lane: sixteen
    lanes at one bit each, and eight lanes at a whole byte each. */
module BitMasks {
  import opened Wrappers
  import opened Words
  import opened Swar
  import opened FilterWords

  /** `trailing_zeros` of a non-zero word. */
  function TrailingZeros(mask: bv64): nat
    requires mask != 0
    decreases mask
  {
    if Low(mask) == 1 then 0 else EvenHalf(mask); 1 + TrailingZeros(Half(mask))
  }

  lemma EvenHalf(mask: bv64)
    requires mask != 0 && Low(mask) != 1
    ensures Half(mask) != 0 && Half(mask) < mask
  {
  }

  lemma OddDrop(mask: bv64)
    requires Low(mask) == 1
    ensures Half(ClearLowest(mask)) == Half(mask) && Low(ClearLowest(mask)) == 0
  {
  }

  lemma EvenDrop(mask: bv64)
    requires mask != 0 && Low(mask) != 1
    ensures Half(mask) != 0 && Half(ClearLowest(mask)) == ClearLowest(Half(mask)) && Low(ClearLowest(mask)) == 0
  {
  }

  /** Digits one place up: a word's are its half's, moved, and its low one. */
  lemma DigitsOfHalf(v: bv64, k: nat)
    ensures k in Digits(v) <==> if k == 0 then Low(v) == 1 else k - 1 in Digits(Half(v))
  {
    hide Half, Low;
    if k > 0 {
      DownAdds(v, 1, k - 1);
      assert Down(v, 1) == Half(v);
      if k == 64 {
        Down64(v);
        LowZero();
      }
    }
  }

  /** The lowest digit of a non-zero word, and the word without it. */
  lemma {:induction false} LowestDigit(mask: bv64)
    requires mask != 0
    ensures TrailingZeros(mask) in Digits(mask) && forall k :: k in Digits(mask) ==> TrailingZeros(mask) <= k
    ensures Digits(ClearLowest(mask)) == Digits(mask) - {TrailingZeros(mask)}
    decreases Val(mask)
  {
    hide Half, Low, Digits, ClearLowest, Val;
    var half, rest := Half(mask), ClearLowest(mask);
    if Low(mask) == 1 {
      OddDrop(mask);
      forall k: nat ensures k in Digits(rest) <==> k in Digits(mask) && k != 0 {
        DigitsOfHalf(mask, k);
        DigitsOfHalf(rest, k);
      }
      DigitsOfHalf(mask, 0);
    } else {
      EvenDrop(mask);
      ValStep(mask);
      LowestDigit(half);
      forall k: nat
        ensures k in Digits(mask) <==> k > 0 && k - 1 in Digits(half)
        ensures k in Digits(rest) <==> k > 0 && k - 1 in Digits(ClearLowest(half))
      {
        DigitsOfHalf(mask, k);
        DigitsOfHalf(rest, k);
      }
    }
  }

  lemma NoDigits(mask: bv64)
    ensures mask == 0 <==> Digits(mask) == {}
  {
    hide Digits, ClearLowest;
    if mask != 0 {
      LowestDigit(mask);
    } else {
      ZeroDigits();
    }
  }

  lemma ZeroDigits()
    ensures Digits(0) == {}
  {
    hide Low, Half;
    forall k: nat ensures Low(Down(0, k)) == 0 {
      DownZero(k);
      LowZero();
    }
  }

  lemma {:induction false} DownZero(k: nat)
    ensures Down(0, k) == 0
    decreases k
  {
    hide Half;
    HalfZero();
    if k > 0 {
      DownZero(k - 1);
    }
  }

  // ---- One bit per lane ----

  /** A match mask that flags lane `k` by bit `k`, stepped through lowest first. */
  class BitMask {
    var word: bv64

    constructor (mask: bv64)
      ensures word == mask
    {
      word := mask;
    }

    /** The lanes still flagged. */
    ghost function Lanes(): set<nat>
      reads this
    {
      Digits(word)
    }

    /** Yields the lowest flagged lane and clears it, until none is flagged. */
    method Next() returns (r: Option<nat>)
      modifies this
      ensures r.None? <==> old(Lanes()) == {}
      ensures r.Some? ==> r.value in old(Lanes()) && (forall k :: k in old(Lanes()) ==> r.value <= k)
      ensures Lanes() == if r.Some? then old(Lanes()) - {r.value} else {}
    {
      hide Digits, ClearLowest;
      NoDigits(word);
      if word == 0 {
        return None;
      }
      LowestDigit(word);
      r := Some(TrailingZeros(word));
      word := ClearLowest(word);
    }

    /** The lowest flagged lane, if it lies below `limit`. */
    method FirstBelow(limit: nat) returns (r: Option<nat>)
      ensures r.None? <==> forall k :: k in Lanes() ==> k >= limit
      ensures r.Some? ==> r.value in Lanes() && r.value < limit && forall k :: k in Lanes() ==> r.value <= k
    {
      hide Digits, ClearLowest;
      NoDigits(word);
      if word == 0 {
        return None;
      }
      LowestDigit(word);
      var slot := TrailingZeros(word);
      assert slot in Lanes();
      return if slot < limit then Some(slot) else None;
    }

    /** Flags a lane, as a partial group's scalar reads do. */
    method Flag(lane: bv64)
      requires Six(lane)
      modifies this
      ensures Lanes() == old(Lanes()) + {Val(lane)}
    {
      hide Digits, OneHot, ShiftedOne, Val, Six;
      SmallVal(lane);
      ShiftIsOneHot(lane, Val(lane));
      OneHotDigits(Val(lane));
      DigitsJoin(word, ShiftedOne(lane));
      word := Join(word, ShiftedOne(lane));
    }
  }

  // ---- A whole byte per lane ----

  /** Every flagged lane has its lowest bit set, as a full byte or a lone low bit has. */
  predicate LowLed(mask: bv64)
  {
    && (mask & 0xff == 0 || mask & 0x01 != 0)
    && (mask & 0xff00 == 0 || mask & 0x0100 != 0)
    && (mask & 0xff_0000 == 0 || mask & 0x01_0000 != 0)
    && (mask & 0xff00_0000 == 0 || mask & 0x0100_0000 != 0)
    && (mask & 0xff_0000_0000 == 0 || mask & 0x01_0000_0000 != 0)
    && (mask & 0xff00_0000_0000 == 0 || mask & 0x0100_0000_0000 != 0)
    && (mask & 0xff_0000_0000_0000 == 0 || mask & 0x01_0000_0000_0000 != 0)
    && (mask & 0xff00_0000_0000_0000 == 0 || mask & 0x0100_0000_0000_0000 != 0)
  }

  lemma SkipBit(mask: bv64)
    requires mask != 0 && Low(mask) != 1
    ensures Half(mask) != 0 && TrailingZeros(mask) == 1 + TrailingZeros(Half(mask))
  {
    hide Half, Low;
    EvenHalf(mask);
  }

  lemma LowByteClear(mask: bv64)
    requires mask & 0xff == 0 && mask != 0
    ensures Low(mask) == 0 && Low(mask >> 1) == 0 && Low(mask >> 2) == 0 && Low(mask >> 3) == 0
    ensures Low(mask >> 4) == 0 && Low(mask >> 5) == 0 && Low(mask >> 6) == 0 && Low(mask >> 7) == 0
    ensures mask >> 7 != 0
  {
  }

  lemma HalvesAre(mask: bv64)
    ensures Half(mask) == mask >> 1 && Half(mask >> 1) == mask >> 2 && Half(mask >> 2) == mask >> 3
    ensures Half(mask >> 3) == mask >> 4 && Half(mask >> 4) == mask >> 5 && Half(mask >> 5) == mask >> 6
    ensures Half(mask >> 6) == mask >> 7 && Half(mask >> 7) == mask >> 8
  {
  }

  lemma SkipByte(mask: bv64)
    requires mask & 0xff == 0 && mask != 0
    ensures mask >> 8 != 0 && TrailingZeros(mask) == 8 + TrailingZeros(mask >> 8)
  {
    hide Half, Low, TrailingZeros;
    LowByteClear(mask);
    HalvesAre(mask);
    SkipBit(mask);
    SkipBit(mask >> 1);
    SkipBit(mask >> 2);
    SkipBit(mask >> 3);
    SkipBit(mask >> 4);
    SkipBit(mask >> 5);
    SkipBit(mask >> 6);
    SkipBit(mask >> 7);
  }

  lemma ShiftLane(mask: bv64)
    requires mask & 0xff == 0 && mask != 0
    ensures mask >> 8 != 0 && LowestLane(mask) == 1 + LowestLane(mask >> 8)
    ensures LowLed(mask) ==> LowLed(mask >> 8)
  {
  }

  /** A word with something in its low byte has a digit below eight. */
  lemma ByteDigit(mask: bv64)
    requires mask & 0xff != 0
    ensures mask != 0 && LowestLane(mask) == 0 && TrailingZeros(mask) < 8
  {
    hide Digits, ClearLowest, TrailingZeros;
    assert mask != 0;
    NoDigits(Meet(mask, 0xff));
    DigitsJoin(mask, 0xff);
    var k :| k in Digits(Meet(mask, 0xff));
    DigitOfByte(k);
    LowestDigit(mask);
  }

  lemma DigitOfByte(k: nat)
    requires k in Digits(0xff)
    ensures k < 8
  {
    hide Low, Half, Down;
    if k >= 8 {
      Down8(0xff);
      ByteShifted();
      DownAdds(0xff, 8, k - 8);
      DownZero(k - 8);
      LowZero();
    }
  }

  lemma ByteShifted()
    ensures Shr(0xff, 8) == 0
  {
  }

  /** At stride eight, `trailing_zeros / 8` is the lowest flagged lane, however the lane is flagged. */
  lemma {:induction false} LaneOfTrailing(mask: bv64)
    requires mask != 0
    ensures TrailingZeros(mask) / 8 == LowestLane(mask)
    decreases LowestLane(mask)
  {
    hide LowLed, LowestLane;
    if mask & 0xff != 0 {
      ByteDigit(mask);
    } else {
      SkipByte(mask);
      ShiftLane(mask);
      LaneOfTrailing(mask >> 8);
    }
  }

  lemma LowBitLeads(mask: bv64)
    requires mask & 0xff != 0 && LowLed(mask)
    ensures mask != 0 && Low(mask) == 1 && LowestLane(mask) == 0
  {
  }

  /** The trailing zeros of such a mask lead to the lowest bit of its lowest flagged lane. */
  lemma {:induction false} TrailingLane(mask: bv64, lane: nat)
    requires mask != 0 && LowLed(mask) && lane == LowestLane(mask)
    ensures TrailingZeros(mask) == 8 * lane
    decreases lane
  {
    hide LowLed, LowestLane;
    if mask & 0xff != 0 {
      LowBitLeads(mask);
    } else {
      SkipByte(mask);
      ShiftLane(mask);
      TrailingLane(mask >> 8, lane - 1);
    }
  }

  /** `0xff << bit` at a lane's lowest bit. */
  function ByteAt(lane: nat): bv64
    requires lane < 8
  {
    match lane
    case 0 => 0xff
    case 1 => 0xff00
    case 2 => 0xff_0000
    case 3 => 0xff00_0000
    case 4 => 0xff_0000_0000
    case 5 => 0xff00_0000_0000
    case 6 => 0xff_0000_0000_0000
    case _ => 0xff00_0000_0000_0000
  }

  /** The mask without the byte its trailing zeros lead to. */
  function ClearByte(mask: bv64): bv64
    requires mask != 0
  {
    mask & !ByteAt(LowestLane(mask))
  }

  /** Clearing that byte removes exactly the lowest flagged lane. */
  lemma NextByte(mask: bv64, i: nat)
    requires mask != 0 && LowLed(mask) && i < 8
    ensures TrailingZeros(mask) / 8 == LowestLane(mask) && TrailingZeros(mask) % 8 == 0
    ensures Flagged(mask, LowestLane(mask)) && (Flagged(mask, i) ==> LowestLane(mask) <= i)
    ensures LowLed(ClearByte(mask)) && (Flagged(ClearByte(mask), i) <==> Flagged(mask, i) && i != LowestLane(mask))
  {
    hide LowLed, LowestLane, ClearByte, Flagged, TrailingZeros;
    TrailingLane(mask, LowestLane(mask));
    ByteCleared(mask, i);
    StillLed(mask);
  }

  lemma ByteCleared(mask: bv64, i: nat)
    requires mask != 0 && i < 8
    ensures Flagged(mask, LowestLane(mask)) && (Flagged(mask, i) ==> LowestLane(mask) <= i)
    ensures Flagged(ClearByte(mask), i) <==> Flagged(mask, i) && i != LowestLane(mask)
  {
    if i == 0 {} else if i == 1 {} else if i == 2 {} else if i == 3 {}
    else if i == 4 {} else if i == 5 {} else if i == 6 {} else {}
  }

  lemma StillLed(mask: bv64)
    requires mask != 0 && LowLed(mask)
    ensures LowLed(ClearByte(mask))
  {
  }
}
