/** Eight control bytes per 64-bit word: the portable SWAR masks, exact in every lane, and the
    lane extraction that walks a mask. */
module Swar {
  const LO7: bv64 := 0x7f7f_7f7f_7f7f_7f7f
  const HI: bv64 := 0x8080_8080_8080_8080
  const ONES: bv64 := 0x0101_0101_0101_0101

  /** Byte lane `i` of a word, lane zero lowest. */
  function LaneByte(word: bv64, i: nat): bv8
    requires i < 8
  {
    match i
    case 0 => (word & 0xff) as bv8
    case 1 => ((word >> 8) & 0xff) as bv8
    case 2 => ((word >> 16) & 0xff) as bv8
    case 3 => ((word >> 24) & 0xff) as bv8
    case 4 => ((word >> 32) & 0xff) as bv8
    case 5 => ((word >> 40) & 0xff) as bv8
    case 6 => ((word >> 48) & 0xff) as bv8
    case _ => ((word >> 56) & 0xff) as bv8
  }

  /** Little-endian load of eight bytes. */
  function Load(b: seq<bv8>): bv64
    requires |b| == 8
  {
    (b[0] as bv64) | (b[1] as bv64 << 8) | (b[2] as bv64 << 16) | (b[3] as bv64 << 24)
    | (b[4] as bv64 << 32) | (b[5] as bv64 << 40) | (b[6] as bv64 << 48) | (b[7] as bv64 << 56)
  }

  lemma LoadLanes(b: seq<bv8>, i: nat)
    requires |b| == 8 && i < 8
    ensures LaneByte(Load(b), i) == b[i]
  {
    if i == 0 {} else if i == 1 {} else if i == 2 {} else if i == 3 {}
    else if i == 4 {} else if i == 5 {} else if i == 6 {} else {}
  }

  function EqMask(word: bv64, target: bv8): bv64
  {
    ZeroMask(word ^ Spread(target))
  }

  function Spread(target: bv8): bv64
  {
    target as bv64 * ONES
  }

  /** `0x80` in each zero lane of a comparison word. */
  function ZeroMask(cmp: bv64): bv64
  {
    var ne := (((cmp & LO7) + LO7) | cmp) & HI;
    ne ^ HI
  }

  function OccupiedMask(word: bv64): bv64
  {
    ((word & LO7) + LO7) & HI
  }

  function FreeMask(word: bv64): bv64
  {
    OccupiedMask(word) ^ HI
  }

  /** Masks carry nothing but the high bit of each lane. */
  predicate LaneBits(mask: bv64)
  {
    mask & HI == mask
  }

  predicate InMask(mask: bv64, i: nat)
    requires i < 8
  {
    LaneByte(mask, i) & 0x80 == 0x80
  }

  // ---- Lane algebra ----

  lemma OrLanes(a: bv64, b: bv64, i: nat)
    requires i < 8
    ensures InMask(a | b, i) <==> InMask(a, i) || InMask(b, i)
    ensures LaneBits(a) && LaneBits(b) ==> LaneBits(a | b)
  {
    if i == 0 {} else if i == 1 {} else if i == 2 {} else if i == 3 {}
    else if i == 4 {} else if i == 5 {} else if i == 6 {} else {}
  }

  lemma FlipLanes(a: bv64, i: nat)
    requires i < 8 && LaneBits(a)
    ensures LaneBits(a ^ HI) && (InMask(a ^ HI, i) <==> !InMask(a, i))
  {
    if i == 0 {} else if i == 1 {} else if i == 2 {} else if i == 3 {}
    else if i == 4 {} else if i == 5 {} else if i == 6 {} else {}
  }

  /** Lanes compare independently: a lane of the difference is zero exactly where two words agree. */
  lemma XorLane(a: bv64, b: bv64, i: nat)
    requires i < 8
    ensures LaneByte(a ^ b, i) == LaneByte(a, i) ^ LaneByte(b, i)
  {
    match i
    case 0 => assert ((a ^ b) & 0xff) as bv8 == (a & 0xff) as bv8 ^ (b & 0xff) as bv8;
    case 1 => assert (((a ^ b) >> 8) & 0xff) as bv8 == ((a >> 8) & 0xff) as bv8 ^ ((b >> 8) & 0xff) as bv8;
    case 2 => assert (((a ^ b) >> 16) & 0xff) as bv8 == ((a >> 16) & 0xff) as bv8 ^ ((b >> 16) & 0xff) as bv8;
    case 3 => assert (((a ^ b) >> 24) & 0xff) as bv8 == ((a >> 24) & 0xff) as bv8 ^ ((b >> 24) & 0xff) as bv8;
    case 4 => assert (((a ^ b) >> 32) & 0xff) as bv8 == ((a >> 32) & 0xff) as bv8 ^ ((b >> 32) & 0xff) as bv8;
    case 5 => assert (((a ^ b) >> 40) & 0xff) as bv8 == ((a >> 40) & 0xff) as bv8 ^ ((b >> 40) & 0xff) as bv8;
    case 6 => assert (((a ^ b) >> 48) & 0xff) as bv8 == ((a >> 48) & 0xff) as bv8 ^ ((b >> 48) & 0xff) as bv8;
    case _ => assert (((a ^ b) >> 56) & 0xff) as bv8 == ((a >> 56) & 0xff) as bv8 ^ ((b >> 56) & 0xff) as bv8;
  }

  lemma AgreeingLane(a: bv64, b: bv64, i: nat)
    requires i < 8
    ensures LaneByte(a ^ b, i) & 0x7f == 0 && LaneByte(a ^ b, i) & 0x80 != 0x80 <==> LaneByte(a, i) == LaneByte(b, i)
  {
    hide LaneByte;
    XorLane(a, b, i);
    ByteIsZero(LaneByte(a, i), LaneByte(b, i));
  }

  /** Multiplying by `ONES` copies a byte into every lane. */
  lemma Broadcast(target: bv8, i: nat)
    requires i < 8
    ensures LaneByte(Spread(target), i) == target
  {
    var t := target as bv64;
    assert t * ONES == t | (t << 8) | (t << 16) | (t << 24) | (t << 32) | (t << 40) | (t << 48) | (t << 56);
  }

  // ---- Exactness ----

  /** No carry crosses a lane: each mask flags exactly the lanes whose byte satisfies its
      predicate, for every word. */
  lemma OccupiedMaskExact(word: bv64, i: nat)
    requires i < 8
    ensures LaneBits(OccupiedMask(word)) && LaneBits(FreeMask(word))
    ensures InMask(OccupiedMask(word), i) <==> LaneByte(word, i) & 0x7f != 0
    ensures InMask(FreeMask(word), i) <==> LaneByte(word, i) & 0x7f == 0
  {
    if i == 0 {} else if i == 1 {} else if i == 2 {} else if i == 3 {}
    else if i == 4 {} else if i == 5 {} else if i == 6 {} else {}
  }

  lemma ByteIsZero(a: bv8, b: bv8)
    ensures a == b <==> (a ^ b) & 0x7f == 0 && (a ^ b) & 0x80 != 0x80
  {
  }

  lemma HighBits(cmp: bv64, i: nat)
    requires i < 8
    ensures LaneBits(cmp & HI) && (InMask(cmp & HI, i) <==> InMask(cmp, i))
    ensures (((cmp & LO7) + LO7) | cmp) & HI == OccupiedMask(cmp) | (cmp & HI)
  {
  }

  lemma ZeroMaskExact(cmp: bv64, i: nat)
    requires i < 8
    ensures LaneBits(ZeroMask(cmp))
    ensures InMask(ZeroMask(cmp), i) <==> LaneByte(cmp, i) & 0x7f == 0 && LaneByte(cmp, i) & 0x80 != 0x80
  {
    hide OccupiedMask, LaneByte, LaneBits;
    OccupiedMaskExact(cmp, i);
    HighBits(cmp, i);
    OrLanes(OccupiedMask(cmp), cmp & HI, i);
    FlipLanes(OccupiedMask(cmp) | (cmp & HI), i);
  }

  lemma ZeroOfDifference(a: bv64, b: bv64, i: nat)
    requires i < 8
    ensures LaneBits(ZeroMask(a ^ b))
    ensures InMask(ZeroMask(a ^ b), i) <==> LaneByte(a, i) == LaneByte(b, i)
  {
    hide *;
    ZeroMaskExact(a ^ b, i);
    AgreeingLane(a, b, i);
  }

  /** Exact against every target, so matching EMPTY never flags a tombstone or a fingerprint. */
  lemma EqMaskExact(word: bv64, target: bv8, i: nat)
    requires i < 8
    ensures LaneBits(EqMask(word, target))
    ensures InMask(EqMask(word, target), i) <==> LaneByte(word, i) == target
  {
    hide Spread, LaneByte, ZeroMask, LaneBits, InMask;
    Broadcast(target, i);
    ZeroOfDifference(word, Spread(target), i);
  }

  // ---- Walking a mask ----

  /** Lane of the lowest set bit (`trailing_zeros / 8`). */
  function LowestLane(mask: bv64): (i: nat)
    requires mask != 0
    ensures i < 8
  {
    if mask & 0xff != 0 then 0
    else if mask & 0xff00 != 0 then 1
    else if mask & 0xff_0000 != 0 then 2
    else if mask & 0xff00_0000 != 0 then 3
    else if mask & 0xff_0000_0000 != 0 then 4
    else if mask & 0xff00_0000_0000 != 0 then 5
    else if mask & 0xff_0000_0000_0000 != 0 then 6
    else 7
  }

  /** Clearing the lowest set bit removes exactly the lowest flagged lane. */
  lemma NextLane(mask: bv64, i: nat)
    requires mask != 0 && LaneBits(mask) && i < 8
    ensures InMask(mask, LowestLane(mask)) && (InMask(mask, i) ==> LowestLane(mask) <= i)
    ensures LaneBits(ClearLowest(mask))
    ensures InMask(ClearLowest(mask), i) <==> InMask(mask, i) && i != LowestLane(mask)
  {
    if i == 0 {} else if i == 1 {} else if i == 2 {} else if i == 3 {}
    else if i == 4 {} else if i == 5 {} else if i == 6 {} else {}
  }

  lemma EmptyMask(i: nat)
    requires i < 8
    ensures !InMask(0, i)
  {
    if i == 0 {} else if i == 1 {} else if i == 2 {} else if i == 3 {}
    else if i == 4 {} else if i == 5 {} else if i == 6 {} else {}
  }

  // ---- Masks with one bit per lane, high or low ----

  /** The mask without its lowest set bit. */
  function ClearLowest(mask: bv64): bv64
  {
    mask & (mask - 1)
  }

  /** A group mask flags a lane with its high bit, a partial-group mask with its low bit. */
  predicate Walkable(mask: bv64)
  {
    mask & HI == mask || mask & ONES == mask
  }

  predicate Flagged(mask: bv64, i: nat)
    requires i < 8
  {
    LaneByte(mask, i) != 0
  }

  lemma NextFlagged(mask: bv64, i: nat)
    requires mask != 0 && Walkable(mask) && i < 8
    ensures Flagged(mask, LowestLane(mask)) && (Flagged(mask, i) ==> LowestLane(mask) <= i)
    ensures Walkable(ClearLowest(mask))
    ensures Flagged(ClearLowest(mask), i) <==> Flagged(mask, i) && i != LowestLane(mask)
  {
    if i == 0 {} else if i == 1 {} else if i == 2 {} else if i == 3 {}
    else if i == 4 {} else if i == 5 {} else if i == 6 {} else {}
  }

  lemma HighMaskFlags(mask: bv64, i: nat)
    requires LaneBits(mask) && i < 8
    ensures Walkable(mask) && (Flagged(mask, i) <==> InMask(mask, i))
  {
    if i == 0 {} else if i == 1 {} else if i == 2 {} else if i == 3 {}
    else if i == 4 {} else if i == 5 {} else if i == 6 {} else {}
  }

  lemma NothingFlagged(i: nat)
    requires i < 8
    ensures Walkable(0) && !Flagged(0, i)
  {
    if i == 0 {} else if i == 1 {} else if i == 2 {} else if i == 3 {}
    else if i == 4 {} else if i == 5 {} else if i == 6 {} else {}
  }

  /** `1 << (lane * 8)`: the low bit of a lane. */
  function LowBit(lane: nat): bv64
    requires lane < 8
  {
    match lane
    case 0 => 0x01
    case 1 => 0x0100
    case 2 => 0x01_0000
    case 3 => 0x0100_0000
    case 4 => 0x01_0000_0000
    case 5 => 0x0100_0000_0000
    case 6 => 0x01_0000_0000_0000
    case _ => 0x0100_0000_0000_0000
  }

  lemma SetLowBit(mask: bv64, lane: nat, i: nat)
    requires lane < 8 && i < 8 && mask & ONES == mask
    ensures (mask | LowBit(lane)) & ONES == mask | LowBit(lane)
    ensures Flagged(mask | LowBit(lane), i) <==> Flagged(mask, i) || i == lane
  {
    if i == 0 {} else if i == 1 {} else if i == 2 {} else if i == 3 {}
    else if i == 4 {} else if i == 5 {} else if i == 6 {} else {}
  }
}
