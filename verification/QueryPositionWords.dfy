/** The constant-time position encoder: word operations against the bit-string code. */
module QueryPositionWords {
  import opened Arith
  import opened Wrappers
  import opened QueryPosition
  import opened Words

  /** Number of significant digits: the width less the leading zeros. */
  function Len(v: bv64): nat
    decreases v
  {
    if v == 0 then 0 else HalfLess(v); 1 + Len(Half(v))
  }

  lemma {:induction false} LenIsBitLen(v: bv64)
    ensures Len(v) == BitLen(Val(v)) && (v != 0 ==> Val(v) > 0)
    decreases Val(v)
  {
    hide Half, Low, Val;
    if v == 0 {
      ValZero();
    } else {
      ValStep(v);
      LenIsBitLen(Half(v));
    }
  }

  /** `spread_low_16`: moves bit `k` of a 16-bit word to bit `2k`. No bit leaves the low half of the
      word, so the 32-bit steps are modelled at 64 bits. */
  function SpreadLow16(value: bv64): bv64
  {
    var a := (value | (value << 8)) & 0x00ff_00ff;
    var b := (a | (a << 4)) & 0x0f0f_0f0f;
    var c := (b | (b << 2)) & 0x3333_3333;
    (c | (c << 1)) & 0x5555_5555
  }

  /** Spreading works digit by digit. */
  lemma SpreadStep(v: bv64)
    requires v < 0x10000
    ensures SpreadLow16(v) == ((SpreadLow16(v >> 1) << 2) | (v & 1))
  {
  }

  /** `leading_zeros` arithmetic on words. */
  function LenWord(v: bv64): bv7
    decreases v
  {
    if v == 0 then 0 else 1 + LenWord(v >> 1)
  }

  lemma {:induction false} LenWordBound(v: bv64, k: bv7)
    requires k <= 63 && v < (1 << k)
    ensures LenWord(v) <= k
    decreases k
  {
    if v != 0 {
      assert k != 0 && (v >> 1) < (1 << (k - 1));
      LenWordBound(v >> 1, k - 1);
    }
  }

  /** The low 32-bit mask of `pairs` two-digit pairs. */
  function PairMask(pairs: bv7): bv64
    requires pairs <= 16
  {
    0xaaaa_aaaa & ((1 << (2 * pairs)) - 1)
  }

  lemma PairMaskStep(l: bv7)
    requires l <= 15
    ensures PairMask(l + 1) == ((PairMask(l) << 2) | 2)
  {
  }

  /** Marker-and-bit pairs of a 16-bit word. */
  function PairsWord(j: bv64): bv64
    requires j < 0x10000 && LenWord(j) <= 16
  {
    SpreadLow16(j) | PairMask(LenWord(j))
  }

  lemma PairsWordStep(j: bv64)
    requires 0 < j < 0x10000
    ensures LenWord(j) <= 16 && LenWord(j >> 1) <= 16 && (j >> 1) < 0x10000
    ensures PairsWord(j) == ((PairsWord(j >> 1) << 2) | 2 | (j & 1))
  {
    hide SpreadLow16, PairMask, LenWord;
    HalfSmall(j);
    LenWordBound(j, 16);
    LenWordBound(j >> 1, 15);
    LenWordStep(j);
    PairMaskStep(LenWord(j >> 1));
    SpreadStep(j);
    JoinStep(SpreadLow16(j >> 1), PairMask(LenWord(j >> 1)), j & 1);
  }

  lemma HalfSmall(j: bv64)
    requires j < 0x10000
    ensures j < (1 << 16) && (j >> 1) < (1 << 15) && (j >> 1) < 0x10000
  {
  }

  lemma JoinStep(s: bv64, m: bv64, b: bv64)
    ensures ((s << 2) | b) | ((m << 2) | 2) == (((s | m) << 2) | 2 | b)
  {
  }

  lemma PairShape(p: bv64, b: bv64)
    requires p < 0x4000_0000_0000_0000 && b <= 1
    ensures var w := (p << 2) | 2 | b;
            w != 0 && w >> 1 != 0 && (w >> 1) >> 1 == p && w & 1 == b && (w >> 1) & 1 == 1
  {
  }

  lemma ValOfPair(p: bv64, b: bv64)
    requires p < 0x4000_0000_0000_0000 && b <= 1
    ensures Val((p << 2) | 2 | b) == 4 * Val(p) + 2 + Low(b)
  {
    hide Val;
    PairShape(p, b);
    var w := (p << 2) | 2 | b;
    ValShift(w);
    ValShift(w >> 1);
    assert b & 1 == b;
  }

  lemma LowBitSmall(j: bv64)
    ensures j & 1 <= 1 && Low(j & 1) == Low(j)
  {
    assert (j & 1) & 1 == j & 1;
  }

  lemma PairsDigit(v: nat, half: nat, bit: nat)
    requires v == 2 * half + bit && bit <= 1 && v > 0
    ensures Pairs(v) == 4 * Pairs(half) + 2 + bit
  {
    assert v / 2 == half && v % 2 == bit;
  }

  lemma PairsWordStepValue(j: bv64)
    requires 0 < j < 0x10000 && LenWord(j >> 1) <= 16 && (j >> 1) < 0x10000
    requires PairsWord(j >> 1) < 0x1_0000_0000 && Val(PairsWord(j >> 1)) == Pairs(Val(j >> 1))
    ensures LenWord(j) <= 16 && Val(PairsWord(j)) == Pairs(Val(j))
  {
    hide PairsWord, Val, LenWord, Pairs, Low;
    PairsWordStep(j);
    LowBitSmall(j);
    ValOfPair(PairsWord(j >> 1), j & 1);
    ValShift(j);
    PairsDigit(Val(j), Val(j >> 1), Low(j));
  }

  /** The pair word stands for the marked bits. */
  lemma {:induction false} PairsWordIsPairs(j: bv64)
    requires j < 0x10000
    ensures LenWord(j) <= 16 && PairsWord(j) < 0x1_0000_0000
    ensures Val(PairsWord(j)) == Pairs(Val(j))
    decreases j
  {
    hide SpreadLow16, PairMask, PairsWord;
    if j == 0 {
      PairsWordZero();
    } else {
      assert (j >> 1) < j;
      PairsWordIsPairs(j >> 1);
      PairsWordStepValue(j);
      PairsWordSmall(j);
    }
  }

  lemma PairsWordZero()
    ensures LenWord(0) == 0 && PairsWord(0) == 0
  {
    assert PairMask(0) == 0;
  }

  lemma PairsWordSmall(j: bv64)
    requires j < 0x10000 && LenWord(j) <= 16
    ensures PairsWord(j) < 0x1_0000_0000
  {
  }

  lemma WidthStep(p: bv64, b: bv64, l: bv7)
    requires l <= 15 && p < (1 << (2 * l)) && b <= 1
    ensures ((p << 2) | 2 | b) < (1 << (2 * (l + 1)))
  {
  }

  lemma {:induction false} PairsWordWidth(j: bv64)
    requires j < 0x10000
    ensures LenWord(j) <= 16 && PairsWord(j) < (1 << (2 * LenWord(j)))
    decreases j
  {
    hide SpreadLow16, PairMask, PairsWord;
    if j == 0 {
      PairsWordZero();
    } else {
      assert (j >> 1) < j;
      PairsWordWidth(j >> 1);
      PairsWordStep(j);
      LowBitSmall(j);
      LenWordBound(j >> 1, 15);
      WidthStep(PairsWord(j >> 1), j & 1, LenWord(j >> 1));
    }
  }

  // ---- Joining the prefix and the plain bits ----

  function Up(p: bv64, k: bv7): bv64
    requires k <= 64
  {
    p << k
  }

  function Twice(p: bv64): bv64
  {
    p << 1
  }

  function Together(p: bv64, i: bv64): bv64
  {
    p | i
  }

  /** A prefix, the delimiter 0, then `i`'s `l` digits. */
  function Joined(p: bv64, i: bv64, l: bv7): bv64
    requires l <= 32
  {
    Together(Up(p, l + 1), i)
  }

  predicate Room(p: bv64, l: bv7)
  {
    l <= 32 && p <= (0xffff_ffff_ffff_ffff >> (l + 1))
  }

  lemma RoomLess(p: bv64, l: bv7)
    requires l >= 1 && Room(p, l)
    ensures Room(p, l - 1)
  {
  }

  lemma JoinLow(p: bv64, i: bv64, l: bv7)
    requires i != 0 && l <= 32
    ensures Joined(p, i, l) != 0 && Low(Joined(p, i, l)) == Low(i)
  {
  }

  lemma UpOnce(p: bv64, l: bv7)
    requires l <= 32
    ensures Up(p, l + 1) == Twice(Up(p, l))
  {
  }

  lemma UpSmall(p: bv64, l: bv7)
    requires Room(p, l)
    ensures Up(p, l) <= 0x7fff_ffff_ffff_ffff
  {
  }

  lemma HalfTogether(q: bv64, i: bv64)
    requires q <= 0x7fff_ffff_ffff_ffff
    ensures Half(Together(Twice(q), i)) == Together(q, Half(i))
  {
  }

  lemma JoinHalf(p: bv64, i: bv64, l: bv7)
    requires 1 <= l <= 32 && Room(p, l)
    ensures Half(Joined(p, i, l)) == Joined(p, Half(i), l - 1)
  {
    hide Up, Twice, Together, Half, Room;
    UpOnce(p, l);
    UpSmall(p, l);
    HalfTogether(Up(p, l), i);
  }

  lemma DoubleShape(p: bv64)
    requires p <= 0x7fff_ffff_ffff_ffff
    ensures (p << 1) >> 1 == p && (p << 1) & 1 == 0 && (p << 1 == 0 <==> p == 0)
  {
  }

  lemma ValDouble(p: bv64)
    requires p <= 0x7fff_ffff_ffff_ffff
    ensures Val(p << 1) == 2 * Val(p)
  {
    DoubleShape(p);
    if p != 0 {
      ValShift(p << 1);
    }
  }

  /** Joining shifts the prefix past the delimiter and `i`'s digits, then adds those digits. */
  lemma {:induction false} JoinValue(p: bv64, i: bv64, l: bv7)
    requires l == LenWord(i) <= 32 && Room(p, l)
    ensures Val(Joined(p, i, l)) == 2 * Val(p) * Pow2(Len(i)) + Val(i)
    decreases i
  {
    hide Val, Pow2, Joined, Low, Len, Room;
    if i == 0 {
      JoinZero(p);
    } else {
      LenWordStep(i);
      RoomLess(p, l);
      JoinLow(p, i, l);
      JoinHalf(p, i, l);
      JoinValue(p, i >> 1, l - 1);
      JoinStepValue(p, i, Joined(p, i, l));
    }
  }

  lemma JoinStepValue(p: bv64, i: bv64, w: bv64)
    requires i != 0 && w != 0 && Low(w) == Low(i) && Len(i) == Len(i >> 1) + 1
    requires Val(w >> 1) == 2 * Val(p) * Pow2(Len(i >> 1)) + Val(i >> 1)
    ensures Val(w) == 2 * Val(p) * Pow2(Len(i)) + Val(i)
  {
    hide Val, Len;
    ValShift(w);
    ValShift(i);
    TwiceProduct(2 * Val(p), Pow2(Len(i >> 1)));
  }

  lemma LenWordStep(i: bv64)
    requires i != 0 && LenWord(i) <= 32
    ensures LenWord(i) >= 1 && LenWord(i >> 1) == LenWord(i) - 1 && Len(i) == Len(i >> 1) + 1 && (i >> 1) < i
  {
    assert (i >> 1) < (1 << 63);
    LenWordBound(i >> 1, 63);
  }

  lemma JoinZero(p: bv64)
    requires Room(p, 0)
    ensures LenWord(0) == 0 && Val(Joined(p, 0, 0)) == 2 * Val(p) * Pow2(Len(0)) + Val(0)
  {
    hide Joined, Room;
    JoinedZero(p);
    ValDouble(p);
    assert Pow2(Len(0)) == 1 && Val(0) == 0;
  }

  lemma JoinedZero(p: bv64)
    requires Room(p, 0)
    ensures Joined(p, 0, 0) == p << 1 && p <= 0x7fff_ffff_ffff_ffff
  {
  }

  lemma {:induction false} LenWordReaches(v: bv64, k: bv7)
    requires k <= 62 && (1 << k) <= v < 0x1_0000_0000
    ensures LenWord(v) >= k + 1
    decreases k
  {
    assert (v >> 1) < (1 << 31) && (v >> 1) < v;
    LenWordBound(v >> 1, 31);
    if k != 0 {
      assert (1 << (k - 1)) <= v >> 1;
      LenWordReaches(v >> 1, k - 1);
    }
  }

  // ---- The encoder ----

  /** `elastic_phi_bounded` on a 32-bit level and a 64-bit probe. */
  function ElasticPhiBounded(i: bv64, j: bv64): (r: Option<bv64>)
    requires i < 0x1_0000_0000
  {
    if i == 0 || j == 0 || j >= 0x10000 then None
    else
      LenWordBound(j, 16);
      LenWordBound(i, 32);
      if 2 * LenWord(j) + 1 + LenWord(i) > 64 then None
      else Some(Joined(PairsWord(j), i, LenWord(i)))
  }

  lemma WidthFits(p: bv64, a: bv7, b: bv7)
    requires a <= 16 && b <= 32 && 2 * a + 1 + b <= 64 && p < (1 << (2 * a))
    ensures Room(p, b)
  {
  }

  /** Wherever the bounded encoder answers, its word is the query position. */
  lemma BoundedIsPhi(i: bv64, j: bv64)
    requires i < 0x1_0000_0000 && ElasticPhiBounded(i, j).Some?
    ensures Val(ElasticPhiBounded(i, j).value) == QueryPosition.Phi(Val(i), Val(j))
  {
    hide Val, Phi, PairsWord, Joined, Room, Len;
    LenWordBound(j, 16);
    LenWordBound(i, 32);
    LenIsBitLen(i);
    LenIsBitLen(j);
    PhiClosed(Val(i), Val(j));
    PairsWordWidth(j);
    WidthFits(PairsWord(j), LenWord(j), LenWord(i));
    JoinValue(PairsWord(j), i, LenWord(i));
    PairsWordIsPairs(j);
  }

  /** It declines exactly zero coordinates, probes past 16 bits, and the one corner whose position
      needs 65 bits. */
  lemma BoundedDeclines(i: bv64, j: bv64)
    requires i < 0x1_0000_0000
    ensures ElasticPhiBounded(i, j).None? <==>
              i == 0 || j == 0 || j >= 0x10000 || (j >= 0x8000 && i >= 0x8000_0000)
  {
    if i != 0 && j != 0 && j < 0x10000 {
      LenWordBound(j, 16);
      LenWordBound(i, 32);
      if j < 0x8000 { LenWordBound(j, 15); } else { LenWordReaches(j, 15); }
      if i < 0x8000_0000 { LenWordBound(i, 31); } else { LenWordReaches(i, 31); }
    }
  }
}
