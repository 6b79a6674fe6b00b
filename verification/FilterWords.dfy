/** The filter's words as the tables keep them: a word's digits as a set, so that the gate on words is the
    gate on sets. */
module FilterWords {
  import opened Arith
  import opened Controls
  import opened Membership
  import opened Words
  import opened Counters
  import opened HashRouting
  import opened QueryPositionWords

  /** The digits a word has set. */
  function Digits(w: bv64): set<nat>
  {
    set k: nat | k < 64 && Low(Down(w, k)) == 1
  }

  /** The word with one digit set. */
  function OneHot(n: nat): bv64
  {
    if n == 0 then 1 else Twice(OneHot(n - 1))
  }

  // ---- Digit by digit ----

  function Join(v: bv64, w: bv64): bv64
  {
    v | w
  }

  function Meet(v: bv64, w: bv64): bv64
  {
    v & w
  }

  lemma HalfJoins(v: bv64, w: bv64)
    ensures Half(Join(v, w)) == Join(Half(v), Half(w)) && Half(Meet(v, w)) == Meet(Half(v), Half(w))
  {
  }

  lemma LowJoins(v: bv64, w: bv64)
    ensures Low(Join(v, w)) == 1 <==> Low(v) == 1 || Low(w) == 1
    ensures Low(Meet(v, w)) == 1 <==> Low(v) == 1 && Low(w) == 1
  {
  }

  lemma {:induction false} DownJoins(v: bv64, w: bv64, k: nat)
    ensures Down(Join(v, w), k) == Join(Down(v, k), Down(w, k)) && Down(Meet(v, w), k) == Meet(Down(v, k), Down(w, k))
    decreases k
  {
    hide Half, Join, Meet;
    if k > 0 {
      DownJoins(v, w, k - 1);
      HalfJoins(Down(v, k - 1), Down(w, k - 1));
    }
  }

  /** Disjunction and conjunction of words are union and intersection of their digits. */
  lemma DigitsJoin(v: bv64, w: bv64)
    ensures Digits(Join(v, w)) == Digits(v) + Digits(w) && Digits(Meet(v, w)) == Digits(v) * Digits(w)
  {
    hide Low, Down, Join, Meet;
    forall k: nat
      ensures Low(Down(Join(v, w), k)) == 1 <==> Low(Down(v, k)) == 1 || Low(Down(w, k)) == 1
      ensures Low(Down(Meet(v, w), k)) == 1 <==> Low(Down(v, k)) == 1 && Low(Down(w, k)) == 1
    {
      DownJoins(v, w, k);
      LowJoins(Down(v, k), Down(w, k));
    }
  }

  lemma {:induction false} SameFrom(v: bv64, w: bv64, n: nat)
    requires n <= 64 && Digits(v) == Digits(w) && Down(v, n) == Down(w, n)
    ensures v == w
    decreases n
  {
    hide Low, Half;
    if n > 0 {
      var k := n - 1;
      assert k in Digits(v) <==> k in Digits(w);
      SameWord(Down(v, k), Down(w, k));
      SameFrom(v, w, k);
    }
  }

  /** A word is determined by its digits. */
  lemma DigitsDetermine(v: bv64, w: bv64)
    requires Digits(v) == Digits(w)
    ensures v == w
  {
    hide Low, Down, Digits;
    Down64(v);
    Down64(w);
    SameFrom(v, w, 64);
  }

  // ---- The gate ----

  lemma PassesIsMeet(word: bv64, bits: bv64)
    ensures Passes(word, bits) <==> Meet(word, bits) == bits
  {
  }

  /** The gate on words passes exactly when the key's digits are among the word's. */
  lemma PassesIsSubset(word: bv64, bits: bv64)
    ensures Passes(word, bits) <==> Digits(bits) <= Digits(word)
  {
    hide Digits, Meet;
    PassesIsMeet(word, bits);
    DigitsJoin(word, bits);
    if Digits(bits) <= Digits(word) {
      assert Digits(word) * Digits(bits) == Digits(bits);
      DigitsDetermine(Meet(word, bits), bits);
    }
  }

  // ---- One digit ----

  predicate TopFree(p: bv64)
  {
    p <= 0x7fff_ffff_ffff_ffff
  }

  lemma DoubleVal(p: bv64)
    requires TopFree(p)
    ensures Val(Twice(p)) == 2 * Val(p) && Half(Twice(p)) == p && Low(Twice(p)) == 0
  {
    hide Val;
    DoubleShape(p);
    ValDouble(p);
  }

  lemma TopFreeIs(p: bv64)
    requires 2 * Val(p) < USIZE_LIMIT
    ensures TopFree(p)
  {
    hide Val, Down;
    ValRange(p);
    TopClear(p);
  }

  lemma {:induction false} OneHotVal(n: nat)
    requires n < 64
    ensures Val(OneHot(n)) == Pow2(n) && (n < 63 ==> TopFree(OneHot(n)))
    decreases n
  {
    hide Val, TopFree, Twice;
    if n == 0 {
      ValOne();
    } else {
      OneHotVal(n - 1);
      DoubleVal(OneHot(n - 1));
    }
    if n < 63 {
      Pow2Of64();
      Pow2Grows(n + 1, 63);
      HalfOfLimit();
      TopFreeIs(OneHot(n));
    }
  }

  lemma OneHotHalf(n: nat)
    requires n < 64
    ensures Half(OneHot(n)) == (if n == 0 then 0 else OneHot(n - 1)) && Low(OneHot(n)) == if n == 0 then 1 else 0
  {
    hide Val, TopFree, Twice, Half, Low;
    OneHotZero();
    if n > 0 {
      OneHotVal(n - 1);
      DoubleVal(OneHot(n - 1));
    }
  }

  lemma OneHotZero()
    ensures OneHot(0) == 1 && Half(1) == 0 && Low(1) == 1
  {
  }

  lemma {:induction false} DownOneHot(n: nat, k: nat)
    requires n < 64
    ensures Down(OneHot(n), k) == if k <= n then OneHot(n - k) else 0
    decreases k
  {
    hide Half, OneHot;
    if k > 0 {
      DownOneHot(n, k - 1);
      HalfZero();
      if k - 1 <= n {
        OneHotHalf(n - (k - 1));
      }
    }
  }

  lemma OneHotDigits(n: nat)
    requires n < 64
    ensures Digits(OneHot(n)) == {n}
  {
    hide Down, Low, OneHot;
    forall k: nat | k < 64 ensures Low(Down(OneHot(n), k)) == 1 <==> k == n {
      DownOneHot(n, k);
      if k <= n {
        OneHotHalf(n - k);
      } else {
        LowZero();
      }
    }
  }

  // ---- Shifted ones ----

  lemma EvenSucc(s: bv64)
    requires Low(s) == 0
    ensures Half(s + 1) == Half(s) && Low(s + 1) == 1 && s + 1 != 0
  {
  }

  lemma OddSucc(s: bv64)
    requires Low(s) == 1 && s != 0xffff_ffff_ffff_ffff
    ensures Half(s + 1) == Half(s) + 1 && Low(s + 1) == 0 && s + 1 != 0 && s != 0 && Half(s) != 0xffff_ffff_ffff_ffff
  {
  }

  lemma {:induction false} ValSucc(s: bv64)
    requires s != 0xffff_ffff_ffff_ffff
    ensures Val(s + 1) == Val(s) + 1
    decreases Val(s)
  {
    hide Val, Half, Low;
    if Low(s) == 0 {
      EvenSucc(s);
      ValStep(s + 1);
      ValSplit(s);
    } else {
      OddSucc(s);
      ValStep(s + 1);
      ValStep(s);
      ValSucc(Half(s));
    }
  }

  lemma ValSplit(s: bv64)
    ensures Val(s) == 2 * Val(Half(s)) + Low(s)
  {
    hide Half, Low;
    if s == 0 {
      HalfZero();
      LowZero();
    }
  }

  predicate Six(s: bv64)
  {
    s <= 63
  }

  function ShiftedOne(s: bv64): bv64
    requires Six(s)
  {
    (1 as bv64) << s as bv7
  }

  function Prev(s: bv64): bv64
  {
    s - 1
  }

  lemma ShiftPrev(s: bv64)
    requires s != 0 && Six(s)
    ensures Six(Prev(s)) && ShiftedOne(s) == Twice(ShiftedOne(Prev(s)))
  {
  }

  lemma ValPrev(s: bv64)
    requires s != 0
    ensures Val(s) == Val(Prev(s)) + 1
  {
    hide Val;
    ValSucc(s - 1);
  }

  lemma ShiftZero()
    ensures ShiftedOne(0) == 1
  {
  }

  /** Shifting a one by a six-bit number sets the digit of that number. */
  lemma {:induction false} ShiftIsOneHot(s: bv64, n: nat)
    requires Six(s) && n == Val(s)
    ensures ShiftedOne(s) == OneHot(n)
    decreases n
  {
    hide ShiftedOne, Val, Prev, Six, Twice;
    if s == 0 {
      ShiftZero();
      ValZero();
    } else {
      ValPrev(s);
      ShiftPrev(s);
      ShiftIsOneHot(Prev(s), n - 1);
    }
  }

  lemma SixBitsSmall(v: bv64)
    ensures Six(v & 63) && SixBits(v) == Val(v & 63) < 64
  {
    hide Val, Six;
    MaskSmall(v);
    SmallVal(v & 63);
  }

  lemma MaskSmall(v: bv64)
    ensures Six(v & 63)
  {
  }

  lemma SmallVal(s: bv64)
    requires Six(s)
    ensures Val(s) < 64
  {
    hide Val, Six, Down;
    DownSix(s);
    ValDown(s, 6);
    ValZero();
    assert Pow2(6) == 64;
  }

  lemma DownSix(s: bv64)
    requires Six(s)
    ensures Down(s, 6) == 0
  {
    assert Down(s, 1) == s >> 1;
    assert Down(s, 2) == (s >> 1) >> 1;
    assert Down(s, 3) == ((s >> 1) >> 1) >> 1;
    assert Down(s, 4) == (((s >> 1) >> 1) >> 1) >> 1;
    assert Down(s, 5) == ((((s >> 1) >> 1) >> 1) >> 1) >> 1;
    assert Down(s, 6) == (((((s >> 1) >> 1) >> 1) >> 1) >> 1) >> 1;
  }

  /** The digit one six-bit field sets. */
  lemma FieldDigit(v: bv64)
    ensures Six(v & 63) && Digits(ShiftedOne(v & 63)) == {SixBits(v)}
  {
    hide Digits, OneHot, Val, SixBits, Six, ShiftedOne;
    SixBitsSmall(v);
    ShiftIsOneHot(v & 63, Val(v & 63));
    OneHotDigits(Val(v & 63));
  }

  // ---- The two filters ----

  lemma TwoBitsIs(signature: bv64)
    ensures Six(signature & 63) && Six((signature >> 32) & 63)
    ensures TwoBits(signature) == Join(ShiftedOne(signature & 63), ShiftedOne((signature >> 32) & 63))
  {
  }

  lemma ThreeBitsIs(signature: bv64)
    ensures Six((signature >> 16) & 63)
    ensures ThreeBits(signature) == Join(TwoBits(signature), ShiftedOne((signature >> 16) & 63))
  {
  }

  /** The bits of a membership key are the fields of its signature. */
  lemma KeyDigits(signature: bv64)
    ensures Digits(TwoBits(signature)) == TwoFields(signature) && Digits(ThreeBits(signature)) == ThreeFields(signature)
  {
    hide Digits, TwoBits, ThreeBits, Join, SixBits, ShiftedOne, Six;
    TwoBitsIs(signature);
    ThreeBitsIs(signature);
    FieldDigit(signature);
    FieldDigit(signature >> 32);
    FieldDigit(signature >> 16);
    DigitsJoin(ShiftedOne(signature & 63), ShiftedOne((signature >> 32) & 63));
    DigitsJoin(TwoBits(signature), ShiftedOne((signature >> 16) & 63));
  }

  /** A 64-bit membership word and a key's bits behave as the sets of the table proofs: the gate on words
      is inclusion of the key's filter bits, and recording adds exactly those. */
  lemma WordsAreSets(word: bv64, bins: seq<set<nat>>, bits: bv64, fs: FilterSlot, bit: nat)
    requires fs.bits == Digits(bits) && fs.bin < |bins|
    ensures Passes(word, bits) <==> fs.bits <= Digits(word)
    ensures RecordWord(MetadataWord(Digits(word), bins), fs, bit).membership == Digits(word | bits)
  {
    hide Digits, Passes;
    PassesIsSubset(word, bits);
    DigitsJoin(word, bits);
  }

  lemma FunnelSlotBits(hash: Word, words: nat)
    ensures FunnelFilterSlot(hash, words).bits == Digits(TwoBits(hash.bits)) && FunnelFilterSlot(hash, words).bin < 4
  {
    hide Digits, TwoBits, WordIndex, TwoFields;
    KeyDigits(hash.bits);
  }

  lemma ElasticSlotBits(hash: Word, words: nat)
    ensures ElasticFilterSlot(hash, words).bits == Digits(ThreeBits(ElasticKey(hash.bits)))
            && ElasticFilterSlot(hash, words).bin < 4
  {
    hide Digits, ThreeBits, WordIndex, ElasticKey, ThreeFields;
    KeyDigits(ElasticKey(hash.bits));
  }

  /** Funnel's filter on words is its filter on sets. */
  lemma FunnelFilterWords(word: bv64, bins: seq<set<nat>>, hash: Word, words: nat, bit: nat)
    requires |bins| == 4
    ensures var fs, bits := FunnelFilterSlot(hash, words), TwoBits(hash.bits);
            && (Passes(word, bits) <==> fs.bits <= Digits(word))
            && RecordWord(MetadataWord(Digits(word), bins), fs, bit).membership == Digits(word | bits)
  {
    hide Digits, TwoBits, Passes, RecordWord, FunnelFilterSlot;
    FunnelSlotBits(hash, words);
    WordsAreSets(word, bins, TwoBits(hash.bits), FunnelFilterSlot(hash, words), bit);
  }

  /** Elastic's filter on words is its filter on sets. */
  lemma ElasticFilterWords(word: bv64, bins: seq<set<nat>>, hash: Word, words: nat, bit: nat)
    requires |bins| == 4
    ensures var fs, bits := ElasticFilterSlot(hash, words), ThreeBits(ElasticKey(hash.bits));
            && (Passes(word, bits) <==> fs.bits <= Digits(word))
            && RecordWord(MetadataWord(Digits(word), bins), fs, bit).membership == Digits(word | bits)
  {
    hide Digits, ThreeBits, Passes, RecordWord, ElasticKey, ElasticFilterSlot;
    ElasticSlotBits(hash, words);
    WordsAreSets(word, bins, ThreeBits(ElasticKey(hash.bits)), ElasticFilterSlot(hash, words), bit);
  }
}
