/** Probe words worked out in full: the fixed vectors the repository's tests pin, the two probes of one key
    that an example run of the Elastic table starts from, and one key's filter slot in each backend. */
module GoldenWords {
  import opened Arith
  import opened Wrappers
  import opened Words
  import opened Counters
  import opened Controls
  import opened Membership
  import HashRouting

  /** The number of a word's lowest eight digits. */
  function Octet(v: bv64): nat
  {
    LowByte(v) as nat
  }

  function LowByte(v: bv64): bv8
  {
    (v & 0xff) as bv8
  }

  function Bit(b: bv8, k: bv4): nat
    requires k < 8
  {
    if (b >> k) & 1 == 1 then 1 else 0
  }

  lemma BitsOfByte(b: bv8)
    ensures b as nat == Bit(b, 0) + 2 * Bit(b, 1) + 4 * Bit(b, 2) + 8 * Bit(b, 3)
                        + 16 * Bit(b, 4) + 32 * Bit(b, 5) + 64 * Bit(b, 6) + 128 * Bit(b, 7)
  {
  }

  lemma BitsAgree(v: bv64)
    ensures Bit(LowByte(v), 0) == Low(Shr(v, 0)) && Bit(LowByte(v), 1) == Low(Shr(v, 1))
    ensures Bit(LowByte(v), 2) == Low(Shr(v, 2)) && Bit(LowByte(v), 3) == Low(Shr(v, 3))
    ensures Bit(LowByte(v), 4) == Low(Shr(v, 4)) && Bit(LowByte(v), 5) == Low(Shr(v, 5))
    ensures Bit(LowByte(v), 6) == Low(Shr(v, 6)) && Bit(LowByte(v), 7) == Low(Shr(v, 7))
  {
  }

  lemma ValNext(v: bv64, k: bv7)
    requires k < 8
    ensures Val(Shr(v, k)) == 2 * Val(Shr(v, k + 1)) + Low(Shr(v, k))
  {
    hide Val, Low, Half, Shr;
    HalfShr(v, k);
    if Shr(v, k) == 0 {
      ValZero();
      HalfZero();
      LowZero();
    } else {
      ValStep(Shr(v, k));
    }
  }

  lemma ValOctet(v: bv64)
    ensures Val(v) == 256 * Val(Shr(v, 8)) + Octet(v)
  {
    hide Val, Low, Shr, Bit, LowByte;
    ShrZero(v);
    BitsOfByte(LowByte(v));
    BitsAgree(v);
    ValNext(v, 0);
    ValNext(v, 1);
    ValNext(v, 2);
    ValNext(v, 3);
    ValNext(v, 4);
    ValNext(v, 5);
    ValNext(v, 6);
    ValNext(v, 7);
  }

  lemma ShiftsByEight(v: bv64)
    ensures Shr(Shr(v, 16), 8) == Shr(v, 24) && Shr(Shr(v, 32), 8) == Shr(v, 40)
  {
  }

  lemma ShiftsToTop(v: bv64)
    ensures Shr(Shr(v, 24), 8) == Shr(v, 32) && Shr(Shr(v, 40), 8) == Shr(v, 48)
  {
  }

  lemma ShiftedOut(v: bv64)
    ensures Shr(Shr(v, 56), 8) == 0
  {
  }

  /** The number of eight octets, the highest first. */
  function Number(o7: nat, o6: nat, o5: nat, o4: nat, o3: nat, o2: nat, o1: nat, o0: nat): nat
  {
    o0 + 0x100 * (o1 + 0x100 * (o2 + 0x100 * (o3 + 0x100 * (o4 + 0x100 * (o5 + 0x100 * (o6 + 0x100 * o7))))))
  }

  /** A word's number, octet by octet. */
  function Octets(v: bv64): nat
  {
    Number(((v >> 56) & 0xff) as bv8 as nat, ((v >> 48) & 0xff) as bv8 as nat,
           ((v >> 40) & 0xff) as bv8 as nat, ((v >> 32) & 0xff) as bv8 as nat,
           ((v >> 24) & 0xff) as bv8 as nat, ((v >> 16) & 0xff) as bv8 as nat,
           ((v >> 8) & 0xff) as bv8 as nat, (v & 0xff) as bv8 as nat)
  }

  lemma OctetsApart(v: bv64)
    ensures Octets(v) == Number(Octet(Shr(v, 56)), Octet(Shr(v, 48)), Octet(Shr(v, 40)), Octet(Shr(v, 32)),
                                Octet(Shr(v, 24)), Octet(Shr(v, 16)), Octet(Shr(v, 8)), Octet(v))
  {
    hide Number;
  }

  lemma ValIsOctets(v: bv64)
    ensures Val(v) == Octets(v)
  {
    hide Val, Octet, Shr, Octets;
    OctetsApart(v);
    ShiftsAdd(v);
    ShiftsByEight(v);
    ShiftsToTop(v);
    ShiftsTo63(v);
    ShiftedOut(v);
    ValZero();
    ValOctet(v);
    ValOctet(Shr(v, 8));
    ValOctet(Shr(v, 16));
    ValOctet(Shr(v, 24));
    ValOctet(Shr(v, 32));
    ValOctet(Shr(v, 40));
    ValOctet(Shr(v, 48));
    ValOctet(Shr(v, 56));
  }

  /** A product of known words. */
  lemma ProductIs(v: bv64, c: nat, w: bv64)
    requires Octets(v) * c % USIZE_LIMIT == Octets(w)
    ensures WrappingMul(v, c) == w
  {
    hide Val, Octets, FromNat;
    ValIsOctets(v);
    ValIsOctets(w);
    ValRange(w);
    ValOfFromNat(Val(w));
    ValInjective(FromNat(Val(w)), w);
  }

  /** `mix64` of a known word, from the product of each of its two multiplications. */
  lemma MixIs(x: bv64, a: bv64, b: bv64, c: bv64, d: bv64, w: bv64)
    requires Fold30(x) == a && Octets(a) * MIX_FIRST % USIZE_LIMIT == Octets(b) && Fold27(b) == c
    requires Octets(c) * MIX_SECOND % USIZE_LIMIT == Octets(d) && Fold31(d) == w
    ensures Mix64(x) == w
  {
    hide WrappingMul, Octets, Fold30, Fold27, Fold31;
    ProductIs(a, MIX_FIRST, b);
    ProductIs(c, MIX_SECOND, d);
  }

  // ---- The fixed vectors ----

  /** The seed the vectors are taken under. */
  const VECTOR_SEED: bv64 := 0x1234_5678_9abc_def0

  /** The Elastic word of a hash and a packed counter under that seed. */
  function ElasticVector(hash: bv64, counter: bv64): bv64
  {
    KeyedWord(counter, hash + VECTOR_SEED + INITIAL_LANE, hash + VECTOR_SEED + INITIAL_LANE)
  }

  lemma ElasticFirstVector()
    ensures PackElastic(0, 0, 0) == Some(0) && ElasticVector(0, 0) == 0xa672_f2f4_5fc9_0bed
  {
    hide Mix64;
    MixIs(0xb06b_d032_1a07_5b05, 0xb06b_d030_dba8_1bcd, 0x5a70_ddd8_4bee_7825,
          0x5a70_ddd3_05f5_c32c, 0x1619_22c6_69fc_1564, 0x1619_22c6_45ce_50e8);
  }

  lemma ElasticSecondVector()
    ensures PackElastic(31, 8191, 7) == Some(0x1f_ffff) && ElasticVector(1, 0x1f_ffff) == 0x728c_b5c3_2967_b861
  {
    hide Mix64;
    MixIs(0xb06b_d032_1a18_a4f9, 0xb06b_d030_dbb7_e431, 0x401e_b473_dea7_bc69,
          0x401e_b47b_dd71_3212, 0xc2e7_65f0_b6ae_2886, 0xc2e7_65f1_3360_e367);
  }

  lemma ElasticThirdVector()
    ensures PackElastic(17, 383, 7) == Some(0x11_0bff)
            && ElasticVector(0xffff_ffff_ffff_ffff, 0x11_0bff) == 0x3472_0d88_ba17_9868
  {
    hide Mix64;
    MixIs(0xb06b_d032_1a16_50fb, 0xb06b_d030_dbb9_1033, 0x3283_212a_55a6_53db,
          0x3283_212c_05c2_7691, 0x8419_ddbb_a823_781b, 0x8419_ddba_a010_c36c);
  }

  lemma ElasticFourthVector()
    ensures PackElastic(7, 7687, 0) == Some(0x7_f038)
            && ElasticVector(0xd1b5_4a32_d192_ed03, 0x7_f038) == 0x8778_e64f_a636_f5ca
  {
    hide Mix64;
    MixIs(0x8221_1a64_eb9d_b830, 0x8221_1a66_e319_d1a3, 0xf32d_aad3_bf5b_4dcb,
          0xf32d_aacd_daee_17bc, 0x559_fc2b_471f_4594, 0x559_fc2b_4dac_bdc2);
  }

  /** Counters and words of the Elastic permutation are the pinned ones. */
  lemma ElasticVectors()
    ensures PackElastic(0, 0, 0) == Some(0) && ElasticVector(0, 0) == 0xa672_f2f4_5fc9_0bed
    ensures PackElastic(31, 8191, 7) == Some(0x1f_ffff) && ElasticVector(1, 0x1f_ffff) == 0x728c_b5c3_2967_b861
    ensures PackElastic(17, 383, 7) == Some(0x11_0bff)
            && ElasticVector(0xffff_ffff_ffff_ffff, 0x11_0bff) == 0x3472_0d88_ba17_9868
    ensures PackElastic(7, 7687, 0) == Some(0x7_f038)
            && ElasticVector(0xd1b5_4a32_d192_ed03, 0x7_f038) == 0x8778_e64f_a636_f5ca
  {
    hide PackElastic, ElasticVector;
    ElasticFirstVector();
    ElasticSecondVector();
    ElasticThirdVector();
    ElasticFourthVector();
  }

  lemma FunnelFirstVector()
    ensures PackFunnel(FunnelOrdinary(0), 0, 0) == Some(0) && FunnelWord(0, VECTOR_SEED, 0) == 0xef8_0bc3_2b4b_4b8b
  {
    hide Mix64;
    MixIs(0x9dec_a20c_30eb_8bb9, 0x9dec_a20e_4759_0389, 0x3076_aa23_5181_1b01,
          0x3076_aa25_5f54_5f6b, 0xca3c_6407_5144_b239, 0xca3c_6406_c53c_7a37);
    MixIs(0x3f69_e445_4529_5795, 0x3f69_e445_b88e_c680, 0x64d8_55d8_e0bd_f280,
          0x64d8_55d4_7bb7_499c, 0xc4c4_6fc4_67ff_ee34, 0xc4c4_6fc5_ee77_31bc);
  }

  lemma FunnelSecondVector()
    ensures PackFunnel(FunnelOrdinary(0x3fff_ffff_ffff), 255, 255) == Some(0x3fff_ffff_ffff_ffff)
            && FunnelWord(1, VECTOR_SEED, 0x3fff_ffff_ffff_ffff) == 0xe12e_db4c_7253_f889
  {
    hide Mix64;
    MixIs(0x9dec_a20c_30eb_8bba, 0x9dec_a20e_4759_038a, 0xefce_f190_6e66_00ba,
          0xefce_f18d_97b8_32b7, 0xfa12_14bf_cb7b_b4fd, 0xfa12_14be_3f5f_9d82);
    MixIs(0x96_1bba_bad6_a869, 0x96_1bba_b88e_c683, 0xf9a4_e8ad_376c_a3ab,
          0xf9a4_e8b2_03f1_b60d, 0x1b3c_cff2_7b75_faef, 0x1b3c_cff2_4d0c_650b);
  }

  lemma FunnelThirdVector()
    ensures PackFunnel(SpecialPrimary, 255, 255) == Some(0x4000_0000_0000_ffff)
            && FunnelWord(0xffff_ffff_ffff_ffff, VECTOR_SEED, 0x4000_0000_0000_ffff) == 0x381_edbb_81aa_baf9
  {
    hide Mix64;
    MixIs(0x9dec_a20c_30eb_8bb8, 0x9dec_a20e_4759_0388, 0x711e_62b6_349c_3548,
          0x711e_62b8_1750_638e, 0x59e6_7d0a_5595_d15a, 0x59e6_7d0a_e659_2b4e);
    MixIs(0x7f69_e445_4529_a86b, 0x7f69_e444_b88e_397e, 0x69eb_c85b_946d_420e,
          0x69eb_c856_a914_497c, 0x5a67_90b1_d33c_b0d4, 0x5a67_90b1_67f3_91b7);
  }

  lemma FunnelFourthVector()
    ensures PackFunnel(SpecialFallbackA, 7, 1) == Some(0x8000_0000_0000_0701)
            && FunnelWord(0xd1b5_4a32_d192_ed03, VECTOR_SEED, 0x8000_0000_0000_0701) == 0xaae3_de68_9f97_85e8
  {
    hide Mix64;
    MixIs(0x6fa1_ec3f_027e_78bc, 0x6fa1_ec3e_bcf9_c840, 0x1bc7_7bff_59a2_f640,
          0x1bc7_7bfc_214d_89ab, 0x57eb_02a0_c30c_baf9, 0x57eb_02a0_6cda_bfb8);
    MixIs(0x911f_2e78_16bc_4399, 0x911f_2e7a_52c0_fa79, 0xac55_0635_bd47_3e71,
          0xac55_0620_37e7_f8c6, 0xfd08_dcc9_095c_83c2, 0xfd08_dcc8_f34d_3a50);
  }

  lemma FunnelFifthVector()
    ensures PackFunnel(SpecialFallbackB, 0, 0) == Some(0xc000_0000_0000_0000)
            && FunnelWord(0x123_4567_89ab_cdef, VECTOR_SEED, 0xc000_0000_0000_0000) == 0xf046_a747_c536_c435
  {
    hide Mix64;
    MixIs(0x9f0f_e773_ba97_59a8, 0x9f0f_e771_c6a8_c466, 0xc0fa_5525_9a7d_2bb6,
          0xc0fa_553d_8537_8f05, 0xe68c_da38_b974_9e97, 0xe68c_da39_746d_2ae6);
    MixIs(0x808d_29ac_ced5_2584, 0x808d_29ae_cce1_8337, 0x55b4_bf35_aa54_05bf,
          0x55b4_bf3f_1cc3_e30a, 0x16ca_7d7e_9ccf_142e, 0x16ca_7d7e_b15b_eed3);
  }

  /** Counters and words of the Funnel permutation are the pinned ones, in each of its four domains. */
  lemma FunnelVectors()
    ensures PackFunnel(FunnelOrdinary(0), 0, 0) == Some(0) && FunnelWord(0, VECTOR_SEED, 0) == 0xef8_0bc3_2b4b_4b8b
    ensures PackFunnel(FunnelOrdinary(0x3fff_ffff_ffff), 255, 255) == Some(0x3fff_ffff_ffff_ffff)
            && FunnelWord(1, VECTOR_SEED, 0x3fff_ffff_ffff_ffff) == 0xe12e_db4c_7253_f889
    ensures PackFunnel(SpecialPrimary, 255, 255) == Some(0x4000_0000_0000_ffff)
            && FunnelWord(0xffff_ffff_ffff_ffff, VECTOR_SEED, 0x4000_0000_0000_ffff) == 0x381_edbb_81aa_baf9
    ensures PackFunnel(SpecialFallbackA, 7, 1) == Some(0x8000_0000_0000_0701)
            && FunnelWord(0xd1b5_4a32_d192_ed03, VECTOR_SEED, 0x8000_0000_0000_0701) == 0xaae3_de68_9f97_85e8
    ensures PackFunnel(SpecialFallbackB, 0, 0) == Some(0xc000_0000_0000_0000)
            && FunnelWord(0x123_4567_89ab_cdef, VECTOR_SEED, 0xc000_0000_0000_0000) == 0xf046_a747_c536_c435
  {
    hide PackFunnel, FunnelWord;
    FunnelFirstVector();
    FunnelSecondVector();
    FunnelThirdVector();
    FunnelFourthVector();
    FunnelFifthVector();
  }

  // ---- Two probes of one key ----

  /** The first words of the first two probes of level zero, for a key whose hash is one. */
  lemma FirstProbeWord()
    ensures PackElastic(0, 0, 0) == Some(0) && ElasticWord(1, 0) == 0x9f06_48aa_e884_30f5
  {
    hide Mix64;
    MixIs(0xcb6d_0786_29b6_f4bb, 0xcb6d_0785_0402_eaa3, 0x91c5_6c60_4f2b_5ecb,
          0x91c5_6c72_7786_d2c2, 0x546b_4f2c_69e4_5a16, 0x546b_4f2c_c132_c44e);
  }

  lemma SecondProbeWord()
    ensures PackElastic(0, 1, 0) == Some(8) && ElasticWord(1, 8) == 0x7ad6_4846_b584_791f
  {
    hide Mix64;
    MixIs(0xcb6d_0786_29b6_f4b3, 0xcb6d_0785_0402_eaab, 0x8c87_a7c9_3652_8c93,
          0x8c87_a7d8_a6a6_75b5, 0xb1bb_4fc1_ff44_1227, 0xb1bb_4fc0_9c32_8da4);
  }

  lemma SmallWords()
    ensures FromNat(0) == 0 && FromNat(1) == 1
  {
    assert Append(0, 1) == 1;
  }

  /** Among four slots a probe goes where the top two digits of its first word say. */
  lemma FirstOfFour(logical: nat, counter: bv64, word: bv64, index: nat)
    requires PackElastic(FromNat(0), FromNat(logical), FromNat(0)) == Some(counter) && ElasticWord(1, counter) == word
    requires Octets(word) / 0x4000_0000_0000_0000 == index
    ensures HashRouting.ElasticRoute(Word(1), 0, logical, 4) == Some(index)
  {
    hide PackElastic, ElasticWord, Octets, Val, FromNat;
    assert Pow2(2) == 4;
    Pow2Of62();
    ValIsOctets(word);
    HashRouting.FirstWordAccepted(retry => HashRouting.ElasticRetryWord(Word(1), 0, logical, retry), 2);
  }

  lemma Pow2Of62()
    ensures Pow2(62) == 0x4000_0000_0000_0000
  {
    Pow2Of64();
  }

  /** On level zero of four slots that key is sent to slot 2 first and to slot 1 next. */
  lemma TwoProbes()
    ensures HashRouting.ElasticRoute(Word(1), 0, 0, 4) == Some(2)
            && HashRouting.ElasticRoute(Word(1), 0, 1, 4) == Some(1)
  {
    hide PackElastic, ElasticWord, Val, FromNat;
    SmallWords();
    FirstProbeWord();
    SecondProbeWord();
    FirstOfFour(0, 0, 0x9f06_48aa_e884_30f5, 2);
    FirstOfFour(1, 8, 0x7ad6_4846_b584_791f, 1);
  }

  // ---- Filter slots of two keys ----

  /** Among `2^16` filter words a signature's top sixteen digits choose. */
  lemma TopDigits(signature: bv64)
    ensures HashRouting.WordIndex(signature, 0x1_0000) == Octets(signature) / 0x1_0000_0000_0000
  {
    hide Octets, Val;
    ValIsOctets(signature);
  }

  lemma SixDigits(v: bv64)
    ensures HashRouting.SixBits(v) == Octets(v & 63)
  {
    hide Octets, Val;
    ValIsOctets(v & 63);
  }

  lemma FunnelFields()
    ensures Octets(0xfedc_ba98_7654_3250) / 0x1_0000_0000_0000 == 0xfedc
    ensures Octets(0xfedc_ba98_7654_3250 & 63) == 16 && Octets(0xfedc_ba98 & 63) == 24
            && Octets(0xfedc_ba98_7654 & 63) == 20
    ensures HashRouting.TwoBitBin(0xfedc_ba98_7654_3250 >> 6) == 1
  {
  }

  lemma ElasticFields()
    ensures ElasticKey(1) == 0xcb6d_0786_29b6_f4bb && Octets(0xcb6d_0786_29b6_f4bb) / 0x1_0000_0000_0000 == 0xcb6d
    ensures Octets(0xcb6d_0786_29b6_f4bb & 63) == 59 && Octets(0xcb6d_0786 & 63) == 6
            && Octets(0xcb6d_0786_29b6 & 63) == 54
    ensures HashRouting.TwoBitBin(0xcb6d_0786_29b6_f4bb) == 3
  {
  }

  /** The fields of a signature from its parts, given as words of their own. */
  lemma FieldsAre(v: bv64, middle: bv64, high: bv64, a: nat, b: nat, c: nat)
    requires high == v >> 32 && middle == v >> 16
    requires Octets(v & 63) == a && Octets(high & 63) == b && Octets(middle & 63) == c
    ensures HashRouting.TwoFields(v) == {a, b} && HashRouting.ThreeFields(v) == {a, b, c}
  {
    hide Octets, HashRouting.SixBits;
    SixDigits(v);
    SixDigits(high);
    SixDigits(middle);
  }

  /** Filter word, filter bits and level bin of one key in each backend. */
  lemma FilterSlots()
    ensures HashRouting.FunnelFilterSlot(Word(0xfedc_ba98_7654_3250), 0x1_0000) == FilterSlot(0xfedc, {16, 24}, 1)
    ensures HashRouting.ElasticFilterSlot(Word(1), 0x1_0000) == FilterSlot(0xcb6d, {59, 6, 54}, 3)
  {
    hide Octets, HashRouting.TwoBitBin, HashRouting.WordIndex, HashRouting.TwoFields, HashRouting.ThreeFields;
    FunnelFields();
    ElasticFields();
    TopDigits(0xfedc_ba98_7654_3250);
    FieldsAre(0xfedc_ba98_7654_3250, 0xfedc_ba98_7654, 0xfedc_ba98, 16, 24, 20);
    TopDigits(0xcb6d_0786_29b6_f4bb);
    FieldsAre(0xcb6d_0786_29b6_f4bb, 0xcb6d_0786_29b6, 0xcb6d_0786, 59, 6, 54);
  }
}
