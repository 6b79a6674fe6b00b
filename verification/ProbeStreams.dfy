/** Each draw of a walk reads a counter stream of its own: no two draws of one key share a random word,
    and worked samples tie every domain to its stream. */
module ProbeStreams {
  import opened Arith
  import opened Wrappers
  import opened Controls
  import opened Words
  import opened Counters
  import opened GoldenWords
  import opened HashRouting
  import opened FunnelWalk
  import opened BucketCounts
  import opened SpecialLayout
  import opened Capacity
  import FunnelPlan
  import FunnelTable
  import ElasticSchedule

  // ---- Numbers as packed fields ----

  /** A number below `2^bits` has no digit at or above that place. */
  lemma DigitsBelow(n: nat, bits: nat)
    requires n < Pow2(bits) && n < USIZE_LIMIT
    ensures Down(FromNat(n), bits) == 0
  {
    hide FromNat, Val, Half, Down, Pow2;
    ValOfFromNat(n);
    ValDown(FromNat(n), bits);
    ValZero();
    if Val(Down(FromNat(n), bits)) >= 1 {
      MulAtMost(Pow2(bits), 1, Val(Down(FromNat(n), bits)));
    } else {
      ValInjective(Down(FromNat(n), bits), 0);
    }
  }

  lemma SmallDowns(v: bv64)
    ensures Down(v, 3) == Shr(v, 3) && Down(v, 5) == Shr(v, 5) && Down(v, 6) == Shr(v, 6)
  {
    hide Half, Shr;
    ShrZero(v);
    HalfShr(v, 0);
    HalfShr(v, 1);
    HalfShr(v, 2);
    HalfShr(v, 3);
    HalfShr(v, 4);
    HalfShr(v, 5);
    assert Down(v, 1) == Shr(v, 1);
    assert Down(v, 2) == Shr(v, 2);
    assert Down(v, 3) == Shr(v, 3);
    assert Down(v, 4) == Shr(v, 4);
    assert Down(v, 5) == Shr(v, 5);
  }

  lemma NoHighDigits(v: bv64)
    ensures Shr(v, 3) == 0 ==> v < 8
    ensures Shr(v, 5) == 0 ==> v < 0x20
    ensures Shr(v, 8) == 0 ==> v < 0x100
    ensures Shr(Shr(v, 8), 5) == 0 ==> v < 0x2000
    ensures Shr(Shr(Shr(v, 32), 8), 6) == 0 ==> v < 0x4000_0000_0000
  {
  }

  /** A number below a field's limit is a word below it. */
  lemma FieldBelow(n: nat)
    ensures n < 8 ==> FromNat(n) < 8
    ensures n < 0x20 ==> FromNat(n) < 0x20
    ensures n < 0x100 ==> FromNat(n) < 0x100
    ensures n < 0x2000 ==> FromNat(n) < 0x2000
    ensures n < 0x4000_0000_0000 ==> FromNat(n) < 0x4000_0000_0000
  {
    hide FromNat, Half, Down, Shr, Pow2;
    var v := FromNat(n);
    FieldPowers();
    NoHighDigits(v);
    SmallDowns(v);
    Down8(v);
    DownAdds(v, 8, 5);
    SmallDowns(Shr(v, 8));
    Down32(v);
    DownAdds(v, 32, 8);
    Down8(Shr(v, 32));
    DownAdds(v, 40, 6);
    SmallDowns(Shr(Shr(v, 32), 8));
    if n < 8 { DigitsBelow(n, 3); }
    if n < 0x20 { DigitsBelow(n, 5); }
    if n < 0x100 { DigitsBelow(n, 8); }
    if n < 0x2000 { DigitsBelow(n, 13); }
    if n < 0x4000_0000_0000 { DigitsBelow(n, 46); }
  }

  lemma FieldPowers()
    ensures Pow2(3) == 8 && Pow2(5) == 0x20 && Pow2(8) == 0x100 && Pow2(13) == 0x2000
    ensures Pow2(46) == 0x4000_0000_0000
  {
    hide Pow2;
    PowersOfSixteen();
    SmallPower();
    Pow2Adds(8, 5);
    Pow2Adds(8, 8);
    Pow2Adds(16, 16);
    Pow2Adds(32, 8);
    Pow2Adds(40, 6);
  }

  lemma SmallPower()
    ensures Pow2(3) == 8 && Pow2(5) == 0x20 && Pow2(6) == 0x40 && Pow2(8) == 0x100
  {
    assert Pow2(4) == 16;
  }

  lemma FieldsDiffer(n: nat, m: nat)
    requires n < USIZE_LIMIT && m < USIZE_LIMIT && FromNat(n) == FromNat(m)
    ensures n == m
  {
    hide FromNat, Val;
    ValOfFromNat(n);
    ValOfFromNat(m);
  }

  // ---- Funnel ----

  /** The draws a Funnel counter has room for. */
  predicate FunnelCounts(domain: Domain, probe: nat, retry: nat)
  {
    (domain.Ordinary? ==> domain.level < 0x4000_0000_0000) && probe < 0x100 && retry < 0x100
  }

  lemma FunnelPacks(domain: Domain, probe: nat, retry: nat)
    requires FunnelCounts(domain, probe, retry)
    ensures PackFunnel(FunnelDomain(domain), FromNat(probe), FromNat(retry)).Some?
  {
    hide FromNat, FunnelCounter;
    FieldBelow(probe);
    FieldBelow(retry);
    if domain.Ordinary? {
      FieldBelow(domain.level);
    }
  }

  /** For one seed and hash, two different draws, or two retries of one, never read the same word. */
  lemma FunnelDrawsDistinct(seed: Word, hash: Word, domain: Domain, probe: nat, retry: nat, domain': Domain,
                            probe': nat, retry': nat)
    requires FunnelCounts(domain, probe, retry) && FunnelCounts(domain', probe', retry')
    requires FunnelRetryWord(seed, hash, domain, probe, retry) == FunnelRetryWord(seed, hash, domain', probe', retry')
    ensures domain == domain' && probe == probe' && retry == retry'
  {
    hide FromNat, PackFunnel, FunnelWord, Val;
    FunnelPacks(domain, probe, retry);
    FunnelPacks(domain', probe', retry');
    var c := PackFunnel(FunnelDomain(domain), FromNat(probe), FromNat(retry)).value;
    var c' := PackFunnel(FunnelDomain(domain'), FromNat(probe'), FromNat(retry')).value;
    ValInjective(FunnelWord(hash.bits, seed.bits, c), FunnelWord(hash.bits, seed.bits, c'));
    FunnelWordsDistinct(hash.bits, seed.bits, FunnelDomain(domain), FromNat(probe), FromNat(retry),
                        FunnelDomain(domain'), FromNat(probe'), FromNat(retry'));
    FieldsDiffer(probe, probe');
    FieldsDiffer(retry, retry');
    SameDomains(domain, domain');
  }

  lemma SameDomains(domain: Domain, domain': Domain)
    requires FunnelCounts(domain, 0, 0) && FunnelCounts(domain', 0, 0) && FunnelDomain(domain) == FunnelDomain(domain')
    ensures domain == domain'
  {
    hide FromNat;
    if domain.Ordinary? && domain'.Ordinary? {
      FieldsDiffer(domain.level, domain'.level);
    }
  }

  /** The draws of leg `i`: its domain and its logical probe. */
  predicate DrawsOf(shape: FunnelPlan.FunnelShape, i: nat, domain: Domain, probe: nat)
  {
    var levels := |shape.levels|;
    if i < levels then domain == Ordinary(i) && probe == 0
    else if i < levels + shape.loglog then domain == Primary && probe == i - levels
    else (domain == FallbackA || domain == FallbackB) && probe == 0
  }

  /** Every draw a table's walk makes has room in the counter. */
  lemma WalkCounts(shape: FunnelPlan.FunnelShape, d: nat, i: nat, domain: Domain, probe: nat, retry: nat)
    requires FunnelPlan.LaidOut(shape.n, d, shape) && shape.n > 0 && d < U32_LIMIT
    requires i < LegCount(shape) && DrawsOf(shape, i, domain, probe) && retry < RANGE_WORD_CAP
    ensures FunnelCounts(domain, probe, retry)
  {
    hide FunnelPlan.IsPlan, Greedy;
    ShapeCounts(shape, d);
  }

  lemma ShapeCounts(shape: FunnelPlan.FunnelShape, d: nat)
    requires FunnelPlan.LaidOut(shape.n, d, shape) && shape.n > 0 && d < U32_LIMIT
    ensures |shape.levels| == 4 * d + 10 && shape.loglog < 256
  {
    hide FunnelPlan.IsPlan, FunnelPlan.FollowsPlan, FunnelPlan.TiledLevels, Times, MaxInsertions;
    var plan :| FunnelPlan.IsPlan(shape.n, d, plan) && FunnelPlan.FollowsPlan(shape, plan);
    PlanLevels(shape.n, d, plan);
    FollowedLevels(shape, plan);
  }

  lemma PlanLevels(n: nat, d: nat, plan: FunnelPlan.Plan)
    requires FunnelPlan.IsPlan(n, d, plan)
    ensures plan.alpha == 4 * d + 10
  {
    hide LargestLayout, NearestFirst, LogLogCeiling;
  }

  lemma FollowedLevels(shape: FunnelPlan.FunnelShape, plan: FunnelPlan.Plan)
    requires FunnelPlan.FollowsPlan(shape, plan)
    ensures |shape.levels| == plan.alpha
  {
    hide Greedy, Feasible;
    FunnelPlan.GreedyFacts(plan.first, plan.alpha, (shape.n - plan.special) / plan.beta);
  }

  /** So no two draws of one walk, on different legs or the two of its last, read the same word. */
  lemma WalkDrawsDistinct(seed: Word, hash: Word, shape: FunnelPlan.FunnelShape, d: nat, i: nat, domain: Domain,
                          probe: nat, retry: nat, i': nat, domain': Domain, probe': nat, retry': nat)
    requires FunnelPlan.LaidOut(shape.n, d, shape) && shape.n > 0 && d < U32_LIMIT
    requires i < LegCount(shape) && DrawsOf(shape, i, domain, probe) && retry < RANGE_WORD_CAP
    requires i' < LegCount(shape) && DrawsOf(shape, i', domain', probe') && retry' < RANGE_WORD_CAP
    requires FunnelRetryWord(seed, hash, domain, probe, retry) == FunnelRetryWord(seed, hash, domain', probe', retry')
    ensures i == i' && domain == domain' && retry == retry'
  {
    hide FunnelRetryWord, FunnelPlan.LaidOut;
    WalkCounts(shape, d, i, domain, probe, retry);
    WalkCounts(shape, d, i', domain', probe', retry');
    FunnelDrawsDistinct(seed, hash, domain, probe, retry, domain', probe', retry');
  }

  /** A draw among `2^16` is the top sixteen digits of its first word. */
  lemma FunnelSampleIs(seed: Word, hash: Word, domain: Domain, probe: nat, counter: bv64, word: bv64)
    requires PackFunnel(FunnelDomain(domain), FromNat(probe), FromNat(0)) == Some(counter)
    requires FunnelWord(hash.bits, seed.bits, counter) == word
    ensures FunnelSample(seed, hash, domain, probe, 0x1_0000) == Some(Octets(word) / 0x1_0000_0000_0000)
  {
    hide PackFunnel, FunnelWord, Octets, Val, FromNat;
    PowersOfSixteen();
    ValIsOctets(word);
    FirstWordAccepted(retry => FunnelRetryWord(seed, hash, domain, probe, retry), 16);
  }

  lemma PowersOfSixteen()
    ensures Pow2(16) == 0x1_0000 && Pow2(48) == 0x1_0000_0000_0000
  {
    assert Pow2(8) == 256;
    Pow2Adds(8, 8);
    Pow2Adds(16, 16);
    Pow2Adds(16, 32);
  }

  lemma SmallFields()
    ensures FromNat(0) == 0 && FromNat(1) == 1 && FromNat(3) == 3 && FromNat(5) == 5
  {
    assert FromNat(1) == Append(0, 1) == 1;
    assert FromNat(2) == Append(1, 0) == 2;
    assert FromNat(3) == Append(1, 1) == 3;
    assert FromNat(5) == Append(2, 1) == 5;
  }

  lemma OrdinaryWord()
    ensures PackFunnel(FunnelOrdinary(1), 0, 0) == Some(0x1_0000)
    ensures FunnelWord(0, 0x4d5a_2da5_1de1_aa47, 0x1_0000) == 0x5b3_afc5_e28d_9f00
  {
    hide Mix64;
    MixIs(0xd912_7938_b410_5710, 0xd912_793b_d059_b3f2, 0xe925_3936_8a52_83e2,
          0xe925_392b_aef5_a533, 0x3c4b_5140_533a_08d1, 0x3c4b_5140_2bac_aa51);
    MixIs(0x7a8f_bb71_c84f_22ec, 0x7a8f_bb70_2271_cf2b, 0xdedf_052c_e8dc_2d13,
          0xdedf_0537_333c_888e, 0x39f8_fe85_bad0_c85a, 0x39f8_fe85_c921_3551);
  }

  lemma PrimaryWord()
    ensures PackFunnel(SpecialPrimary, 3, 0) == Some(0x4000_0000_0000_0300)
    ensures FunnelWord(0, 0x4d5a_2da5_1de1_aa47, 0x4000_0000_0000_0300) == 0xa9c2_e183_caae_5c67
  {
    hide Mix64;
    MixIs(0xd912_7938_b410_5710, 0xd912_793b_d059_b3f2, 0xe925_3936_8a52_83e2,
          0xe925_392b_aef5_a533, 0x3c4b_5140_533a_08d1, 0x3c4b_5140_2bac_aa51);
    MixIs(0x3a8f_bb71_c84e_21ec, 0x3a8f_bb71_2270_cc2b, 0x6b80_86aa_5472_0213,
          0x6b80_86a7_2462_d759, 0x9589_b0c2_ca11_97b3, 0x9589_b0c3_e102_f636);
  }

  lemma FallbackAWord()
    ensures PackFunnel(SpecialFallbackA, 0, 0) == Some(0x8000_0000_0000_0000)
    ensures FunnelWord(0, 0x4d5a_2da5_1de1_aa47, 0x8000_0000_0000_0000) == 0x7cfb_c586_d2f1_eeec
  {
    hide Mix64;
    MixIs(0xd912_7938_b410_5710, 0xd912_793b_d059_b3f2, 0xe925_3936_8a52_83e2,
          0xe925_392b_aef5_a533, 0x3c4b_5140_533a_08d1, 0x3c4b_5140_2bac_aa51);
    MixIs(0xfa8f_bb71_c84e_22ec, 0xfa8f_bb72_2270_cf2b, 0x513b_b3ba_0323_2d13,
          0x513b_b3b0_2455_5a53, 0x40b0_94c6_783c_6d31, 0x40b0_94c6_f95d_44bd);
  }

  lemma FallbackBWord()
    ensures PackFunnel(SpecialFallbackB, 0, 0) == Some(0xc000_0000_0000_0000)
    ensures FunnelWord(0, 0x4d5a_2da5_1de1_aa47, 0xc000_0000_0000_0000) == 0x116b_92f6_4abd_e0ac
  {
    hide Mix64;
    MixIs(0xd912_7938_b410_5710, 0xd912_793b_d059_b3f2, 0xe925_3936_8a52_83e2,
          0xe925_392b_aef5_a533, 0x3c4b_5140_533a_08d1, 0x3c4b_5140_2bac_aa51);
    MixIs(0xba8f_bb71_c84e_22ec, 0xba8f_bb73_2270_cf2b, 0x2e20_9973_0323_2d13,
          0x2e20_9976_c730_0373, 0x2d20_c3b6_3b50_cd91, 0x2d20_c3b6_6111_4afd);
  }

  /** Under a new table's seed, a key whose hash is zero draws these places among `2^16`: on the second
      level, at the fourth primary probe, and for its two fallback buckets. */
  lemma FunnelSamples()
    ensures FunnelSample(FunnelTable.PROBE_SEED, Word(0), Ordinary(1), 0, 0x1_0000) == Some(0x5b3)
    ensures FunnelSample(FunnelTable.PROBE_SEED, Word(0), Primary, 3, 0x1_0000) == Some(0xa9c2)
    ensures FunnelSample(FunnelTable.PROBE_SEED, Word(0), FallbackA, 0, 0x1_0000) == Some(0x7cfb)
    ensures FunnelSample(FunnelTable.PROBE_SEED, Word(0), FallbackB, 0, 0x1_0000) == Some(0x116b)
  {
    hide PackFunnel, FunnelWord, FromNat, FunnelSample;
    SmallFields();
    OrdinaryWord();
    PrimaryWord();
    FallbackAWord();
    FallbackBWord();
    FunnelSampleIs(FunnelTable.PROBE_SEED, Word(0), Ordinary(1), 0, 0x1_0000, 0x5b3_afc5_e28d_9f00);
    FunnelSampleIs(FunnelTable.PROBE_SEED, Word(0), Primary, 3, 0x4000_0000_0000_0300, 0xa9c2_e183_caae_5c67);
    FunnelSampleIs(FunnelTable.PROBE_SEED, Word(0), FallbackA, 0, 0x8000_0000_0000_0000, 0x7cfb_c586_d2f1_eeec);
    FunnelSampleIs(FunnelTable.PROBE_SEED, Word(0), FallbackB, 0, 0xc000_0000_0000_0000, 0x116b_92f6_4abd_e0ac);
  }

  // ---- Reseeding ----

  /** A table's seed after `n` reseedings. */
  function SeedAfter(seed: Word, n: nat): Word
  {
    if n == 0 then seed else FunnelTable.Reseeded(SeedAfter(seed, n - 1))
  }

  function Steps(n: nat): bv64
  {
    if n == 0 then 0 else Plus(Steps(n - 1), FunnelTable.RESEED_STEP)
  }

  function Plus(v: bv64, w: bv64): bv64
  {
    v + w
  }

  lemma PlusRegroups(a: bv64, b: bv64, c: bv64)
    ensures Plus(Plus(a, b), c) == Plus(a, Plus(b, c)) && Plus(a, 0) == a
  {
    calc {
      Plus(Plus(a, b), c);
      Plus(a + b, c);
      (a + b) + c;
      a + (b + c);
      Plus(a, b + c);
      Plus(a, Plus(b, c));
    }
  }

  lemma PlusCancels(a: bv64, b: bv64)
    ensures Plus(a, b) == a ==> b == 0
  {
  }

  lemma ReseededIs(seed: Word)
    ensures FunnelTable.Reseeded(seed) == Word(Plus(seed.bits, FunnelTable.RESEED_STEP))
  {
  }

  lemma {:induction false} SeedSteps(seed: Word, n: nat)
    ensures SeedAfter(seed, n) == Word(Plus(seed.bits, Steps(n)))
  {
    hide Plus, FunnelTable.Reseeded;
    PlusRegroups(seed.bits, 0, 0);
    if n > 0 {
      SeedSteps(seed, n - 1);
      ReseededIs(SeedAfter(seed, n - 1));
      PlusRegroups(seed.bits, Steps(n - 1), FunnelTable.RESEED_STEP);
    }
  }

  lemma {:induction false} StepsAdd(a: nat, b: nat)
    ensures Steps(a + b) == Plus(Steps(a), Steps(b))
  {
    hide Plus;
    PlusRegroups(Steps(a), 0, 0);
    if b > 0 {
      StepsAdd(a, b - 1);
      PlusRegroups(Steps(a), Steps(b - 1), FunnelTable.RESEED_STEP);
    }
  }

  lemma OddStep(v: bv64)
    ensures Plus(v, FunnelTable.RESEED_STEP) & 1 != v & 1
    ensures v & 1 == 0 || v & 1 == 1
  {
  }

  lemma {:induction false} StepsParity(n: nat)
    ensures Steps(n) & 1 == 0 <==> n % 2 == 0
  {
    hide Plus;
    if n > 0 {
      StepsParity(n - 1);
      OddStep(Steps(n - 1));
    }
  }

  lemma MaskDoubled(v: bv64, mask: bv64)
    ensures Plus(v, v) & mask == 0 ==> v & Half(mask) == 0
    ensures mask & 1 == 1 && v & mask == 0 ==> v & 1 == 0
  {
  }

  lemma MaskStep(mask: bv64, digits: nat)
    requires digits > 0 && Val(mask) == Pow2(digits) - 1
    ensures mask & 1 == 1 && Val(Half(mask)) == Pow2(digits - 1) - 1
  {
    hide Half;
    ValZero();
    ValStep(mask);
  }

  /** Steps whose sum is zero under a mask of `digits` ones are a multiple of `2^digits`. */
  lemma {:induction false} StepsClear(n: nat, mask: bv64, digits: nat)
    requires Val(mask) == Pow2(digits) - 1 && Steps(n) & mask == 0
    ensures n % Pow2(digits) == 0
    decreases digits
  {
    hide Steps, Plus, Half, Val;
    if digits > 0 {
      MaskStep(mask, digits);
      MaskDoubled(Steps(n), mask);
      StepsParity(n);
      var half := n / 2;
      StepsAdd(half, half);
      MaskDoubled(Steps(half), mask);
      StepsClear(half, Half(mask), digits - 1);
      EvenMultiple(half, Pow2(digits - 1));
    }
  }

  lemma EvenMultiple(half: nat, p: nat)
    requires p > 0 && half % p == 0
    ensures (half + half) % (2 * p) == 0
  {
    var q := half / p;
    assert half + half == q * (2 * p);
    MultipleMod(q, 2 * p);
  }

  /** Recovery rebuilds never come back to a seed: any `2^64` successive ones differ. */
  lemma SeedsDistinct(seed: Word, i: nat, j: nat)
    requires i < j < i + USIZE_LIMIT
    ensures SeedAfter(seed, i) != SeedAfter(seed, j)
  {
    hide Steps, Pow2, Plus, FromNat, Val;
    SeedSteps(seed, i);
    SeedSteps(seed, j);
    StepsAdd(i, j - i);
    if SeedAfter(seed, i) == SeedAfter(seed, j) {
      PlusRegroups(seed.bits, Steps(i), Steps(j - i));
      PlusCancels(Plus(seed.bits, Steps(i)), Steps(j - i));
      Pow2Of64();
      ValOfFromNat(USIZE_LIMIT - 1);
      NothingUnder(FromNat(USIZE_LIMIT - 1));
      StepsClear(j - i, FromNat(USIZE_LIMIT - 1), 64);
      SmallRemainder(j - i, USIZE_LIMIT);
    }
  }

  lemma NothingUnder(mask: bv64)
    ensures 0 & mask == 0
  {
  }

  lemma SmallRemainder(a: nat, m: nat)
    requires a < m
    ensures a % m == a
  {
  }

  // ---- Elastic ----

  /** The draws an Elastic counter has room for. */
  predicate ElasticCounts(level: nat, logical: nat, retry: nat)
  {
    level < 0x20 && logical < 0x2000 && retry < 8
  }

  lemma ElasticPacks(level: nat, logical: nat, retry: nat)
    requires ElasticCounts(level, logical, retry)
    ensures PackElastic(FromNat(level), FromNat(logical), FromNat(retry)).Some?
  {
    hide FromNat;
    FieldBelow(level);
    FieldBelow(logical);
    FieldBelow(retry);
  }

  /** For one hash, two different probes, or two retries of one, never read the same word. */
  lemma ElasticDrawsDistinct(hash: Word, level: nat, logical: nat, retry: nat, level': nat, logical': nat,
                             retry': nat)
    requires ElasticCounts(level, logical, retry) && ElasticCounts(level', logical', retry')
    requires ElasticRetryWord(hash, level, logical, retry) == ElasticRetryWord(hash, level', logical', retry')
    ensures level == level' && logical == logical' && retry == retry'
  {
    hide FromNat, PackElastic, ElasticWord, Val;
    ElasticPacks(level, logical, retry);
    ElasticPacks(level', logical', retry');
    var c := PackElastic(FromNat(level), FromNat(logical), FromNat(retry)).value;
    var c' := PackElastic(FromNat(level'), FromNat(logical'), FromNat(retry')).value;
    ValInjective(ElasticWord(hash.bits, c), ElasticWord(hash.bits, c'));
    ElasticWordsDistinct(hash.bits, FromNat(level), FromNat(logical), FromNat(retry), FromNat(level'),
                         FromNat(logical'), FromNat(retry'));
    FieldsDiffer(level, level');
    FieldsDiffer(logical, logical');
    FieldsDiffer(retry, retry');
  }

  /** Every probe a table makes has room in the counter. */
  lemma ProbesCount(level: nat, logical: nat, retry: nat)
    requires level < ElasticSchedule.MAX_LEVELS && logical < ElasticSchedule.LevelProbeLimit(level)
             && retry < RANGE_WORD_CAP
    ensures ElasticCounts(level, logical, retry)
  {
    ElasticSchedule.LevelProbeLimitExact(level, logical);
  }

  lemma ElasticRouteIs(hash: Word, level: nat, logical: nat, counter: bv64, word: bv64)
    requires PackElastic(FromNat(level), FromNat(logical), FromNat(0)) == Some(counter)
    requires ElasticWord(hash.bits, counter) == word
    ensures ElasticRoute(hash, level, logical, 0x1_0000) == Some(Octets(word) / 0x1_0000_0000_0000)
  {
    hide PackElastic, ElasticWord, Octets, Val, FromNat;
    PowersOfSixteen();
    ValIsOctets(word);
    FirstWordAccepted(retry => ElasticRetryWord(hash, level, logical, retry), 16);
  }

  lemma SecondLevelWord()
    ensures PackElastic(1, 0, 0) == Some(0x1_0000) && ElasticWord(1, 0x1_0000) == 0x63a7_fc3a_836e_f0cf
  {
    hide Mix64;
    MixIs(0xcb6d_0786_29b7_f4bb, 0xcb6d_0785_0403_eaa3, 0xd932_8945_34e4_5ecb,
          0xd932_895e_12b5_766d, 0xa8ca_fbbd_fb4d_f30f, 0xa8ca_fbbc_aad8_0474);
  }

  lemma FourthLevelWord()
    ensures PackElastic(3, 5, 0) == Some(0x3_0028) && ElasticWord(1, 0x3_0028) == 0x6016_8315_3f61_2d28
  {
    hide Mix64;
    MixIs(0xcb6d_0786_29b5_f493, 0xcb6d_0785_0401_ea8b, 0x5a11_9d40_b3fc_d573,
          0x5a11_9d4b_f1cf_7d65, 0xab7b_8492_4020_d0b7, 0xab7b_8493_16d7_d993);
  }

  /** A key whose hash is one is sent to these places among `2^16`: by the first probe of the second level
      and the sixth of the fourth. */
  lemma ElasticSamples()
    ensures ElasticRoute(Word(1), 1, 0, 0x1_0000) == Some(0x63a7)
    ensures ElasticRoute(Word(1), 3, 5, 0x1_0000) == Some(0x6016)
  {
    hide PackElastic, ElasticWord, FromNat, ElasticRoute;
    SmallFields();
    SecondLevelWord();
    FourthLevelWord();
    ElasticRouteIs(Word(1), 1, 0, 0x1_0000, 0x63a7_fc3a_836e_f0cf);
    ElasticRouteIs(Word(1), 3, 5, 0x3_0028, 0x6016_8315_3f61_2d28);
  }
}
