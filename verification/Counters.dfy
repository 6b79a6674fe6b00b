/** Probe words: counter packing, the keyed 64-bit permutation, and the filter-key bits. */
module Counters {
  import opened Wrappers
  import opened Words

  // ---- Packing ----

  const ELASTIC_LEVEL_LIMIT: bv64 := 0x20
  const ELASTIC_LOGICAL_LIMIT: bv64 := 0x2000
  const ELASTIC_REJECTION_LIMIT: bv64 := 8

  /** `try_pack_elastic_counter`: level, logical probe and retry in bits 16, 3 and 0. */
  function PackElastic(level: bv64, logical: bv64, retry: bv64): Option<bv64>
  {
    if level >= ELASTIC_LEVEL_LIMIT || logical >= ELASTIC_LOGICAL_LIMIT || retry >= ELASTIC_REJECTION_LIMIT then None
    else Some((level << 16) | (logical << 3) | retry)
  }

  /** `elastic_counter_level`. */
  function ElasticCounterLevel(counter: bv64): bv64
  {
    (counter >> 16) & 0x1f
  }

  /** A packed counter fits 21 bits and yields its level back, and no two tuples share one. */
  lemma ElasticPackingInjective(l: bv64, p: bv64, r: bv64, l': bv64, p': bv64, r': bv64)
    requires PackElastic(l, p, r).Some? && PackElastic(l', p', r').Some?
    ensures PackElastic(l, p, r).value < 0x20_0000 && ElasticCounterLevel(PackElastic(l, p, r).value) == l
    ensures PackElastic(l, p, r) == PackElastic(l', p', r') ==> l == l' && p == p' && r == r'
  {
  }

  /** A retry's counter is its base with the low bits set: retries stay inside one logical probe. */
  lemma ElasticRetryBase(l: bv64, p: bv64, r: bv64)
    requires PackElastic(l, p, r).Some?
    ensures PackElastic(l, p, 0).Some? && PackElastic(l, p, r).value == PackElastic(l, p, 0).value | r
  {
  }

  datatype ProbeDomain = FunnelOrdinary(level: bv64) | SpecialPrimary | SpecialFallbackA | SpecialFallbackB

  const FUNNEL_LEVEL_LIMIT: bv64 := 0x4000_0000_0000
  const FUNNEL_LOGICAL_LIMIT: bv64 := 0x100
  const FUNNEL_REJECTION_LIMIT: bv64 := 0x100

  /** Tag, level, logical probe and retry in bits 62, 16, 8 and 0. */
  function FunnelCounter(tag: bv64, level: bv64, logical: bv64, retry: bv64): bv64
  {
    (tag << 62) | (level << 16) | (logical << 8) | retry
  }

  /** `try_pack_funnel_counter`: a two-bit domain tag above the level, logical probe and retry. */
  function PackFunnel(domain: ProbeDomain, logical: bv64, retry: bv64): Option<bv64>
  {
    if logical >= FUNNEL_LOGICAL_LIMIT || retry >= FUNNEL_REJECTION_LIMIT then None
    else match domain
      case FunnelOrdinary(level) =>
        if level < FUNNEL_LEVEL_LIMIT then Some(FunnelCounter(0, level, logical, retry)) else None
      case SpecialPrimary => Some(FunnelCounter(1, 0, logical, retry))
      case SpecialFallbackA => Some(FunnelCounter(2, 0, logical, retry))
      case SpecialFallbackB => Some(FunnelCounter(3, 0, logical, retry))
  }

  /** Tag and level of a domain, as packed. */
  function Tag(domain: ProbeDomain): bv64
  {
    match domain
    case FunnelOrdinary(_) => 0
    case SpecialPrimary => 1
    case SpecialFallbackA => 2
    case SpecialFallbackB => 3
  }

  function LevelOf(domain: ProbeDomain): bv64
  {
    if domain.FunnelOrdinary? then domain.level else 0
  }

  lemma FieldsApart(tag: bv64, level: bv64, logical: bv64, retry: bv64)
    requires tag < 4 && level < FUNNEL_LEVEL_LIMIT && logical < FUNNEL_LOGICAL_LIMIT && retry < FUNNEL_REJECTION_LIMIT
    ensures var c := FunnelCounter(tag, level, logical, retry);
            c >> 62 == tag && (c >> 16) & 0x3fff_ffff_ffff == level && (c >> 8) & 0xff == logical && c & 0xff == retry
  {
  }

  lemma PackedFields(d: ProbeDomain, p: bv64, r: bv64)
    requires PackFunnel(d, p, r).Some?
    ensures PackFunnel(d, p, r).value == FunnelCounter(Tag(d), LevelOf(d), p, r)
    ensures Tag(d) < 4 && LevelOf(d) < FUNNEL_LEVEL_LIMIT && p < FUNNEL_LOGICAL_LIMIT && r < FUNNEL_REJECTION_LIMIT
  {
    hide FunnelCounter;
  }

  /** No two Funnel tuples share a counter. */
  lemma FunnelPackingInjective(d: ProbeDomain, p: bv64, r: bv64, d': ProbeDomain, p': bv64, r': bv64)
    requires PackFunnel(d, p, r).Some? && PackFunnel(d, p, r) == PackFunnel(d', p', r')
    ensures d == d' && p == p' && r == r'
  {
    hide FunnelCounter, PackFunnel;
    PackedFields(d, p, r);
    PackedFields(d', p', r');
    FieldsApart(Tag(d), LevelOf(d), p, r);
    FieldsApart(Tag(d'), LevelOf(d'), p', r');
    SameDomain(d, d');
  }

  lemma SameDomain(d: ProbeDomain, d': ProbeDomain)
    ensures Tag(d) == Tag(d') && LevelOf(d) == LevelOf(d') ==> d == d'
  {
  }

  // ---- The permutation ----

  const MIX_FIRST: nat := 0xbf58_476d_1ce4_e5b9
  const MIX_SECOND: nat := 0x94d0_49bb_1331_11eb
  /** Their inverses modulo `2^64`. */
  const UNMIX_FIRST: nat := 0x96de_1b17_3f11_9089
  const UNMIX_SECOND: nat := 0x3196_42b2_d24d_8ec3

  /** Shift-and-xor steps of `mix64`. */
  function Fold30(v: bv64): bv64 { v ^ (v >> 30) }
  function Fold27(v: bv64): bv64 { v ^ (v >> 27) }
  function Fold31(v: bv64): bv64 { v ^ (v >> 31) }

  /** Their inverses: the shifted words overlap at most twice. */
  function Unfold30(v: bv64): bv64 { v ^ (v >> 30) ^ (v >> 60) }
  function Unfold27(v: bv64): bv64 { v ^ (v >> 27) ^ (v >> 54) }
  function Unfold31(v: bv64): bv64 { v ^ (v >> 31) ^ (v >> 62) }

  /** `mix64`. */
  function Mix64(value: bv64): bv64
  {
    Fold31(WrappingMul(Fold27(WrappingMul(Fold30(value), MIX_FIRST)), MIX_SECOND))
  }

  lemma Unfolds30(x: bv64)
    ensures Unfold30(x ^ (x >> 30)) == x
    ensures Fold30(x) == x ^ (x >> 30)
  {
    assert (x ^ (x >> 30)) ^ ((x ^ (x >> 30)) >> 30) ^ ((x ^ (x >> 30)) >> 60) == x;
  }

  lemma Unfolds27(x: bv64)
    ensures Unfold27(x ^ (x >> 27)) == x
    ensures Fold27(x) == x ^ (x >> 27)
  {
    assert (x ^ (x >> 27)) ^ ((x ^ (x >> 27)) >> 27) ^ ((x ^ (x >> 27)) >> 54) == x;
  }

  lemma Unfolds31(x: bv64)
    ensures Unfold31(x ^ (x >> 31)) == x
    ensures Fold31(x) == x ^ (x >> 31)
  {
    assert (x ^ (x >> 31)) ^ ((x ^ (x >> 31)) >> 31) ^ ((x ^ (x >> 31)) >> 62) == x;
  }

  /** Each step has an inverse, so it keeps distinct words distinct. */
  lemma FoldsInjective(x: bv64, y: bv64)
    ensures Fold30(x) == Fold30(y) ==> x == y
    ensures Fold27(x) == Fold27(y) ==> x == y
    ensures Fold31(x) == Fold31(y) ==> x == y
  {
    hide Fold30, Fold27, Fold31, Unfold30, Unfold27, Unfold31;
    Unfolds30(x);
    Unfolds30(y);
    Unfolds27(x);
    Unfolds27(y);
    Unfolds31(x);
    Unfolds31(y);
  }

  /** The multipliers are odd, so they have inverses and send distinct words to distinct words. */
  lemma MultiplierInjective(x: bv64, y: bv64)
    ensures WrappingMul(x, MIX_FIRST) == WrappingMul(y, MIX_FIRST) ==> x == y
    ensures WrappingMul(x, MIX_SECOND) == WrappingMul(y, MIX_SECOND) ==> x == y
  {
    hide WrappingMul;
    WrappingMulInverts(x, MIX_FIRST, UNMIX_FIRST);
    WrappingMulInverts(y, MIX_FIRST, UNMIX_FIRST);
    WrappingMulInverts(x, MIX_SECOND, UNMIX_SECOND);
    WrappingMulInverts(y, MIX_SECOND, UNMIX_SECOND);
  }

  /** `mix64` never sends two words to one. */
  lemma MixInjective(x: bv64, y: bv64)
    requires Mix64(x) == Mix64(y)
    ensures x == y
  {
    hide Fold30, Fold27, Fold31, WrappingMul;
    var a, a' := Fold30(x), Fold30(y);
    var b, b' := WrappingMul(a, MIX_FIRST), WrappingMul(a', MIX_FIRST);
    var c, c' := Fold27(b), Fold27(b');
    FoldsInjective(WrappingMul(c, MIX_SECOND), WrappingMul(c', MIX_SECOND));
    MultiplierInjective(c, c');
    FoldsInjective(b, b');
    MultiplierInjective(a, a');
    FoldsInjective(x, y);
  }

  /** The inverse of `mix64`: its steps undone, last first. */
  function Unmix64(value: bv64): bv64
  {
    Unfold30(WrappingMul(Unfold27(WrappingMul(Unfold31(value), UNMIX_SECOND)), UNMIX_FIRST))
  }

  lemma Folds30(x: bv64)
    ensures Fold30(x ^ (x >> 30) ^ (x >> 60)) == x
    ensures Unfold30(x) == x ^ (x >> 30) ^ (x >> 60)
  {
    assert (x ^ (x >> 30) ^ (x >> 60)) ^ ((x ^ (x >> 30) ^ (x >> 60)) >> 30) == x;
  }

  lemma Folds27(x: bv64)
    ensures Fold27(x ^ (x >> 27) ^ (x >> 54)) == x
    ensures Unfold27(x) == x ^ (x >> 27) ^ (x >> 54)
  {
    assert (x ^ (x >> 27) ^ (x >> 54)) ^ ((x ^ (x >> 27) ^ (x >> 54)) >> 27) == x;
  }

  lemma Folds31(x: bv64)
    ensures Fold31(x ^ (x >> 31) ^ (x >> 62)) == x
    ensures Unfold31(x) == x ^ (x >> 31) ^ (x >> 62)
  {
    assert (x ^ (x >> 31) ^ (x >> 62)) ^ ((x ^ (x >> 31) ^ (x >> 62)) >> 31) == x;
  }

  lemma Refolds(x: bv64)
    ensures Fold30(Unfold30(x)) == x == Unfold30(Fold30(x))
    ensures Fold27(Unfold27(x)) == x == Unfold27(Fold27(x))
    ensures Fold31(Unfold31(x)) == x == Unfold31(Fold31(x))
  {
    hide Fold30, Fold27, Fold31, Unfold30, Unfold27, Unfold31;
    Folds30(x);
    Unfolds30(x);
    Folds27(x);
    Unfolds27(x);
    Folds31(x);
    Unfolds31(x);
  }

  lemma Remultiplies(x: bv64)
    ensures WrappingMul(WrappingMul(x, MIX_FIRST), UNMIX_FIRST) == x ==
            WrappingMul(WrappingMul(x, UNMIX_FIRST), MIX_FIRST)
    ensures WrappingMul(WrappingMul(x, MIX_SECOND), UNMIX_SECOND) == x ==
            WrappingMul(WrappingMul(x, UNMIX_SECOND), MIX_SECOND)
  {
    hide WrappingMul;
    WrappingMulInverts(x, MIX_FIRST, UNMIX_FIRST);
    WrappingMulInverts(x, UNMIX_FIRST, MIX_FIRST);
    WrappingMulInverts(x, MIX_SECOND, UNMIX_SECOND);
    WrappingMulInverts(x, UNMIX_SECOND, MIX_SECOND);
  }

  /** `mix64` and its inverse undo each other, in both orders, on every 64-bit word. */
  lemma MixRoundTrips(x: bv64)
    ensures Unmix64(Mix64(x)) == x && Mix64(Unmix64(x)) == x
  {
    hide Fold30, Fold27, Fold31, Unfold30, Unfold27, Unfold31, WrappingMul;
    var a := Fold30(x);
    var b := WrappingMul(a, MIX_FIRST);
    var c := Fold27(b);
    Refolds(WrappingMul(c, MIX_SECOND));
    Remultiplies(c);
    Refolds(b);
    Remultiplies(a);
    Refolds(x);
    var c' := Unfold31(x);
    var b' := WrappingMul(c', UNMIX_SECOND);
    var a' := Unfold27(b');
    Refolds(WrappingMul(a', UNMIX_FIRST));
    Remultiplies(a');
    Refolds(b');
    Remultiplies(c');
    Refolds(x);
  }

  // ---- Probe words ----

  const INITIAL_LANE: bv64 := 0x9e37_79b9_7f4a_7c15
  const KEY_LANE: bv64 := 0x2d35_8dcc_aa6c_78a5
  const DOMAIN_KIND_LANE: bv64 := 0x8bb8_4b93_962e_acc9
  const ELASTIC_PROBE_SEED: bv64 := 0x2d35_8dcc_aa6c_78a5

  /** `prepare_elastic`: the keyed hash, which is also the routing signature. */
  function ElasticKey(hash: bv64): bv64
  {
    hash + ELASTIC_PROBE_SEED + INITIAL_LANE
  }

  /** The keyed permutation behind both backends' probe words. */
  function KeyedWord(counter: bv64, keyIn: bv64, keyOut: bv64): bv64
  {
    Keyed(Mix64(Keyed(counter, keyIn)), keyOut)
  }

  function ElasticWord(hash: bv64, counter: bv64): bv64
  {
    KeyedWord(counter, ElasticKey(hash), ElasticKey(hash))
  }

  function FunnelKeyIn(hash: bv64, seed: bv64): bv64
  {
    hash + seed + KEY_LANE
  }

  function FunnelKeyOut(hash: bv64, seed: bv64): bv64
  {
    Mix64(hash + seed + DOMAIN_KIND_LANE)
  }

  function FunnelWord(hash: bv64, seed: bv64, counter: bv64): bv64
  {
    KeyedWord(counter, FunnelKeyIn(hash, seed), FunnelKeyOut(hash, seed))
  }

  /** `x ^ key`, kept apart from the permutation. */
  function Keyed(x: bv64, key: bv64): bv64
  {
    x ^ key
  }

  lemma XorCancels(a: bv64, b: bv64, k: bv64)
    ensures Keyed(a, k) == Keyed(b, k) ==> a == b
  {
    assert Keyed(Keyed(a, k), k) == a && Keyed(Keyed(b, k), k) == b;
  }

  /** A keyed permutation sends distinct counters to distinct words. */
  lemma KeyedWordsDistinct(c: bv64, c': bv64, keyIn: bv64, keyOut: bv64)
    requires KeyedWord(c, keyIn, keyOut) == KeyedWord(c', keyIn, keyOut)
    ensures c == c'
  {
    hide Mix64, Keyed;
    XorCancels(Mix64(Keyed(c, keyIn)), Mix64(Keyed(c', keyIn)), keyOut);
    MixInjective(Keyed(c, keyIn), Keyed(c', keyIn));
    XorCancels(c, c', keyIn);
  }

  /** For a fixed key, distinct Elastic tuples always give distinct probe words. */
  lemma ElasticWordsDistinct(hash: bv64, l: bv64, p: bv64, r: bv64, l': bv64, p': bv64, r': bv64)
    requires PackElastic(l, p, r).Some? && PackElastic(l', p', r').Some?
    requires ElasticWord(hash, PackElastic(l, p, r).value) == ElasticWord(hash, PackElastic(l', p', r').value)
    ensures l == l' && p == p' && r == r'
  {
    hide KeyedWord, PackElastic, ElasticKey;
    KeyedWordsDistinct(PackElastic(l, p, r).value, PackElastic(l', p', r').value, ElasticKey(hash), ElasticKey(hash));
    ElasticPackingInjective(l, p, r, l', p', r');
  }

  /** For a fixed key and seed, distinct Funnel tuples always give distinct probe words. */
  lemma FunnelWordsDistinct(hash: bv64, seed: bv64, d: ProbeDomain, p: bv64, r: bv64, d': ProbeDomain, p': bv64,
                            r': bv64)
    requires PackFunnel(d, p, r).Some? && PackFunnel(d', p', r').Some?
    requires FunnelWord(hash, seed, PackFunnel(d, p, r).value) == FunnelWord(hash, seed, PackFunnel(d', p', r').value)
    ensures d == d' && p == p' && r == r'
  {
    hide KeyedWord, PackFunnel, FunnelKeyIn, FunnelKeyOut;
    KeyedWordsDistinct(PackFunnel(d, p, r).value, PackFunnel(d', p', r').value, FunnelKeyIn(hash, seed),
                       FunnelKeyOut(hash, seed));
    FunnelPackingInjective(d, p, r, d', p', r');
  }

  // ---- Filter bits as words ----

  /** `MembershipKey::from_signature` with two and with three fields. */
  function TwoBits(signature: bv64): bv64
  {
    ((1 as bv64) << (signature & 63) as bv7) | ((1 as bv64) << ((signature >> 32) & 63) as bv7)
  }

  function ThreeBits(signature: bv64): bv64
  {
    TwoBits(signature) | ((1 as bv64) << ((signature >> 16) & 63) as bv7)
  }

  predicate Passes(word: bv64, bits: bv64)
  {
    word & bits == bits
  }

  /** Recording admits the key and never drops another, whatever bits either sets. */
  lemma GateKeeps(word: bv64, bits: bv64, others: bv64)
    ensures Passes(word | bits, bits)
    ensures Passes(word, others) ==> Passes(word | bits, others)
  {
  }

  /** `expanded_level_mask`: the saturating last summary bit widened over the levels it stands for. */
  function ExpandedLevelMask(mask: bv32): bv32
  {
    mask | ((0 - ((mask >> 15) & 1)) << 15)
  }

  /** Testing a level's own bit in the expanded mask is testing its summary bit in the bin. */
  lemma ExpandedMaskExact(mask: bv32, level: bv6)
    requires mask < 0x10000 && level < 32
    ensures ExpandedLevelMask(mask) & ((1 as bv32) << level) != 0 <==>
              mask & ((1 as bv32) << (if level < 15 then level else 15)) != 0
  {
  }

  /** The exceptional flag in the top bit never disturbs a high-water mark below it. */
  lemma FlaggedHighWater(packed: bv32, water: bv32)
    requires water < 0x8000_0000
    ensures var flag := packed & 0x8000_0000;
            && (flag | water) & 0x7fff_ffff == water && (flag | water) & 0x8000_0000 == flag
            && (packed | 0x8000_0000) & 0x7fff_ffff == packed & 0x7fff_ffff
  {
  }
}
