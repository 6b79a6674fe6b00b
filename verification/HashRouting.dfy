/** The routing both tables run on, from a key's 64-bit hash: fingerprint, filter location and probe
    choice. It meets what the table proofs ask of it. */
module HashRouting {
  import opened Arith
  import opened Wrappers
  import opened Controls
  import opened Store
  import opened Membership
  import opened Words
  import opened Counters
  import opened RangeReduction
  import FunnelWalk
  import FunnelState
  import ElasticState

  /** Random words spent per rejection-sampled probe. */
  const RANGE_WORD_CAP: nat := 8

  function AsWord64(v: bv64): (w: Word64)
  {
    ValRange(v);
    Val(v)
  }

  /** Multiply-high reduction of a signature into `words` words. */
  function WordIndex(signature: bv64, words: nat): nat
  {
    AsWord64(signature) * words / USIZE_LIMIT
  }

  function TwoBitBin(v: bv64): (r: nat)
    ensures r < 4
  {
    var low := v & 3;
    if low == 0 then 0 else if low == 1 then 1 else if low == 2 then 2 else 3
  }

  /** Index of the bit a six-bit field of the signature selects. */
  function SixBits(v: bv64): nat
  {
    Val(v & 63)
  }

  /** The filter bits two and three fields of a signature select. */
  function TwoFields(signature: bv64): set<nat>
  {
    {SixBits(signature), SixBits(signature >> 32)}
  }

  function ThreeFields(signature: bv64): set<nat>
  {
    {SixBits(signature), SixBits(signature >> 32), SixBits(signature >> 16)}
  }

  function DrawnIndex(r: Result<ProbeIndex, RangeError>): Option<nat>
  {
    if r.Ok? then Some(r.value.index) else None
  }

  // ---- Funnel ----

  function FunnelDomain(domain: FunnelWalk.Domain): ProbeDomain
  {
    match domain
    case Ordinary(level) => FunnelOrdinary(FromNat(level))
    case Primary => SpecialPrimary
    case FallbackA => SpecialFallbackA
    case FallbackB => SpecialFallbackB
  }

  function FunnelRetryWord(seed: Word, hash: Word, domain: FunnelWalk.Domain, probe: nat, retry: nat): Word64
  {
    match PackFunnel(FunnelDomain(domain), FromNat(probe), FromNat(retry))
    case None => 0
    case Some(counter) => AsWord64(FunnelWord(hash.bits, seed.bits, counter))
  }

  function FunnelSample(seed: Word, hash: Word, domain: FunnelWalk.Domain, probe: nat, upper: nat): Option<nat>
  {
    DrawnIndex(Reduce(retry => FunnelRetryWord(seed, hash, domain, probe, retry), upper, 0, RANGE_WORD_CAP))
  }

  /** Two filter bits and a level bin, from disjoint fields of the hash. */
  function FunnelFilterSlot(hash: Word, words: nat): FilterSlot
  {
    FilterSlot(WordIndex(hash.bits, words), TwoFields(hash.bits), TwoBitBin(hash.bits >> 6))
  }

  lemma IndexFits(signature: bv64, words: nat)
    requires words > 0
    ensures WordIndex(signature, words) < words
  {
    HighBelow(AsWord64(signature), words);
  }

  lemma ReducedBelow(words: nat -> Word64, upper: nat)
    ensures DrawnIndex(Reduce(words, upper, 0, RANGE_WORD_CAP)).Some? ==>
              DrawnIndex(Reduce(words, upper, 0, RANGE_WORD_CAP)).value < upper
  {
    if upper > 0 {
      ReduceMeaning(words, upper, 0, RANGE_WORD_CAP);
    }
  }

  /** A bound of one rejects no word: every draw from a single bucket succeeds at once. */
  lemma OneBucketDraws(seed: Word, hash: Word, domain: FunnelWalk.Domain, probe: nat)
    ensures FunnelSample(seed, hash, domain, probe, 1) == Some(0)
  {
    hide FunnelRetryWord;
    FirstWordAccepted(retry => FunnelRetryWord(seed, hash, domain, probe, retry), 0);
  }

  /** On a power-of-two bound the first word decides, by its top bits. */
  lemma FirstWordAccepted(words: nat -> Word64, bits: nat)
    requires bits <= 64
    ensures DrawnIndex(Reduce(words, Pow2(bits), 0, RANGE_WORD_CAP)) == Some(words(0) / Pow2(64 - bits))
  {
    hide Accepted, High, Pow2;
    PowerOfTwoReduces(words(0), bits);
  }

  /** Funnel's routing is sound for every key hash. */
  lemma FunnelRoutingSound<K>(hash: K -> Word)
    ensures FunnelState.SoundEnv(FunnelState.Env(Keys(hash, Fingerprint), FunnelFilterSlot, FunnelSample))
  {
    hide Reduce, WordIndex, SixBits, DrawnIndex, FunnelRetryWord;
    forall seed, h, domain, probe, upper | FunnelSample(seed, h, domain, probe, upper).Some?
      ensures FunnelSample(seed, h, domain, probe, upper).value < upper
    {
      ReducedBelow(retry => FunnelRetryWord(seed, h, domain, probe, retry), upper);
    }
    forall h: Word, words: nat ensures SlotFits(FunnelFilterSlot(h, words), words) {
      if words > 0 {
        IndexFits(h.bits, words);
      }
    }
  }

  // ---- Elastic ----

  function ElasticRetryWord(hash: Word, level: nat, logical: nat, retry: nat): Word64
  {
    match PackElastic(FromNat(level), FromNat(logical), FromNat(retry))
    case None => 0
    case Some(counter) => AsWord64(ElasticWord(hash.bits, counter))
  }

  function ElasticRoute(hash: Word, level: nat, logical: nat, upper: nat): Option<nat>
  {
    DrawnIndex(Reduce(retry => ElasticRetryWord(hash, level, logical, retry), upper, 0, RANGE_WORD_CAP))
  }

  /** Three filter bits and a summary bin of the routing signature. */
  function ElasticFilterSlot(hash: Word, words: nat): FilterSlot
  {
    var signature := ElasticKey(hash.bits);
    FilterSlot(WordIndex(signature, words), ThreeFields(signature), TwoBitBin(signature))
  }

  /** Elastic's routing is sound for every key hash. */
  lemma ElasticRoutingSound<K>(hash: K -> Word)
    ensures ElasticState.SoundEnv(ElasticState.Env(Keys(hash, Fingerprint), ElasticFilterSlot, ElasticRoute))
  {
    hide Reduce, WordIndex, SixBits, DrawnIndex, ElasticRetryWord, ElasticKey;
    forall h, level, logical, upper | ElasticRoute(h, level, logical, upper).Some?
      ensures ElasticRoute(h, level, logical, upper).value < upper
    {
      ReducedBelow(retry => ElasticRetryWord(h, level, logical, retry), upper);
    }
    forall h: Word, words: nat ensures SlotFits(ElasticFilterSlot(h, words), words) {
      if words > 0 {
        IndexFits(ElasticKey(h.bits), words);
      }
    }
  }
}
