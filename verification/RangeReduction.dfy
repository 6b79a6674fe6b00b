/** Reducing 64-bit oracle words to a bounded index by multiply-high with rejection: every loop and
    fast path against one meaning, and why the accepted words are exactly uniform. */
module RangeReduction {
  import opened Arith
  import opened Wrappers

  /** One reduction and its word cost. */
  datatype ProbeIndex = ProbeIndex(index: nat, words: nat)

  datatype RangeError = ZeroUpperBound | RejectionLimitExceeded(words: nat)

  /** `2^64 mod upper`: low halves below it are rejected. */
  function Threshold(upper: nat): nat
    requires upper > 0
  {
    USIZE_LIMIT % upper
  }

  /** The source's form of the threshold: the wrapped negation, reduced. */
  lemma ThresholdIsWrappedNegation(upper: nat)
    requires 0 < upper < USIZE_LIMIT
    ensures (USIZE_LIMIT - upper) % upper == Threshold(upper)
  {
    AddMultipleMod(USIZE_LIMIT - upper, 1, upper);
  }

  function High(word: Word64, upper: nat): nat
  {
    word * upper / USIZE_LIMIT
  }

  function Low(word: Word64, upper: nat): nat
  {
    word * upper % USIZE_LIMIT
  }

  predicate Accepted(word: Word64, upper: nat)
    requires upper > 0
  {
    Low(word, upper) >= Threshold(upper)
  }

  /** Outcome of the generic reduction on the words from retry `retry` on. */
  function Reduce(words: nat -> Word64, upper: nat, retry: nat, cap: nat): Result<ProbeIndex, RangeError>
    decreases cap - retry
  {
    if upper == 0 then Err(ZeroUpperBound)
    else if retry >= cap then Err(RejectionLimitExceeded(cap))
    else if Accepted(words(retry), upper) then Ok(ProbeIndex(High(words(retry), upper), retry + 1))
    else Reduce(words, upper, retry + 1, cap)
  }

  /** `reduce_probe_words`: the generic loop. */
  method ReduceProbeWords(words: nat -> Word64, upper: nat, cap: nat) returns (r: Result<ProbeIndex, RangeError>)
    requires upper < USIZE_LIMIT
    ensures r == Reduce(words, upper, 0, cap)
  {
    if upper == 0 {
      return Err(ZeroUpperBound);
    }
    ThresholdIsWrappedNegation(upper);
    var threshold := (USIZE_LIMIT - upper) % upper;
    var retry := 0;
    while retry < cap
      invariant retry <= cap && Reduce(words, upper, 0, cap) == Reduce(words, upper, retry, cap)
    {
      var product := words(retry) * upper;
      if product % USIZE_LIMIT >= threshold {
        return Ok(ProbeIndex(product / USIZE_LIMIT, retry + 1));
      }
      retry := retry + 1;
    }
    return Err(RejectionLimitExceeded(cap));
  }

  /** The reduced index is the first accepted word's high half, and lies below the bound. */
  lemma {:induction false} ReduceMeaning(words: nat -> Word64, upper: nat, retry: nat, cap: nat)
    requires upper > 0 && retry <= cap
    ensures var r := Reduce(words, upper, retry, cap);
            && (r.Ok? ==> retry < r.value.words <= cap && r.value.index < upper)
            && (r.Ok? ==> r.value.index == High(words(r.value.words - 1), upper)
                          && Accepted(words(r.value.words - 1), upper))
            && (r.Ok? ==> forall i: nat :: retry <= i < r.value.words - 1 ==> !Accepted(words(i), upper))
            && (r.Err? ==> r.error == RejectionLimitExceeded(cap) && forall i: nat :: retry <= i < cap ==>
               !Accepted(words(i), upper))
    decreases cap - retry
  {
    hide High, Accepted;
    if retry < cap {
      if Accepted(words(retry), upper) {
        HighBelow(words(retry), upper);
      } else {
        ReduceMeaning(words, upper, retry + 1, cap);
      }
    }
  }

  lemma HighBelow(word: Word64, upper: nat)
    requires upper > 0
    ensures High(word, upper) < upper
  {
    QuotientAtLeast(word * upper, USIZE_LIMIT, upper);
    MulAtMost(upper, word, USIZE_LIMIT - 1);
    assert word * upper == upper * word;
  }

  // ---- Exact uniformity ----

  /** Words accepted for `index` among the first `n`. */
  ghost function AcceptedBelow(upper: nat, index: nat, n: nat): nat
    requires upper > 0 && n <= USIZE_LIMIT
  {
    if n == 0 then 0
    else AcceptedBelow(upper, index, n - 1) + (if High(n - 1, upper) == index && Accepted(n - 1, upper) then 1 else 0)
  }

  /** First word whose product reaches `index * 2^64`. */
  ghost function Start(upper: nat, index: nat): nat
    requires upper > 0
  {
    CeilDiv(index * USIZE_LIMIT, upper)
  }

  /** Words of an index form the interval between consecutive starts. */
  lemma HighIs(upper: nat, index: nat, word: Word64)
    requires upper > 0
    ensures High(word, upper) == index <==> Start(upper, index) <= word < Start(upper, index + 1)
  {
    var p := word * upper;
    QuotientAtLeast(p, USIZE_LIMIT, index);
    QuotientAtLeast(p, USIZE_LIMIT, index + 1);
    CeilDivAtMost(index * USIZE_LIMIT, upper, word);
    CeilDivAtMost((index + 1) * USIZE_LIMIT, upper, word);
    assert USIZE_LIMIT * index == index * USIZE_LIMIT && USIZE_LIMIT * (index + 1) == (index + 1) * USIZE_LIMIT;
    assert p == upper * word;
  }

  /** Within an index's interval the low half starts below the bound and grows by it. */
  lemma LowIs(upper: nat, index: nat, word: Word64)
    requires upper > 0 && High(word, upper) == index
    ensures Low(word, upper) == word * upper - index * USIZE_LIMIT
  {
    assert word * upper == USIZE_LIMIT * index + Low(word, upper);
  }

  /** Exactly `floor(2^64 / upper)` words lie at or past the threshold within an interval. */
  ghost function Share(upper: nat): nat
    requires upper > 0
  {
    USIZE_LIMIT / upper
  }

  /** First accepted word of an index: the first whose low half reaches the threshold. */
  ghost function FirstAccepted(upper: nat, index: nat): nat
    requires upper > 0
  {
    CeilDiv(index * USIZE_LIMIT + Threshold(upper), upper)
  }

  /** The accepted words of an index are consecutive and number exactly the share. */
  lemma AcceptedInterval(upper: nat, index: nat, word: Word64)
    requires 0 < upper < USIZE_LIMIT && index < upper
    ensures High(word, upper) == index && Accepted(word, upper) <==>
              FirstAccepted(upper, index) <= word < FirstAccepted(upper, index) + Share(upper)
  {
    EndOfInterval(upper, index);
    HighIs(upper, index, word);
    CeilDivAtMost(index * USIZE_LIMIT + Threshold(upper), upper, word);
    CeilDivAtMost(index * USIZE_LIMIT, upper, word);
    assert upper * word == word * upper;
    if High(word, upper) == index {
      LowIs(upper, index, word);
    }
  }

  /** The interval ends exactly one share past its first accepted word. */
  lemma EndOfInterval(upper: nat, index: nat)
    requires 0 < upper < USIZE_LIMIT
    ensures FirstAccepted(upper, index) + Share(upper) == Start(upper, index + 1)
  {
    var share, threshold := Share(upper), Threshold(upper);
    assert USIZE_LIMIT == upper * share + threshold;
    var a := index * USIZE_LIMIT + threshold;
    assert (index + 1) * USIZE_LIMIT == a + upper * share;
    CeilDivShift(a, upper, share);
  }

  lemma CeilDivShift(a: nat, b: nat, k: nat)
    requires b > 0
    ensures CeilDiv(a + b * k, b) == CeilDiv(a, b) + k
  {
    var q, r := a / b, a % b;
    assert a == b * q + r;
    assert b * (q + k) == b * q + b * k;
    QuotientIs(a + b * k, b, q + k, r);
  }

  lemma IntervalInside(upper: nat, index: nat)
    requires 0 < upper < USIZE_LIMIT && index < upper
    ensures FirstAccepted(upper, index) + Share(upper) <= USIZE_LIMIT
  {
    EndOfInterval(upper, index);
    MulAtMost(USIZE_LIMIT, index + 1, upper);
    assert (index + 1) * USIZE_LIMIT == USIZE_LIMIT * (index + 1);
    CeilDivAtMost((index + 1) * USIZE_LIMIT, upper, USIZE_LIMIT);
    assert upper * USIZE_LIMIT == USIZE_LIMIT * upper;
  }

  lemma {:induction false} CountInterval(upper: nat, index: nat, n: nat)
    requires 0 < upper < USIZE_LIMIT && index < upper && n <= USIZE_LIMIT
    ensures var first := FirstAccepted(upper, index);
            AcceptedBelow(upper, index, n) ==
              if n <= first then 0 else if n <= first + Share(upper) then n - first else Share(upper)
    decreases n
  {
    hide High, Accepted, FirstAccepted, Share;
    if n > 0 {
      CountInterval(upper, index, n - 1);
      AcceptedInterval(upper, index, n - 1);
    }
  }

  /** Multiply-high with rejection is exactly uniform: every index has exactly `floor(2^64 / upper)`
      accepted words. */
  lemma ExactlyUniform(upper: nat, index: nat)
    requires 0 < upper < USIZE_LIMIT && index < upper
    ensures AcceptedBelow(upper, index, USIZE_LIMIT) == USIZE_LIMIT / upper
  {
    CountInterval(upper, index, USIZE_LIMIT);
    IntervalInside(upper, index);
  }

  // ---- Fast paths ----

  predicate IsPowerOfTwo(upper: nat)
  {
    upper > 0 && upper == Pow2(BitLen(upper - 1))
  }

  /** A power-of-two bound rejects nothing and keeps the word's top bits. */
  lemma PowerOfTwoReduces(word: Word64, bits: nat)
    requires bits <= 64
    ensures Accepted(word, Pow2(bits)) && High(word, Pow2(bits)) == word / Pow2(64 - bits)
  {
    hide Pow2, Accepted, High;
    Pow2Adds(bits, 64 - bits);
    Pow2Of64();
    NothingRejected(word, Pow2(bits), Pow2(64 - bits));
  }

  lemma NothingRejected(word: Word64, p: nat, q: nat)
    requires p >= 1 && q >= 1 && p * q == USIZE_LIMIT
    ensures Accepted(word, p) && High(word, p) == word / q
  {
    MultipleMod(q, p);
    assert q * p == p * q;
    var e, r := word / q, word % q;
    ScaledQuotient(word, p, q, e, r);
  }

  lemma ScaledQuotient(word: nat, p: nat, q: nat, e: nat, r: nat)
    requires p >= 1 && q >= 1 && word == q * e + r && r < q
    ensures word * p / (q * p) == e
  {
    Distribute(q, e, r, p);
    MulAtMost(p, r, q - 1);
    assert p * (q - 1) == p * q - p;
    QuotientIs(word * p, q * p, e, r * p);
  }

  const ELASTIC_REJECTION_LIMIT: nat := 8

  /** `unbiased_prepared_elastic_probe_index`: a shift for power-of-two bounds, the generic loop
      otherwise. It equals the generic reduction whenever the word cap is one the counter encodes. */
  method ElasticProbeIndex(words: nat -> Word64, upper: nat, cap: nat) returns (r: Result<ProbeIndex, RangeError>)
    requires upper < USIZE_LIMIT
    ensures cap > ELASTIC_REJECTION_LIMIT ==> r == Err(RejectionLimitExceeded(0))
    ensures cap <= ELASTIC_REJECTION_LIMIT ==> r == Reduce(words, upper, 0, cap)
  {
    if cap > ELASTIC_REJECTION_LIMIT {
      return Err(RejectionLimitExceeded(0));
    }
    if IsPowerOfTwo(upper) {
      if cap == 0 {
        return Err(RejectionLimitExceeded(0));
      }
      var bits := BitLen(upper - 1);
      BitsOfPower(upper);
      PowerOfTwoReduces(words(0), bits);
      var index := if upper == 1 then 0 else words(0) / Pow2(64 - bits);
      return Ok(ProbeIndex(index, 1));
    }
    r := ReduceProbeWords(words, upper, cap);
  }

  lemma BitsOfPower(upper: nat)
    requires 0 < upper < USIZE_LIMIT
    ensures BitLen(upper - 1) <= 64
    ensures upper == 1 ==> BitLen(upper - 1) == 0 && forall w: Word64 :: w / Pow2(64) == 0
  {
    CeilLog2IsLeast(upper, 64);
    Pow2Of64();
    if upper == 1 {
      forall w: Word64 ensures w / Pow2(64) == 0 {
        QuotientIs(w, USIZE_LIMIT, 0, w);
      }
    }
  }

  /** A Funnel range with its threshold computed once. */
  datatype PreparedRange = PreparedRange(upper: nat, threshold: nat)

  method PrepareRange(upper: nat) returns (r: Result<PreparedRange, RangeError>)
    requires upper < USIZE_LIMIT
    ensures r == if upper == 0 then Err(ZeroUpperBound) else Ok(PreparedRange(upper, Threshold(upper)))
  {
    if upper == 0 {
      return Err(ZeroUpperBound);
    }
    ThresholdIsWrappedNegation(upper);
    return Ok(PreparedRange(upper, (USIZE_LIMIT - upper) % upper));
  }

  /** `unbiased_prepared_funnel_probe_index_in_range`: one try inline, retries out of line. It equals
      the generic reduction for every cap a retry byte encodes. */
  method FunnelProbeIndex(words: nat -> Word64, range: PreparedRange, cap: nat)
      returns (r: Result<ProbeIndex, RangeError>)
    requires 0 < range.upper < USIZE_LIMIT && range.threshold == Threshold(range.upper)
    ensures cap > 256 ==> r == Err(RejectionLimitExceeded(0))
    ensures cap <= 256 ==> r == Reduce(words, range.upper, 0, cap)
  {
    if cap == 0 || cap - 1 > 255 {
      return Err(RejectionLimitExceeded(0));
    }
    var product := words(0) * range.upper;
    if product % USIZE_LIMIT >= range.threshold {
      return Ok(ProbeIndex(product / USIZE_LIMIT, 1));
    }
    r := FunnelRetries(words, range, cap - 1);
  }

  method FunnelRetries(words: nat -> Word64, range: PreparedRange, lastRetry: nat)
      returns (r: Result<ProbeIndex, RangeError>)
    requires 0 < range.upper < USIZE_LIMIT && range.threshold == Threshold(range.upper)
    ensures r == Reduce(words, range.upper, 1, lastRetry + 1)
  {
    var retry := 1;
    while retry <= lastRetry
      invariant 1 <= retry <= lastRetry + 1
      invariant Reduce(words, range.upper, 1, lastRetry + 1) == Reduce(words, range.upper, retry, lastRetry + 1)
    {
      var product := words(retry) * range.upper;
      if product % USIZE_LIMIT >= range.threshold {
        return Ok(ProbeIndex(product / USIZE_LIMIT, retry + 1));
      }
      retry := retry + 1;
    }
    return Err(RejectionLimitExceeded(lastRetry + 1));
  }
}
