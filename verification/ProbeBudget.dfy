/** The conservative dyadic probe budget of one Elastic level. */
module ProbeBudget {
  import opened Arith
  import opened Wrappers

  datatype BudgetError = InvalidFreeSlots | ZeroConstant | Overflow

  /** Least exponent `k` with `level <= free * 2^k`. */
  ghost predicate IsLogRatio(free: nat, level: nat, k: nat)
  {
    level <= free * Pow2(k) && forall j: nat :: level <= free * Pow2(j) ==> k <= j
  }

  function Least(a: nat, b: nat): nat
  {
    if a < b then a else b
  }

  /** `elastic_dyadic_probe_budget`: `c * min(k^2, d)` for the least `k` with `level <= free * 2^k`,
      found without floating point; an error exactly on invalid input or overflow. */
  method ElasticDyadicProbeBudget(free: nat, level: nat, d: nat, c: nat)
      returns (r: Result<nat, BudgetError>, ghost k: nat)
    requires level < USIZE_LIMIT && d < USIZE_LIMIT && c < USIZE_LIMIT
    ensures r == Err(InvalidFreeSlots) <==> free == 0 || free > level
    ensures r == Err(ZeroConstant) <==> 0 < free <= level && c == 0
    ensures 0 < free <= level && c > 0 ==> IsLogRatio(free, level, k)
    ensures 0 < free <= level && c > 0 ==>
              r == if c * Least(k * k, d) < USIZE_LIMIT then Ok(c * Least(k * k, d)) else Err(Overflow)
  {
    k := 0;
    if free == 0 || free > level {
      return Err(InvalidFreeSlots), 0;
    }
    if c == 0 {
      return Err(ZeroConstant), 0;
    }
    var quotient := level / free;
    var ratioCeiling := if level % free == 0 then quotient else quotient + 1;
    RatioAtLeastOne(level, free);
    var logCeiling := BitLen(ratioCeiling - 1);
    k := logCeiling;
    RatioLog(free, level, ratioCeiling, logCeiling);
    LogSmall(ratioCeiling, logCeiling);
    var logSquared := logCeiling * logCeiling;
    var capped := if logSquared < d then logSquared else d;
    var budget := c * capped;
    return if budget < USIZE_LIMIT then Ok(budget) else Err(Overflow), k;
  }

  lemma RatioAtLeastOne(level: nat, free: nat)
    requires 0 < free <= level
    ensures level / free >= 1 && CeilDiv(level, free) >= 1 && CeilDiv(level, free) <= level
  {
    QuotientAtLeast(level, free, 1);
    MulAtMost(level, 1, free);
    assert free * level == level * free;
    CeilDivAtMost(level, free, level);
  }

  /** The bit length of the rounded-up ratio less one is the least dyadic exponent covering it. */
  lemma RatioLog(free: nat, level: nat, ratio: nat, k: nat)
    requires 0 < free <= level && ratio == CeilDiv(level, free) >= 1 && k == BitLen(ratio - 1)
    ensures IsLogRatio(free, level, k)
  {
    assert k == CeilLog2(ratio);
    forall j: nat ensures level <= free * Pow2(j) <==> k <= j {
      CeilDivAtMost(level, free, Pow2(j));
      CeilLog2IsLeast(ratio, j);
    }
  }

  /** The squared logarithm of a 64-bit ratio cannot overflow. */
  lemma LogSmall(ratio: nat, k: nat)
    requires 1 <= ratio < USIZE_LIMIT && k == BitLen(ratio - 1)
    ensures k <= 64 && k * k <= 4096
  {
    CeilLog2IsLeast(ratio, 64);
    Pow2Of64();
    MulAtMost(k, k, 64);
  }
}
