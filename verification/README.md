# opthash verification model

opthash is a hash map over two open-addressing constructions, Funnel and Elastic, extended with
deletion, growth, a Bloom-style membership filter with per-level summaries, deferred cleanup and
recovery rebuilds. This project models both tables, the exact finite geometry and probe arithmetic
under them, and the greedy group-probing control table of the benchmark harness, and proves that the
accelerators never change an answer.

`dafny verify dfyconfig.toml` verifies everything (Dafny 4.11).

## What is modelled

- **Geometry.** `BucketCounts` (feasible bucket counts, the two binary searches, the greedy iterator),
  `SpecialLayout` (the residue-cycle-bounded special-array search), `FunnelPlan` (plan, layout, least
  slot count for a budget), `Capacity` (reserve arithmetic and its inverse), `ElasticPlan`,
  `ElasticGeometry` (halving levels, capped batch quotas).
- **Probe arithmetic.** `QueryPosition` and `QueryPositionWords` (the self-delimiting position code, its
  inverse and its constant-time encoder), `RangeReduction` (multiply-high with rejection), `Counters`
  (counter packing, the keyed permutation and its inverse), `ProbeBudget`, `Words` (64-bit words as
  numbers), `HashRouting` (the real routing, shown to meet what the table proofs assume), `ProbeStreams` (no
  two draws of a key share a random word, no two reseedings a seed), `FilterWords` (the filter's 64-bit words
  as the sets the table proofs use). `GoldenWords` works out probe words and filter slots at literal inputs:
  what the Elastic run below needs, and the vectors the repository's tests pin, a check on the transcription
  of the constants.
- **Control bytes.** `Swar` (eight lanes per word), `BitMasks` (stepping through a match mask at one bit
  and at one byte per lane), `Controls`, `BucketScan` (bucket scans against the in-order scalar scan),
  `Cursor` (the occupied-slot cursor).
- **Funnel.** `FunnelWalk` (one key's walk, leg by leg), `FunnelState` (the invariant on values),
  `FunnelSearch` (placement walk, exact search, level-masked lookup), `FunnelTable` (the object),
  `FunnelExtraction` (scans and `extract_if`), `FunnelReference` (the scalar table and the traces on which
  both agree slot by slot), `FunnelUnwind` (the run on which a refresh loses a key).
- **Elastic.** `ElasticSchedule` (the incrementally extended lookup schedule), `ElasticBatches` (the
  scheduler and the occupancy of insert-only epochs), `ElasticState`, `ElasticPlacement` (where a key is
  placed, on values: each target's choice, the order of the targets, a rebuild entry by entry),
  `ElasticTable`, `ElasticEpoch`,
  `ElasticExtraction`, `ElasticReference` (the scalar table of the paper's rules, its traces, and its lookup
  over all query positions), `ElasticUnwind`.
- **Group probing.** `TriangularProbe`, `GroupProbe`.
- `Store`, `Membership` and `RemovalScan` hold what both tables share; `Arith` and `Wrappers` are support.

## How it is modelled

- Each table is a class with arrays updated in place and a ghost map from keys to slots. `M()` is the map
  it stands for. `Sound()` says that entries are in place: every live key has one slot, counters are
  exact, and, unless the epoch placed something outside its funnel or routes, the key's own walk meets
  no EMPTY before the slot (Funnel), or some reachable route of the key leads to it (Elastic).
  `Valid()` adds what lookups need of the filter, no more and no less: `InvIffLookupsAgree` shows that a
  sound table is valid exactly when every lookup agrees with a full scan. `Recording()` is the stronger
  state of a table whose filter was never cut short: every live key's bits and level bit are there, so the
  filter rejects only absent keys. Every operation keeps it.
- Key hashing, filter location and probe choice are uninterpreted, with the assumption only that they
  are functions, stay in range when they answer, and give proper fingerprints. A probe choice may fail
  (its bounded rejection sampling runs out of words), and every search handles it. `HashRouting` shows
  that the routing the program runs is an instance.
- The user's hasher may panic during a rebuild or a filter refresh, and a value's drop during a clear.
  Operations take as parameters how many keys the hasher survives, `hashes`, and how many drops, `drops`, so
  their contracts say exactly when they complete, and with which state they do not. The hash of the
  operation's own key is not among `hashes`.
- What a rebuild leaves is stated as a fold over the old table's live slots in slot order: `Rebuilt` writes
  each entry into what was built so far, at the first free slot of its walk (Funnel) or the slot its active
  target chooses (Elastic), and at the first free slot of the table if there is none. `Inserts` states an
  insertion the same way, for growth, recovery and placement together. Neither names the method that does it.
- `usize` is 64 bits wide. Saturation, checked overflow and wrap-around are written out; `& (slots - 1)`
  on a power-of-two table is the remainder.
- Control bytes are a datatype with a proved encoding; groups are the portable eight-byte words.

## Where the code falls short of its contract

Both tables promise that a lookup finds every stored key. A filter refresh (`refresh_membership`, reached
from a removal or from the end of a bulk removal once more keys have departed than the table has
insertion room) clears the filter before it re-hashes the live keys. If the user's hasher panics inside it,
the keys it had not come to are still stored, but the filter knows of them only what other keys recorded.

- When it breaks: `RefreshMeaning` of `FunnelState` and `ElasticState`. After a refresh that came as far as
  slot `stop`, every lookup still agrees with a full scan if and only if `Covered(before, stop)`, a condition
  on the table before the refresh: each live key at or past `stop` has all its filter bits among those that
  keys ahead of `stop` set in the same word, and, unless the epoch is exceptional, one of those keys has its
  word, bin and level bit. Elastic needs no cover for a key that level zero's first probe finds, and a route
  on the recorded levels whose draw fails leads the lookup into a full scan. `AdmittedIffCovered` and
  `FindableIffCovered` say the same key by key, `Find` returns exactly the covered keys, and
  `SettleAfterDeletes`, `Remove`, `FinishDeferredRemovals`, `NextMatching` and `Drop` report the slot at which
  they were cut and are valid afterwards if and only if the condition held.
- That it breaks: `FunnelUnwind.FunnelLosesKey` and `ElasticUnwind.ElasticLosesKey` build a table with
  `try_with_insert_budget`, store one key, insert and remove another until a refresh is due, let the hasher
  panic on the first key, and look the stored key up: it is in the map and not found. Both run on the
  program's own filter location and probe choice; the caller's part is two keys and a hasher that sends both
  to one number. `LoseKey` is the same run for every environment, from any table that `Churning` describes:
  valid, in an ordinary epoch, holding the one key, with a free slot ready for the other, no tombstone but that
  slot's own, and room for two entries (Funnel) or for three on level zero in the first batch (Elastic).
- What it leads to: `Insert`. Inserting a stored key that the filter has lost writes it a second time, exactly
  when the gate rejects it (Funnel) or the lookup misses it (Elastic), wherever a new key would have gone:
  its walk or active target, a fallback, or a table grown or rebuilt for it. `FunnelStoresTwice` and
  `ElasticStoresTwice` carry the two runs on to tables with two live entries for one key.
- Outside that family the promise holds. Every operation is specified on sound tables: it keeps entries in
  place, and keeps the table valid if it was. Whatever re-records every live key restores a table that
  was cut short: a refresh that completes, and a growth, shrink, reseed or cleanup that does, since a rebuild
  reads the slots and not the filter.

## Model

| member | source | states |
|---|---|---|
| BucketCounts.StepIsRange | src/exact/geometry.rs:602-612 | the two closed forms bound exactly the successors within one of three quarters: a count obeys `-4 <= 4*next - 3*current <= 4` and is positive iff it lies between them |
| BucketCounts.PathSumBounds | src/exact/geometry.rs:570-599 | every legal run of bucket counts sums to a value between the two oracle sums of its first count |
| BucketCounts.IntervalsTouch | src/exact/geometry.rs:440-443 | the sum intervals of two consecutive first counts leave no integer between them, for every level count (the source checks this only on small cases) |
| BucketCounts.FeasibleTotals | src/exact/geometry.rs:440-443 | a total has a feasible first count iff it is at least one bucket per level |
| BucketCounts.MinimumPathSumAtMost | src/exact/geometry.rs:570-584 | decides, with its early exit, whether the least path sum of a first count stays within a target |
| BucketCounts.MaximumPathSumAtLeast | src/exact/geometry.rs:586-600 | decides, with its early exit, whether the greatest path sum reaches a target |
| BucketCounts.LowestFirst | src/exact/geometry.rs:499-555 | the first binary search returns the exact lower end of the first counts whose greatest path reaches the total |
| BucketCounts.HighestFirst | src/exact/geometry.rs:499-555 | the second binary search returns the exact upper end of the first counts whose least path stays within the total |
| BucketCounts.RangeIsExact | src/exact/geometry.rs:499-555 | the two ends delimit exactly the feasible first counts, and there is at least one whenever the total covers the levels |
| BucketCounts.ClampIsNearest | src/exact/geometry.rs:499-555 | clamping `total / 4` to the feasible range is the feasible count nearest a quarter of the total, the smaller on a tie |
| BucketCounts.NearestFeasibleFirstCount | src/exact/geometry.rs:499-555 | succeeds iff the total is at least the level count, with the feasible first count nearest `total / 4` |
| BucketCounts.SelectLargestFeasibleNext | src/exact/geometry.rs:557-568 | finds the largest legal successor from which the remaining sum is still reachable, and one always exists |
| BucketCounts.GreedyIsPath | src/exact/geometry.rs:319-335 | the greedy counts number exactly the levels, are positive and non-increasing, obey the three-quarters rule and sum to the total |
| BucketCounts.GreedyIsLargest | src/exact/geometry.rs:319-335 | among all legal counts with the same first count, length and sum, the greedy ones are lexicographically largest |
| BucketCounts.FunnelBucketCounts.Next | src/exact/geometry.rs:322-335 | the iterator yields the greedy counts one by one and then stops |
| BucketCounts.YieldsExactly | src/exact/geometry.rs:542-555 | the closing consistency check always holds for a feasible first count |
| SpecialLayout.ShortcutsAreExact | src/exact/geometry.rs:616-649 | the wide-exponent shortcuts equal the exact power-of-two quotients for every `usize` |
| SpecialLayout.GreatestCommonDivisor | src/exact/geometry.rs:490-497 | the Euclid loop returns a positive common divisor of both inputs |
| SpecialLayout.ResidueCycle | src/exact/geometry.rs:432-488 | whether the special array has whole fallback buckets repeats with the residue cycle of main lengths |
| SpecialLayout.NoFitBeyondCycle | src/exact/geometry.rs:432-488 | if no main length of one cycle fits, none does, so bounding the search by the cycle loses nothing |
| SpecialLayout.SearchResidueCycle | src/exact/geometry.rs:432-488 | finds the least acceptable main length, or reports none exactly when none exists at all |
| SpecialLayout.LargestCompatibleSpecialLayout | src/exact/geometry.rs:432-488 | succeeds iff some special length in the interval leaves whole ordinary and whole fallback buckets, and returns the largest such length with a feasible first count |
| FunnelPlan.MakePlan | src/exact/geometry.rs:22-113 | a plan exists iff, with at least two slots and an exponent of at least three, some special length `s` has `n <= s * 2^(d+1)` and `s * 2^(d+2) <= 3 * n` and leaves at least `4 * d + 10` whole ordinary buckets of `2 * d` slots and whole fallback buckets; it takes the largest such `s`; otherwise the exact error |
| FunnelPlan.CompatibleIsPaper | src/exact/geometry.rs:83-106 | the lengths the search accepts, between its two rounded bounds, are exactly those the inequalities of the paper admit |
| FunnelPlan.PlanNumbers | src/exact/geometry.rs:22-113 | in numbers, without the search's own bounds: a plan's special length meets both inequalities, no larger one does and fits, and its fallback buckets are twice the least `l` with `n <= 2^(2^l)` wide |
| FunnelPlan.SpecialHoldsTwoBuckets | src/exact/geometry.rs:413-430 | a compatible special length implies the fixed-point bound, so slot counts below a fixed point have no plan |
| FunnelPlan.FunnelMinimumSlots | src/exact/geometry.rs:417-430 | returns the least fixed point of the special-array bound at or above the start, `None` iff no `usize` is one |
| FunnelPlan.LayLevels | src/funnel.rs:102-162 | the levels carry exactly the greedy bucket counts, tile the front of the table without gap, and use up the main slots |
| FunnelPlan.ShapeIsValid | src/funnel.rs:102-162 | levels, primary array and whole fallback buckets tile the table exactly, so every bucket read is in bounds |
| FunnelPlan.FromSlots | src/funnel.rs:102-162 | succeeds iff the finite plan exists; the shape is the plan laid out |
| FunnelPlan.BudgetFloor | src/funnel.rs:164-199 | the capacity inverse and the least ordinary area skip only slot counts that cannot hold the request |
| FunnelPlan.FixedPointFloor | src/funnel.rs:164-199 | the fixed-point jump skips only slot counts without a geometry |
| FunnelPlan.ForInsertBudget | src/funnel.rs:164-199 | the least slot count that has a geometry, by the inequalities of `MakePlan`, and a sufficient insertion budget; `None` iff no `usize` has both |
| Capacity.ExactCapacityFor | src/capacity.rs:25-34 | the least slot count whose insertion limit reaches the request, `None` iff it is not representable |
| Capacity.CapacityInverse | src/capacity.rs:25-34 | the closed form inverts `n - floor(n / 2^d) >= needed` in both directions |
| Capacity.CapacityFor | src/capacity.rs:12-18 | the first doubling of the start whose limit reaches the request, none earlier; `None` iff doubling overflows first |
| Capacity.FirstIsLeast | src/capacity.rs:12-18 | the first sufficient doubling is the least of all sufficient doublings |
| Capacity.CleanupThresholdBounds | src/capacity.rs:37-42 | the threshold is the largest count within half the slots plus four groups and within three quarters of them, or half if that is larger; so it lies between half and three quarters |
| Arith.CeilLog2IsLeast | src/exact/geometry.rs:661-667 | the leading-zeros formula is the least exponent whose power of two reaches the value |
| ElasticPlan.LevelGeometry | src/exact/geometry.rs:346-372 | every table of at least two slots has exactly `ceil(log2 n)` positive levels that sum to `n`, each within one of half the previous |
| ElasticPlan.LevelLengths.Next | src/exact/geometry.rs:354-367 | the iterator yields those lengths in order and then stops |
| ElasticPlan.QuotaNeverUnderflows | src/exact/geometry.rs:385-403 | neither subtraction of the quota formula can underflow |
| ElasticPlan.QuotasSpendBudget | src/exact/geometry.rs:385-403 | the capped batch quotas number one per level and sum to exactly `n - floor(delta * n)` |
| ElasticPlan.BatchQuotas.Next | src/exact/geometry.rs:388-403 | the iterator yields the capped quotas in order and spends the remaining budget |
| QueryPosition.CodeParses | src/exact/probe.rs:611-650 | the marker-pair code is self-delimiting: it parses back into the digits of its two coordinates |
| QueryPosition.PhiInjective | src/exact/probe.rs:611-650 | distinct positive coordinates have distinct query positions |
| QueryPosition.PhiIncreases | src/exact/probe.rs:611-650 | positions strictly increase along the probes of one level |
| QueryPosition.PhiBound | src/exact/probe.rs:611-650 | every position is below `16 * i * j^2` |
| QueryPosition.ElasticPhi | src/exact/probe.rs:611-650 | answers with the position iff it fits 128 bits, and names the zero coordinate or the overflow otherwise |
| QueryPosition.ElasticPhiInverse | src/exact/probe.rs:691-727 | returns the coordinates iff some positive coordinates have that position, and then the only such pair |
| QueryPositionWords.BoundedIsPhi | src/exact/probe.rs:662-681 | wherever the constant-time encoder answers, its word is the query position |
| QueryPositionWords.BoundedDeclines | src/exact/probe.rs:662-681 | it declines exactly zero coordinates, probes past 16 bits, and the positions that need a 65th bit |
| QueryPositionWords.PairsWordIsPairs | src/exact/probe.rs:653-658 | bit spreading with the marker mask stands for the marked digits of the probe |
| RangeReduction.ThresholdIsWrappedNegation | src/exact/probe.rs:365-376 | the wrapped negation reduced by the bound is `2^64 mod upper` |
| RangeReduction.ReduceProbeWords | src/exact/probe.rs:545-570 | the loop computes the reduction of the first accepted word, and fails iff the bound is zero or the word cap runs out |
| RangeReduction.ReduceMeaning | src/exact/probe.rs:545-570 | the index is the high half of the first accepted word, lies below the bound, and every earlier word was rejected |
| RangeReduction.ExactlyUniform | src/exact/probe.rs:545-570 | for every bound, each index has exactly `floor(2^64 / upper)` accepted words |
| RangeReduction.PowerOfTwoReduces | src/exact/probe.rs:437-472 | a power-of-two bound rejects no word and keeps its top bits, so the shift equals the generic reduction |
| RangeReduction.ElasticProbeIndex | src/exact/probe.rs:439-469 | the fast path equals the generic reduction for every word cap the counter encodes, and refuses the others |
| RangeReduction.FunnelProbeIndex | src/exact/probe.rs:473-500 | the inline first try and the out-of-line retries equal the generic reduction on the prepared range |
| RangeReduction.PrepareRange | src/exact/probe.rs:357-377 | preparing a range computes its rejection threshold once and fails iff the bound is zero |
| ProbeBudget.ElasticDyadicProbeBudget | src/exact/probe.rs:774-812 | the budget is `c * min(k^2, d)` for the least `k` with `level <= free * 2^k`; each error has its exact condition |
| Counters.ElasticPackingInjective | src/exact/probe.rs:287-318 | within the checked limits no two (level, probe, retry) tuples share a counter, and the level is read back |
| Counters.ElasticRetryBase | src/exact/probe.rs:303-307 | a retry counter is its base with low bits set, so retries stay inside one logical probe |
| Counters.FunnelPackingInjective | src/exact/probe.rs:320-338 | within the checked limits no two (domain, probe, retry) tuples share a counter |
| Counters.FoldsInjective | src/exact/probe.rs:814-818 | each shift-and-xor step keeps distinct words distinct |
| Counters.MultiplierInjective | src/exact/probe.rs:814-818 | multiplying by either odd constant keeps distinct words distinct |
| Counters.MixInjective | src/exact/probe.rs:814-818 | `mix64` never sends two 64-bit words to one |
| Counters.MixRoundTrips | src/exact/probe.rs:814-818 | `mix64` is a bijection of the 64-bit words: a word-level inverse undoes it and is undone by it, on every word |
| Counters.ElasticWordsDistinct | src/exact/probe.rs:213-231 | for a fixed key, distinct (level, probe, retry) tuples always give distinct probe words |
| Counters.FunnelWordsDistinct | src/exact/probe.rs:256-261 | for a fixed key and seed, distinct (domain, probe, retry) tuples always give distinct probe words |
| GoldenWords.ElasticVectors | src/exact/probe/tests.rs:91-119 | the four counters and 64-bit words the repository pins for the Elastic permutation are the model's, digit by digit |
| GoldenWords.FunnelVectors | src/exact/probe/tests.rs:280-342 | the five counters and 64-bit words it pins for the Funnel permutation, one or two in each domain, are the model's |
| GoldenWords.TwoProbes | src/elastic.rs:1653-1690 | the routing worked out for one hash: on four slots the first two probes of level zero lead to slots 2 and 1 |
| GoldenWords.FilterSlots | src/funnel.rs:1297-1305 | one worked key in each backend: its filter word, filter bits and level bin |
| HashRouting.OneBucketDraws | src/exact/probe.rs:473-500 | for every seed, hash, domain and probe, a draw from a single bucket succeeds on its first word |
| HashRouting.FunnelRoutingSound | src/funnel.rs:815-831 | the real Funnel fingerprint, filter location and rejection-sampled probe choice meet everything the table proofs ask of an environment |
| HashRouting.ElasticRoutingSound | src/elastic.rs:1653-1690 | the real Elastic routing meets everything the table proofs ask of an environment |
| ProbeStreams.FunnelDrawsDistinct | src/exact/probe.rs:256-261 | for one seed and hash, no two (domain, probe, retry) draws within the counter's limits read the same random word, through the table's own routing |
| ProbeStreams.WalkDrawsDistinct | src/funnel.rs:903-1023 | so no two draws of one walk through any table, on two legs or on the two buckets of the last, share a word: the separation the domains exist for |
| ProbeStreams.FunnelSamples | src/funnel.rs:917-923 | worked draws under a new table's seed, one in each domain: the second level, the fourth primary probe, both fallback buckets |
| ProbeStreams.SeedsDistinct | src/funnel.rs:1694-1698 | recovery rebuilds never come back to a seed: any `2^64` successive seeds differ |
| ProbeStreams.ElasticDrawsDistinct | src/exact/probe.rs:213-231 | for one hash, no two (level, probe, retry) draws within the counter's limits read the same random word |
| ProbeStreams.ProbesCount | src/elastic.rs:488-501 | every probe below its level's limit, with its retries, is within those limits |
| ProbeStreams.ElasticSamples | src/elastic.rs:1653-1690 | worked draws at the second and the fourth level |
| Membership.RecordKeeps | src/funnel.rs:1367-1376 | recording a key admits it with its level bit and never drops a key recorded before |
| Membership.RecordReflects | src/funnel.rs:1367-1376 | recording adds exactly the key's mark to what the filter reflects |
| Membership.AdmittedByMarks | src/funnel.rs:1397-1409 | a filter that reflects some keys admits another iff each of its bits is one some of them sets in that word and, where the level matters, one of them has its word, bin and level bit |
| Counters.GateKeeps | src/membership.rs:63-73 | on words: whatever bits two keys set, recording one admits it and keeps the other admitted |
| FilterWords.KeyDigits | src/membership.rs:63-73 | the digits set in a two-field and a three-field membership word are exactly the six-bit fields of the signature |
| FilterWords.PassesIsSubset | src/funnel.rs:1289-1293 | the gate `membership & bits == bits` passes exactly when every digit of the key is a digit of the word |
| FilterWords.FunnelFilterWords | src/funnel.rs:1284-1308 | on 64-bit words Funnel's gate and its recording are exactly inclusion and union of the filter bits the table proofs use |
| FilterWords.ElasticFilterWords | src/elastic.rs:872-930 | the same for Elastic's three-field filter |
| Counters.ExpandedMaskExact | src/elastic.rs:425-428 | testing a level's own bit in the widened mask is testing its saturated summary bit |
| Counters.FlaggedHighWater | src/elastic.rs:46 | the exceptional flag in the top bit never disturbs the high-water mark below it, nor the reverse |
| Swar.OccupiedMaskExact | src/raw/simd.rs:194-205 | no carry crosses a lane: each mask flags exactly the lanes that hold a live, respectively a free, control |
| Swar.EqMaskExact | src/raw/simd.rs:184-192 | the equality mask flags exactly the lanes with the target byte, for every word and target |
| Swar.NextLane | src/raw/bitmask.rs:35-42 | taking the lowest lane of a high-bit mask removes exactly the lowest flagged lane |
| Swar.NextFlagged | src/raw/bitmask.rs:35-52 | clearing the lowest set bit removes exactly the lowest flagged lane of a mask with eight-bit lanes, flagged by their high bit (a group mask) or their low bit (a partial group) |
| BitMasks.LaneOfTrailing | src/raw/bitmask.rs:21-40 | at stride eight `trailing_zeros / 8` is the lowest flagged lane of every non-zero mask |
| BitMasks.LowestDigit | src/raw/bitmask.rs:35-52 | at stride one: the trailing zeros are the lowest flagged lane and clearing the lowest set bit removes exactly it, for every non-zero word, so for sixteen lanes |
| BitMasks.BitMask.Next | src/raw/bitmask.rs:35-52 | at stride one the iterator yields the lowest flagged lane and clears exactly it, and stops iff none is flagged |
| BitMasks.BitMask.FirstBelow | src/raw/bitmask.rs:21-27 | at stride one: the lowest flagged lane if it lies below the limit, `None` iff no lane below it is flagged |
| BitMasks.BitMask.Flag | src/raw/iter.rs:15-31 | at stride one a partial group flags exactly the lane it sets |
| BitMasks.NextByte | src/raw/bitmask.rs:42-46 | with a byte per lane, clearing the byte at the trailing zeros removes exactly the lowest flagged lane and keeps every other lane led by its low bit |
| BucketScan.FirstBelow | src/raw/bitmask.rs:21-27 | the lowest flagged lane below a limit, `None` iff no lane below it is flagged |
| Controls.BytesIdentifyControls | src/raw/control.rs:1-31 | distinct proper controls have distinct bytes, and the free test tells live from free |
| Controls.GroupMasks | src/raw/simd.rs:208-228 | on a loaded group each mask selects exactly the lanes with the control it asks for |
| BucketScan.ScanGroup | src/funnel.rs:394-424 | one masked group gives the hit, first tombstone or first EMPTY of the in-order scalar scan of its logical lanes, whatever bytes follow them |
| BucketScan.ScanBucket | src/funnel.rs:433-514 | the single-group and multi-group scans equal the scalar scan of the bucket |
| BucketScan.ScanCleanGroup | src/funnel.rs:516-548 | the match-first group scan equals the tombstone-blind scalar scan: no match above the first EMPTY is taken |
| BucketScan.ScanCleanBucket | src/funnel.rs:556-591 | the same for a bucket of any length |
| BucketScan.CleanScanAgrees | src/funnel.rs:556-591 | where no tombstone is in range, the clean scan and the general scan agree |
| BucketScan.FirstFreeInBucket | src/funnel.rs:601-615 | the first free slot of the bucket, `None` iff it has none |
| Cursor.OccupiedIndices.Step | src/raw/iter.rs:52-74 | yields the next live slot at or past the cursor and nothing before it, `None` iff none is left, for padded and unpadded regions |
| Cursor.OccupiedIndices.StillValid | src/raw/iter.rs:33-75 | vacating or changing slots already yielded leaves the cursor valid |
| Cursor.LoadPartial | src/raw/iter.rs:15-31 | a partial group reads only the remaining controls and flags exactly their live lanes |
| FunnelWalk.LegSlots | src/funnel.rs:1343-1361 | every slot of a walk lies in the table, and the level bit the walk carries is the one its slot alone yields |
| FunnelState.VacancyUnique | src/funnel.rs:1164-1257 | a walk has at most one vacancy |
| FunnelState.EmptyEndsWalk | src/funnel.rs:1108-1162 | no key is placed on its walk past an EMPTY slot |
| FunnelState.PlacementSurvives | src/funnel.rs:1528-1553 | filling or tombstoning slots never uncovers an EMPTY before a placed key |
| FunnelState.PlaceKeepsInv | src/funnel.rs:1528-1554 | placing an absent key keeps the table invariant and adds exactly that entry |
| FunnelState.VacateKeepsInv | src/funnel.rs:1955-1968 | tombstoning a live slot keeps the invariant for every other key and removes exactly that entry |
| FunnelState.PutMeans | src/funnel.rs:1528-1554 | a written entry, on any table with its entries in place: an absent key joins the map, with the invariant and the filter records kept, and a stored one is then in two live slots |
| FunnelState.ExceptionalIffStray | src/funnel.rs:1646-1661 | a rebuild leaves an exceptional epoch iff some entry, taken in slot order, met a generation in which its walk had no free slot |
| FunnelState.SeatKept | src/raw/rebuild.rs:37-56 | after a rebuild each entry is at the first free slot of its walk in the generation built when its turn came, unless that walk had none |
| FunnelState.SettledIs | src/funnel.rs:1769-1783 | the first free slot of a walk, or of the table without one, is the only place for a key, so what an insertion or rebuild writes is determined |
| FunnelState.AdmittedIffCovered | src/funnel.rs:1397-1409 | right after a refresh stopped by a panicking hasher, a key is admitted iff it was covered before the refresh: each of its filter bits is one an already visited key sets in that word and, unless the epoch is exceptional, an already visited key has its word, bin and level bit |
| FunnelState.RefreshMeaning | src/funnel.rs:1397-1409 | wherever a refresh stops, entries and walks are untouched, and the table invariant holds afterwards iff every key at or past the stop was covered before; a refresh that reaches the end covers all |
| FunnelState.InvIffLookupsAgree | src/funnel.rs:1442-1504 | with every entry in place, the invariant holds iff every lookup returns what a full scan would; absent keys are never found |
| FunnelState.NothingCovered | src/funnel.rs:1397-1409 | an unwind at the first key covers a key iff the epoch is exceptional and the key has no filter bit |
| FunnelState.RoomMeansFree | src/funnel.rs:1523-1526 | below the insertion limit some slot is free |
| FunnelState.RejectedIsAbsent | src/funnel.rs:1317-1337 | the gate rejects only absent keys |
| FunnelState.PresentIsMet | src/funnel.rs:1442-1472 | in an ordinary epoch a present key is met on its own walk, before any EMPTY, iff the levels searched include its own |
| FunnelState.LookupAgrees | src/funnel.rs:1442-1472 | a hit of the level-masked, EMPTY-stopping walk is what a full scan finds, and in an ordinary epoch a stored key is hit iff its level is searched, whatever the filter says |
| FunnelSearch.SearchVacancy | src/funnel.rs:1195-1257 | the placement walk returns the first free slot of the key's walk with its level bit, or shows the walk has none |
| FunnelSearch.SearchExact | src/funnel.rs:903-1023 | in the general and the clean mode: a hit is the key, a vacancy is the first free slot of the walk (the first tombstone if one was passed), and anything but a hit shows the key is not placed |
| FunnelSearch.SearchesAgree | src/funnel.rs:903-1257 | run side by side, an exact search that misses and the placement walk end alike: the same vacancy with the same level bit, or none from either |
| FunnelSearch.LookupRecordedLevels | src/funnel.rs:1037-1062 | the read-only lookup finds a key iff it is met on the walk restricted to recorded levels |
| FunnelSearch.LookupOverflowLevels | src/funnel.rs:1108-1162 | the overflow leg covers every deeper level and the special arrays with the same meaning |
| Store.FullScanFinds | src/funnel.rs:1262-1272 | a full scan finds exactly the keys of the map, each at its one slot |
| Store.LivesAreKeys | src/funnel.rs:1810-1813 | there are exactly as many live slots as keys |
| FunnelTable.Table.FromShape | src/funnel.rs:774-796 | a fresh table is valid, empty, and its filter reflects nothing |
| FunnelTable.WithInsertBudget | src/funnel.rs:798-813 | an empty table whose insertion limit covers the request, on the least geometry that does, or the exact error |
| FunnelTable.Table.Gate | src/funnel.rs:1310-1341 | a key the gate rejects is absent, and a present key's level bit is among the levels it returns, in every table whose filter was not cut short; in general it passes exactly the admitted keys |
| FunnelTable.Table.Find | src/funnel.rs:1442-1504 | in every valid state returns the slot a full scan would, which is the key's, iff the key is in the map; after an interrupted refresh it misses exactly the stored keys that are not admitted |
| FunnelTable.Table.FirstFreeGlobal | src/funnel.rs:1523-1526 | ends at the first free slot of the table |
| FunnelTable.Table.PlaceNewEntry | src/funnel.rs:1528-1554 | keeps validity, binds the key, and moves each counter by exactly what the slot was |
| FunnelTable.Table.SearchDuplicate | src/funnel.rs:855-901 | hits iff the key is present; otherwise reports the vacancy of its walk |
| FunnelTable.Table.PlaceAbsentAfterSearch | src/funnel.rs:1591-1627 | places at the vacancy; an exhausted walk in an ordinary epoch first rebuilds under a new seed, and only a second exhaustion leaves the funnel, for the first free slot of the table; it unwinds iff that rebuild is due and the hasher does not survive the entries, and then changes nothing; `mid`, the table just before the write, is the table itself or that rebuild of it |
| FunnelTable.Table.RebuildForPlacement | src/funnel.rs:1634-1639 | the same map at the same size, rebuilt entry by entry under the next seed, with a fresh vacancy for the key and a filter of exactly the live keys, or no change; it completes iff the hasher survives the entries |
| FunnelTable.Table.PrepareVacantInsert | src/funnel.rs:1569-1589 | grows iff the limit is reached, keeps the map, leaves room, and a growth restores a filter that had lost keys; it fails iff growth is due and no larger table exists or the hasher does not survive the entries |
| FunnelTable.Table.NextGrowthSlots | src/funnel.rs:1556-1564 | the least slot count that holds twice the budget and the entries needed |
| FunnelTable.Table.Insert | src/funnel.rs:1907-1943 | on a valid table the map becomes the old one with the key bound, or is unchanged after an unwind; a replaced value is returned iff the key was present; a new key goes to the first free slot of its walk, with nothing else changed, unless the table must grow or the walk has none. `Inserts` states every case: it unwinds iff growth is due and either no larger table exists or the hasher does not survive the entries, or then a reseeding is due that the hasher does not survive; otherwise the key is placed in the table as growth and reseeding rebuilt it, at the first free slot of its walk, or of the table without one. On a table whose filter has lost keys: a stored key is replaced iff the filter passes it; one it rejects is written a second time, at the first free slot of its walk, or after the growth or rebuild a new key would have caused, so two live slots hold it and no slot map makes the table sound; an absent key joins the map |
| FunnelTable.Table.InsertSearched | src/funnel.rs:1928-1942 | a key not found goes to the vacancy its search found, unless the table grew or the walk has none; what precedes the write only carries the same entries along |
| FunnelTable.Table.FindForEntry | src/funnel.rs:1869-1887 | the key's slot iff the key is stored and not rejected by the filter, or a token that truly describes the failed search |
| FunnelTable.Table.InsertForVacant | src/funnel.rs:1666-1672 | inserting with such a token binds the key and returns its slot, or changes nothing, by the cases of `Insert`; a stored key that the search missed is written a second time |
| FunnelTable.Table.Extract | src/funnel.rs:1961-1968 | removes exactly the entry of that slot and returns it, whatever the filter has lost |
| FunnelTable.Table.Remove | src/funnel.rs:1945-1953 | the key leaves the map and nothing else does, whether or not the cleanup behind it completes, which it does iff none is due or the hasher survives the entries left; tombstones and counted deletes end within their thresholds iff it does; a cleanup or refresh that completes leaves the table valid even if it was not; only an unwind out of the filter refresh can take validity away, and the table is then valid iff the keys before that point cover the rest |
| FunnelTable.Table.SettleAfterDeletes | src/funnel.rs:1414-1420 | cleanup or refresh never changes the map, and completes, with tombstones and counted deletes within their thresholds, iff neither is due or the hasher survives the entries; whichever ran to completion leaves the table valid; an unwind out of the cleanup changes nothing, one out of the refresh leaves a filter of exactly the keys before that slot, and the table valid iff they cover the rest |
| FunnelTable.Table.RefreshMembership | src/funnel.rs:1397-1409 | with a hasher that panics after so many keys: nothing but the filter changes; it completes iff the keys are few enough, with a filter of exactly the live keys, and otherwise leaves one of exactly the keys before the panic, valid iff they cover the rest |
| FunnelUnwind.LoseKey | src/funnel.rs:1395-1420 | the failing family run: in any table that has room for two and a positive cleanup threshold, holds one key, has a free slot on another key's walk, is in an ordinary epoch, has no tombstone but that slot's own and no delete counted, inserting and removing the other key until a refresh is due and panicking on the first key leaves a table that holds its key and does not find it |
| FunnelUnwind.FunnelLosesKey | src/funnel.rs:1395-1420 | a concrete run of it on the program's own filter and probe routing, from `try_with_insert_budget` for two entries and a hasher that sends every key to zero: the map is `true -> 0` and `find(true)` returns nothing |
| FunnelUnwind.FunnelStoresTwice | src/funnel.rs:1907-1943 | the run carried on: inserting the lost key again leaves `true -> 0` and `true -> 1` in two live slots |
| FunnelTable.Table.TryResizeTo | src/funnel.rs:1684-1717 | all or nothing: it completes iff the hasher survives the entries, and an unwind restores the table exactly; otherwise the new generation is the old live slots settled one by one in slot order, with the same entries, no tombstones, a filter of exactly the live keys, and an exceptional epoch iff some entry's walk had no free slot when its turn came |
| FunnelTable.Table.MoveAll | src/raw/rebuild.rs:37-56 | every entry of the old generation is moved once, in slot order, into what was built before it; it stops iff the hasher does not survive the entries |
| FunnelTable.Table.PlaceUnique | src/funnel.rs:1769-1783 | places an absent key during a rebuild at the first free slot of its walk, or of the table if the walk has none, which marks the epoch |
| FunnelTable.Table.ResizeWithTransition | src/funnel.rs:1674-1682 | a rebuild at another slot count keeps the map; it completes iff the hasher survives the entries, and leaves the table valid and rebuilt entry by entry |
| FunnelTable.Table.GrowForNextInsert | src/funnel.rs:1580-1589 | grows to the least table that holds the growth request; it fails iff there is none or the hasher does not survive the entries, and then changes nothing |
| FunnelTable.Table.Reserve | src/map.rs:185-193 | afterwards the limit covers the additional entries; it grows only if it must, to the least count that holds the growth request; it fails iff it must and no such count exists or the hasher does not survive the entries, and then changes nothing; the map never changes |
| FunnelTable.Table.ShrinkTo | src/funnel.rs:2044-2058 | keeps every entry and the room asked for, and lands on the least slot count that does; it fails iff no count does, or a smaller one does and the hasher does not survive the entries, and then changes nothing |
| FunnelTable.Table.Clear | src/funnel.rs:2064-2080 | completes iff nothing needs a drop or every drop survives, and then the map is empty and the table valid whatever its filter had lost; cut at a panicking drop, exactly the entries up to and including that one have left |
| FunnelTable.Table.WipeAll | src/funnel.rs:2082-2087 | after a drain, controls, filter and counters reset to an empty table |
| RemovalScan.LiveSlotsExact | src/raw/iter.rs:33-75 | the scan sequence lists exactly the live slots, each once and ascending |
| FunnelExtraction.TableScan.Next | src/funnel.rs:1989-2010 | dense and sparse modes take the next slot of that same sequence |
| FunnelExtraction.ExtractScan.NextMatching | src/map.rs:1520-1549 | judges the entries it meets in slot order with one predicate call each, the calls numbered without gap, removes and returns the next one accepted and keeps every entry passed over; at the end tombstones and counted deletes are within their thresholds iff the deferred cleanup completed, which it does iff none is due or the hasher survives the entries left; an unwind out of its refresh keeps the map and is reported with the slot it reached |
| FunnelExtraction.ExtractScan.Drop | src/map.rs:1565-1572 | dropping the scan early keeps the unvisited entries and runs the deferred cleanup: tombstones and counted deletes end within their thresholds iff it completes, which it does iff none is due or the hasher survives the entries left, with the same report of an interrupted refresh |
| RemovalScan.YieldedIsNext | src/map.rs:1520-1549 | over any table's slots: the entry a scan yields is the next one in slot order after exactly the entries judged so far, so the judgement order grows by it and by nothing else |
| RemovalScan.AllJudged | src/map.rs:1520-1549 | a finished scan has judged every entry, so the map left is the one the verdicts describe |
| ElasticExtraction.LevelScan.Next | src/elastic.rs:1317-1327 | the cursors of the levels in turn take the next slot of the one sequence of live slots over the whole arena |
| ElasticExtraction.ExtractScan.NextMatching | src/map.rs:1520-1549 | the same over Elastic: one numbered predicate call per entry met, level by level in slot order, exactly the accepted entries removed; at the end every level is within its cleanup threshold iff the deferred cleanup completed, which it does iff none is due or the hasher survives the entries left, and an interrupted refresh is reported with the map kept |
| ElasticExtraction.ExtractScan.Drop | src/map.rs:1565-1572 | the same over Elastic: unvisited entries stay, and every level's tombstones and the counted deletes end within their thresholds iff the deferred cleanup completes, which it does iff none is due or the hasher survives the entries left |
| FunnelReference.ScalarFunnel.Search | src/exact/reference.rs:439-560 | the scalar walk stops at the first slot that is vacant or holds the key, or shows there is none |
| FunnelReference.ScalarFunnel.Insert | src/exact/reference.rs:562-583 | writes at that vacancy, or reports the duplicate, the spent budget, the full walk or the failed draw |
| FunnelReference.VacancyAgrees | src/funnel.rs:1195-1257 | a scalar vacancy is the first free slot of the table's walk |
| FunnelReference.PresentIsHit | src/funnel.rs:1442-1472 | in an insert-only epoch the scalar walk stops at a present key and nowhere before it |
| FunnelReference.HitIffPresent | src/exact/reference.rs:562-583 | the scalar table reports a duplicate iff the real table holds the key, at the same slot |
| FunnelReference.RefusedForSlot | src/exact/reference.rs:562-583 | a full walk or a failed draw in the scalar table means that the table's walk has no free slot either |
| FunnelReference.InsertBoth | src/exact/reference.rs:562-583 | the scalar table accepts an absent key iff the table has room and a free slot on the key's walk, and then both put it in the same slot |
| FunnelReference.InsertRun | src/funnel.rs:1907-1943 | after any run of insertions into an empty table, for as long as the scalar table takes them, both hold every key in the same slot and the table stands for the run's bindings; the run stops only at an absent key for which the table has no room or no free slot on its walk |
| ElasticBatches.BatchScheduler.Target | src/elastic.rs:574-596 | the cached window always yields the batch the live count alone determines |
| ElasticBatches.BatchScheduler.Sync | src/elastic.rs:598-607 | resynchronizing gives the same window for every jump of the live count |
| ElasticBatches.EndsAreCut | src/elastic.rs:535-572 | running quota totals are the uncapped ones cut off at the budget |
| ElasticBatches.ActiveWindow | src/elastic.rs:574-596 | below the budget the active batch is the one whose uncapped window holds the live count; empty batches are never selected |
| ElasticBatches.OpenBatch | src/exact/reference.rs:155-165 | while a batch is open its two levels are never both low, and the level a low partner forces has room |
| ElasticBatches.FullBatch | src/exact/geometry.rs:385-403 | a full batch leaves its current level with exactly `floor(delta * current / 2)` free slots and its next level with exactly `ceil(3 * next / 4)` entries |
| ElasticBatches.LandingKeepsBatch | src/elastic.rs:1567-1631 | a landing the active target allows keeps the epoch in the shape of a batch |
| ElasticBatches.RunKeepsBatches | src/elastic.rs:1567-1631 | so after any number of landings from empty, the epoch is in the shape of the batch the scheduler selects |
| ElasticBatches.TablePlanIsValid | src/elastic.rs:679-714 | the plan of every Elastic table of at least two slots is one these results cover |
| ElasticEpoch.InsertEpoch | src/elastic.rs:1567-1631 | on the table itself: if every key of a run lands through its active target, the occupancies form such a run and the table stands for the bindings |
| ElasticReference.ScalarElastic.ActiveBatch | src/exact/reference.rs:293-302 | the running totals pick the batch the table's cached scheduler picks, or show the budget spent |
| ElasticReference.ScalarElastic.Insert | src/exact/reference.rs:139-239 | places a new key by the rule its active batch calls for, at a level's first vacancy and an encodable position; each panic of the source is a refusal that changes nothing |
| ElasticReference.ScalarElastic.Query | src/exact/reference.rs:242-287 | walks all query positions in order and stops at the first whose probe leads to the key, or shows that none does |
| ElasticReference.ChoiceAgrees | src/elastic/tests.rs:45-148 | for every occupancy, hash and batch: the level, slot and position the scalar rules choose are the only ones the table can choose for that batch, and it does not miss them |
| ElasticReference.BarrenAgrees | src/elastic/tests.rs:45-148 | where the scalar rules find no slot within reach, the table's target is stuck, or its current level is free first past the probe limit |
| ElasticReference.ChoiceIsWithin | src/elastic/tests.rs:45-148 | a choice of the scalar rules never comes with a current level that is free first past the probe limit |
| ElasticReference.NeverBothLow | src/exact/reference.rs:163-167 | in an insert-only epoch the active pair is never low on both levels, so that panic is unreachable |
| ElasticReference.InsertBoth | src/elastic/tests.rs:45-148 | whatever the scalar table accepts, the table places in the same slot of the same level; if no draw of the key's hash fails, the scalar table accepts an absent key iff there is room, the table's active target is not stuck, and the first free probe of the current level does not lie within the paper's budget but past the level's probe limit, where the table goes on to the next level and the scalar rules refuse |
| ElasticReference.InsertRun | src/elastic/tests.rs:151-163 | after any run of insertions into an empty table of any size, for as long as the scalar table takes them, both hold every key in the same slot and the table stands for the run's bindings; the run never stops for two low levels, nor, if no draw fails, while the table has a slot within reach through its active target |
| ElasticReference.QueryBoth | src/elastic/tests.rs:132-147 | in every such epoch the scalar walk over all positions and the table's lookup find the same slot, no later than the position of any reachable probe that leads there; the walk never misses a stored key unless a draw fails |
| ElasticGeometry.ForSlots | src/elastic.rs:679-714 | the paper's levels and quotas for a slot count, `None` iff it is past the largest table |
| ElasticGeometry.ForInsertBudget | src/elastic.rs:666-677 | the least doubling of the initial capacity with room for the request, no slots for an empty one |
| ElasticGeometry.DoublingGrows | src/elastic.rs:1258-1271 | doubling a table raises its insertion limit |
| ElasticSchedule.LevelProbeLimitExact | src/elastic.rs:488-501 | a probe is below its level's limit iff it is below the search cap and its position below the position cap |
| ElasticSchedule.ProbeScheduleCapacities | src/elastic.rs:475-483 | the precomputed capacity table holds, for each level count, the number of routes those levels have up to the position cap |
| ElasticSchedule.LevelProbeLimits | src/elastic.rs:488-499 | the precomputed limit table holds each level's probe limit |
| ElasticSchedule.ScheduleFits | src/elastic.rs:475-486 | that capacity holds every schedule an epoch can reach |
| ElasticSchedule.FirstPaperProbeAfter | src/elastic.rs:1829-1843 | the binary search returns the least probe whose position lies past the mark |
| ElasticSchedule.PushLevel | src/elastic.rs:449-470 | appends exactly the newly covered probes of one level |
| ElasticSchedule.ExtendProbeSchedule | src/elastic.rs:1110-1146 | afterwards the schedule is exactly the routes up to the larger mark except level zero's first probe, each once, in increasing position order |
| ElasticState.WriteKeepsInv | src/elastic.rs:1083-1108 | writing an absent key into a free slot a scheduled probe leads to keeps the invariant and adds exactly that entry |
| ElasticState.VacateKeepsInv | src/elastic.rs:1283-1300 | vacating a live slot, to a tombstone or to EMPTY, keeps every other key on its route |
| ElasticState.PutMeans | src/elastic.rs:1036-1066 | a written entry, on any table with its entries in place: an absent key joins the map, with the invariant and the filter records kept, and a stored one is then in two live slots |
| ElasticState.FindableIffCovered | src/elastic.rs:1461-1475 | right after a refresh stopped by a panicking hasher, a stored key is found iff it was covered before: its lookup needs no filter, or already visited keys set its bits in its word and their bin has its level bit or leads the lookup into a full scan |
| ElasticState.RefreshMeaning | src/elastic.rs:1461-1475 | wherever a refresh stops, entries and routes are untouched, and the table invariant holds afterwards iff every key at or past the stop was covered before |
| ElasticState.InvIffLookupsAgree | src/elastic.rs:1719-1777 | with every entry in place, the invariant holds iff every lookup returns what a full scan would; absent keys are never found |
| ElasticState.NothingCovered | src/elastic.rs:1461-1475 | an unwind at the first key covers a key iff its lookup needs no filter, or the epoch is exceptional and the key has no filter bit |
| ElasticState.ExtendKeepsInv | src/elastic.rs:1110-1146 | a higher mark with its longer schedule keeps every entry on a route |
| ElasticState.WipeKeepsInv | src/elastic.rs:172-185 | resetting a level without live entries changes no entry |
| ElasticState.PresentIsMet | src/elastic.rs:1719-1777 | in an ordinary epoch a present key is met by a reachable probe if the levels searched include its own |
| ElasticState.MissMeans | src/elastic.rs:1719-1777 | a scheduled walk that missed shows, in an ordinary epoch, that the key is not stored or not on a level searched |
| ElasticState.RejectedIsAbsent | src/elastic.rs:872-894 | the filter rejects only absent keys, in every table whose refresh was not cut short; in any valid table it rejects besides those only keys whose lookup never asks it |
| ElasticPlacement.ChosenNotStuck | src/elastic.rs:1567-1631 | a target that chooses a slot is not stuck: the two outcomes of the choice exclude each other |
| ElasticPlacement.ActiveDecides | src/elastic.rs:997-1032 | the live count has one active batch, which alone decides whether a key goes through it, through another target, or outside its routes |
| ElasticPlacement.OtherDecides | src/elastic.rs:1550-1565 | with the active target stuck, another target with a slot is used before any recovery or exceptional placement |
| ElasticPlacement.ExceptionalIffStray | src/elastic.rs:1912-1923 | a rebuild leaves an exceptional epoch iff some entry, taken in slot order, met a generation in which its active target had no slot |
| ElasticPlacement.SeatKept | src/raw/rebuild.rs:37-56 | where a rebuild seats an entry, it stays |
| ElasticTable.MissedAll | src/elastic.rs:1719-1777 | a lookup that missed the whole schedule and level zero's first probe missed every slot the key could be routed to |
| ElasticTable.Table.FromGeometry | src/elastic.rs:806-832 | a fresh table is valid and empty |
| ElasticTable.WithInsertBudget | src/elastic.rs:849-860 | an empty table on the least doubling of the first allocation that accepts the request, or an error iff no doubling a table can have does |
| ElasticTable.Table.RouteFilter | src/elastic.rs:872-894 | a rejected key is absent, and a present key's level is among the levels returned, in every table whose filter was not cut short; in general it decides findability exactly |
| ElasticTable.Table.Find | src/elastic.rs:1719-1777 | in every valid state, exceptional epochs and failed draws included, returns the location a full scan would, iff the key is in the map; after an interrupted refresh it misses exactly the stored keys that are not findable |
| ElasticTable.Table.UniformVacancy | src/elastic.rs:1633-1640 | the first of a level's leading probes that yields a free slot |
| ElasticTable.Table.CurrentBudget | src/elastic.rs:1595-1612 | the budget of Case 1: the dyadic budget cut off at the level's probe limit |
| ElasticTable.Table.ChooseSlotForNewKey | src/elastic.rs:1567-1631 | a slot on the level the paper's case allows, at its first free probe, with its query position; or shows that none is reachable |
| ElasticTable.Table.ChooseSlotOnOtherTargets | src/elastic.rs:1550-1565 | the slot of the shallowest other target with room that has any, in their order; `None` iff every one of them is stuck |
| ElasticTable.Table.RaiseHighWater | src/elastic.rs:1110-1146 | the table's schedule covers the placement's position and keeps every entry on a route |
| ElasticTable.Table.PlaceNewEntry | src/elastic.rs:1036-1054 | binds a new key, extends the schedule to its position and moves exactly its level's counters; a key that was stored all along is then in two live slots |
| ElasticTable.Table.PlaceOutside | src/elastic.rs:1056-1068 | binds a new key at the first free slot of the table and marks the epoch; a key that was stored all along is then in two live slots |
| ElasticTable.Table.PlaceAfterTargetFailure | src/elastic.rs:1008-1032 | the shallowest other target that has a slot; if none has, the first free slot of the table in an exceptional epoch, and in an ordinary one a rebuild at the same size followed by the active target, or the first free slot if that has none; it unwinds iff the rebuild is due and the hasher does not survive the entries, and then changes nothing; `mid`, the table just before the write, is the table itself or that rebuild of it |
| ElasticTable.Table.InsertForVacant | src/elastic.rs:974-1006 | binds an absent key and returns its location, or changes nothing, by the cases of `Insert`: after growth too the active target is tried first, then the others; a stored key that the lookup missed is written a second time |
| ElasticTable.Table.Insert | src/elastic.rs:1258-1271 | on a valid table the map becomes the old one with the key bound, or is unchanged after an unwind; a replaced value is returned iff the key was present; a new key goes to the slot its active target chooses, with nothing else changed but the schedule, unless the table is full or that target has no reachable slot. `Inserts` states every case: it unwinds iff growth is due and either the table is the largest or the hasher does not survive the entries, or then no target has a slot in an ordinary epoch and the hasher does not survive the recovery; otherwise the key is seated, in the table as growth and recovery rebuilt it, through the active target, else another, else at the first free slot. A hasher that survives the entries twice leaves only one reason to unwind: a full table of the largest size. On a table whose filter has lost keys: a stored key is replaced iff the lookup finds it; one it misses is written a second time, through the active target or any fallback a new key would have taken, so two live slots hold it and no slot map makes the table sound; an absent key joins the map |
| ElasticTable.Table.Extract | src/elastic.rs:1289-1300 | removes exactly the entry of that location and returns it, whatever the filter has lost |
| ElasticTable.Table.Remove | src/elastic.rs:1273-1281 | the key leaves the map and nothing else does, whether or not the cleanup behind it completes, which it does iff none is due or the hasher survives the entries left; a cleanup or refresh that completes leaves the table valid even if it was not; only an unwind out of the filter refresh can take validity away, and the table is then valid iff the keys before that point cover the rest |
| ElasticTable.Table.SettleAfterDeletes | src/elastic.rs:1449-1455 | cleanup or refresh never changes the map, and completes iff neither is due or the hasher survives the entries; whichever ran to completion leaves the table valid; an unwind out of the cleanup changes nothing, one out of the refresh leaves a filter of exactly the keys before that slot, and the table valid iff they cover the rest |
| ElasticTable.Table.FinishDeferredRemovals | src/elastic.rs:1302-1304 | the deferred cleanup keeps the map and completes, with every level and the counted deletes within their thresholds, iff none is due or the hasher survives the entries; an interrupted refresh is reported as in a removal |
| ElasticTable.Table.RefreshMembership | src/elastic.rs:1461-1475 | with a hasher that panics after so many keys: nothing but the filter changes; it completes iff the keys are few enough, with a filter of exactly the live keys, and otherwise leaves one of exactly the keys before the panic, valid iff they cover the rest |
| ElasticUnwind.LoseKey | src/elastic.rs:1458-1478 | the failing family run: in any table whose first batch and level zero have room for three, that holds one key away from its first probe, has another key's first probe free, is in an ordinary epoch, has no tombstone on level zero but that slot's own and no refresh due yet, inserting and removing the other key until a refresh is due and panicking on the first key leaves a table that holds its key and does not find it |
| ElasticUnwind.ElasticLosesKey | src/elastic.rs:1458-1478 | a concrete run of it on the program's own filter and probe routing, from `try_with_insert_budget` for one entry and a hasher that sends every key to one: the map is `true -> 0` and `find(true)` returns nothing |
| ElasticUnwind.ElasticStoresTwice | src/elastic.rs:1258-1271 | the run carried on: inserting the lost key again leaves `true -> 0` and `true -> 1` in two live slots |
| ElasticTable.Table.TryResizeTo | src/elastic.rs:1495-1524 | all or nothing: it completes iff the hasher survives the entries, and an unwind restores the table exactly; otherwise the new generation is the old live slots seated one by one in slot order, with the same entries, no tombstones, a filter of exactly the live keys, and an exceptional epoch iff some entry's active target had no slot when its turn came |
| ElasticTable.Table.PlaceUnique | src/elastic.rs:1912-1923 | places an absent key during a rebuild at the slot its active target chooses, or at the first free slot of the table iff that target has none |
| ElasticTable.Table.Grow | src/elastic.rs:987-995 | doubles the slots, or allocates the first eight, and rebuilds the entries there; it fails iff the table is the largest or the hasher does not survive the entries, and then changes nothing |
| ElasticTable.Table.Reserve | src/map.rs:185-193 | afterwards the limit covers the additional entries; it grows only if it must, to the least sufficient doubling; it fails iff it must and no table is that large or the hasher does not survive the entries, and then changes nothing; the map never changes |
| ElasticTable.Table.ShrinkTo | src/map.rs:210-225 | keeps every entry and the room asked for, never grows, and lands on the least sufficient doubling if that is smaller; it fails iff no doubling suffices, or a smaller one does and the hasher does not survive the entries, and then changes nothing |
| ElasticTable.Table.DrainLevel | src/elastic.rs:172-185 | empties one level; stopped by a panicking drop, exactly the entries up to and including that one have left |
| ElasticTable.Table.Clear | src/elastic.rs:952-972 | completes iff every drop survives, and then the map is empty and the table valid whatever its filter had lost; cut at a panicking drop, exactly the entries up to and including that one have left |
| ElasticTable.Table.WipeAll | src/elastic.rs:1375-1383 | after a drain everything resets to an empty table |
| ElasticTable.Table.EmptyEpochInBatch | src/elastic.rs:964-970 | an empty table is in the shape of the first batch |
| ElasticTable.Table.LandingKeepsEpoch | src/elastic.rs:1567-1631 | a landing of the table keeps its epoch in the shape of a batch |
| TriangularProbe.EveryGroupVisited | benches/harness/src/group_probe.rs:257-277 | on `2^k` groups the first `2^k` triangular probes reach every group |
| TriangularProbe.NoGroupRepeats | benches/harness/src/group_probe.rs:257-277 | and no two of them start at the same group |
| TriangularProbe.EverySlotProbed | benches/harness/src/group_probe.rs:257-277 | for every start and slot, a computed probe before the walk repeats loads a group with that slot in it |
| GroupProbe.MatchTagExact | benches/harness/src/group_probe.rs:103-109 | exactly which lanes the borrow trick flags: the matches, and above a flagged lane those holding the tag with its low bit flipped |
| GroupProbe.TagLanes | benches/harness/src/group_probe.rs:103-109 | no match is missed, and a false flag still stands on an entry, so the key comparison never reads an unfilled slot |
| GroupProbe.EmptyLanes | benches/harness/src/group_probe.rs:111-115 | the empty scan is exact |
| GroupProbe.Lanes.Next | benches/harness/src/group_probe.rs:279-294 | yields the flagged lanes lowest first, each once |
| GroupProbe.Probe.Advance | benches/harness/src/group_probe.rs:272-277 | leads from one group of the triangular walk to the next |
| GroupProbe.WindowLane | benches/harness/src/group_probe.rs:123-125 | with the mirrored tail a load from any start reads the group wrapped around the table |
| GroupProbe.FillingKeepsReached | benches/harness/src/group_probe.rs:218-230 | filling a slot keeps every other key reachable before an empty lane |
| GroupProbe.GroupProbeMap.constructor | benches/harness/src/group_probe.rs:136-151 | a valid, empty table |
| GroupProbe.GroupProbeMap.SomeSlotVacant | benches/harness/src/group_probe.rs:118-120 | the insert budget leaves an empty slot in every state |
| GroupProbe.GroupProbeMap.WalkEnds | benches/harness/src/group_probe.rs:176-198 | so every walk meets an empty lane before it has used up its probes, and both operations terminate |
| GroupProbe.GroupProbeMap.FindInGroup | benches/harness/src/group_probe.rs:187-192 | finds the key in a group iff a true tag match holds it |
| GroupProbe.GroupProbeMap.Get | benches/harness/src/group_probe.rs:176-198 | answers exactly as the map |
| GroupProbe.GroupProbeMap.Insert | benches/harness/src/group_probe.rs:203-233 | binds the key and returns the replaced value, if any; refuses iff the key is new and the budget is spent, and then changes nothing |
| GroupProbe.GroupProbeMap.Fill | benches/harness/src/group_probe.rs:220-230 | adds exactly the new entry and keeps the tail a copy of the first group |

## Left out

- What operations do on a table that holds one key in two live slots, as an insertion after an interrupted refresh can leave it.
- Python bindings and the Python package: foreign-runtime calls and reference counts are not visible from the map's logic.
- Arena pointers, alignment, allocators and allocation failure: regions are arrays, and an allocation always succeeds.
- SSE2 and NEON group loads and compares; `BitMasks` covers how their masks are stepped through.
- The level bins inside a filter word are sets of bits in the tables; `Counters.ExpandedMaskExact` covers the widened mask separately.
- The packed Elastic high-water word is two fields in the table.
- A one-slot Elastic table: no public constructor or growth step reaches it, so `Valid()` excludes it.
- Drain and iterator types, set and entry wrappers, `clone_table`, `try_reserve` and the pairwise `get_disjoint` family: they add no new state.
- The user predicate of `extract_if` is a function of the call number, the key and the value.
- Entry tokens hold their search result as a datatype where the source uses sentinel slot numbers.
- The library sort of a schedule suffix is an insertion sort with the same contract.
- The epoch record, memory accounting and the conversion of floating-point reserve fractions.
- User closures that panic anywhere but in the hashing of a rebuild or refresh or in a clear's drops; leaked drains.
- The work counters of a `ScalarElastic` query (mapped and gap positions, random words).
- Expected probe counts and the statistical quality of hashing: only exact counting and injectivity are proved.
