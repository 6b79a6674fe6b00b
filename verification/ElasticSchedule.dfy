/** The Elastic lookup schedule: which probe routes it holds, in what order, and how it is extended
    as placements raise the high-water mark. */
module ElasticSchedule {
  import opened Arith
  import opened QueryPosition

  /** Most probe indices any level's search visits. */
  const UNIFORM_SEARCH_CAP: nat := 4096
  /** Largest query position a placement may take. */
  const QUERY_POSITION_CAP: nat := 1_000_000
  const QUERY_PROBE_LIMIT: nat := 384
  const MAX_LEVELS: nat := 32

  /** One scheduled route. While a new suffix is sorted, `rangeUpper` holds the query position;
      afterwards it holds the level's slot count. */
  datatype PhiRoute = PhiRoute(rangeUpper: nat, level: nat, logical: nat)

  /** Query position of a route: `phi` of its one-based coordinates. */
  function Position(level: nat, logical: nat): nat
  {
    Phi(level + 1, logical + 1)
  }

  /** Routes a schedule up to `high` covers; lookups try level zero's first probe ahead of it. */
  predicate Scheduled(level: nat, logical: nat, high: nat)
  {
    logical < UNIFORM_SEARCH_CAP && !(level == 0 && logical == 0) && Position(level, logical) <= high
  }

  ghost predicate Increasing(schedule: seq<PhiRoute>)
  {
    forall i, j :: 0 <= i < j < |schedule| ==>
      Position(schedule[i].level, schedule[i].logical) < Position(schedule[j].level, schedule[j].logical)
  }

  /** Exactly the covered routes of the table's levels, in increasing position order. */
  ghost predicate IsSchedule(schedule: seq<PhiRoute>, caps: seq<nat>, high: nat)
  {
    && (forall r :: r in schedule ==> r.level < |caps| && r.rangeUpper == caps[r.level]
                                      && Scheduled(r.level, r.logical, high))
    && (forall level: nat, logical: nat :: level < |caps| && Scheduled(level, logical, high) ==>
          PhiRoute(caps[level], level, logical) in schedule)
    && Increasing(schedule)
  }

  lemma EmptySchedule(caps: seq<nat>)
    ensures IsSchedule([], caps, 0)
  {
    forall level: nat, logical: nat ensures !Scheduled(level, logical, 0) {
      CodeOfPhi(level + 1, logical + 1);
    }
  }

  /** Positions of schedulable coordinates fit far below 128 bits. */
  lemma PositionSmall(paperLevel: nat, probe: nat)
    requires 1 <= paperLevel <= MAX_LEVELS && 1 <= probe <= UNIFORM_SEARCH_CAP
    ensures Phi(paperLevel, probe) < U128_LIMIT
  {
    hide Phi;
    PhiBound(paperLevel, probe);
    SquareSmall(probe);
    ProductSmall(paperLevel, probe * probe);
  }

  lemma SquareSmall(probe: nat)
    requires probe <= 4096
    ensures probe * probe <= 0x100_0000
  {
    MulAtMost(probe, probe, 4096);
  }

  lemma ProductSmall(a: nat, b: nat)
    requires a <= 32 && b <= 0x100_0000
    ensures a * b <= 0x2000_0000
  {
    MulAtMost(b, a, 32);
    assert a * b == b * a;
  }

  /** A probe index under the position cap stays inside the packed counter's probe lane. */
  lemma ProbeLimit(level: nat, logical: nat)
    requires Position(level, logical) <= QUERY_POSITION_CAP
    ensures logical < QUERY_PROBE_LIMIT
  {
    hide Phi, Pairs;
    if logical >= QUERY_PROBE_LIMIT {
      PhiAtLeast(level + 1, QUERY_PROBE_LIMIT);
      PairsAtLimit();
      if logical + 1 > QUERY_PROBE_LIMIT {
        PhiIncreases(level + 1, QUERY_PROBE_LIMIT, logical + 1);
      }
    }
  }

  lemma ScaledAtLeast(pairs: nat, p: nat)
    requires p >= 2
    ensures 2 * pairs * p >= 4 * pairs
  {
    MulAtMost(2 * pairs, 2, p);
  }

  lemma PhiAtLeast(i: nat, j: nat)
    requires i >= 1
    ensures Phi(i, j) >= 4 * Pairs(j) + 1
  {
    hide Phi, Pairs;
    PhiClosed(i, j);
    assert Pow2(BitLen(i)) >= 2;
    ScaledAtLeast(Pairs(j), Pow2(BitLen(i)));
  }

  lemma PairsAtLimit()
    ensures Pairs(384) >= 250_000
  {
    assert Pairs(3) == 15;
    assert Pairs(6) == 62;
    assert Pairs(12) == 250;
    assert Pairs(24) == 1002;
    assert Pairs(48) == 4010;
    assert Pairs(96) == 16042;
    assert Pairs(192) == 64170;
  }

  // ---- Route counts ----

  /** Probes of a level reachable from `probe` on without passing the position cap. */
  function CountFrom(level: nat, probe: nat): nat
    decreases UNIFORM_SEARCH_CAP + 1 - probe
  {
    if probe <= UNIFORM_SEARCH_CAP && Phi(level + 1, probe) <= QUERY_POSITION_CAP then 1 + CountFrom(level, probe + 1)
    else 0
  }

  /** The probes counted are exactly the ones within both caps. */
  lemma {:induction false} CountFromExact(level: nat, probe: nat, p: nat)
    requires 1 <= probe <= p
    ensures p < probe + CountFrom(level, probe) <==> p <= UNIFORM_SEARCH_CAP && Phi(level + 1, p) <= QUERY_POSITION_CAP
    decreases UNIFORM_SEARCH_CAP + 1 - probe
  {
    hide Phi;
    if probe < p {
      PhiIncreases(level + 1, probe, p);
      if probe <= UNIFORM_SEARCH_CAP && Phi(level + 1, probe) <= QUERY_POSITION_CAP {
        CountFromExact(level, probe + 1, p);
      }
    }
  }

  /** Routes a level contributes to the schedule. */
  function RouteCount(level: nat): nat
  {
    CountFrom(level, if level == 0 then 2 else 1)
  }

  /** `LEVEL_PROBE_LIMIT`: logical probes a placement on the level may try. */
  function LevelProbeLimit(level: nat): nat
  {
    RouteCount(level) + (if level == 0 then 1 else 0)
  }

  lemma LevelProbeLimitExact(level: nat, logical: nat)
    ensures logical < LevelProbeLimit(level) <==>
              logical < UNIFORM_SEARCH_CAP && Position(level, logical) <= QUERY_POSITION_CAP
  {
    hide Phi;
    if level == 0 {
      FirstPosition();
      if logical > 0 {
        CountFromExact(0, 2, logical + 1);
      }
    } else {
      CountFromExact(level, 1, logical + 1);
    }
  }

  lemma FirstPosition()
    ensures Phi(1, 1) == 13
  {
    PhiClosed(1, 1);
    assert Pairs(0) == 0 && BitLen(0) == 0;
    assert Pairs(1) == 3 && BitLen(1) == 1 && Pow2(0) == 1 && Pow2(1) == 2;
  }

  /** `level_route_count`. */
  method LevelRouteCount(level: nat) returns (count: nat)
    requires level < MAX_LEVELS
    ensures count == RouteCount(level)
  {
    hide Phi;
    var paperProbe: nat := if level == 0 then 2 else 1;
    count := 0;
    while paperProbe <= UNIFORM_SEARCH_CAP
      invariant 1 <= paperProbe <= UNIFORM_SEARCH_CAP + 1
      invariant RouteCount(level) == count + CountFrom(level, paperProbe)
      decreases UNIFORM_SEARCH_CAP + 1 - paperProbe
    {
      PositionSmall(level + 1, paperProbe);
      var phi := ElasticPhi(level + 1, paperProbe);
      if phi.value > QUERY_POSITION_CAP {
        break;
      }
      count := count + 1;
      paperProbe := paperProbe + 1;
    }
  }

  /** `PROBE_SCHEDULE_CAPACITY`. */
  function ScheduleCapacity(levels: nat): nat
  {
    if levels == 0 then 0 else ScheduleCapacity(levels - 1) + RouteCount(levels - 1)
  }

  lemma CapacityStep(levels: nat)
    ensures ScheduleCapacity(0) == 0 && ScheduleCapacity(levels + 1) == ScheduleCapacity(levels) + RouteCount(levels)
  {
    hide RouteCount;
  }

  /** The `PROBE_SCHEDULE_CAPACITY` table, by level count. */
  method ProbeScheduleCapacities() returns (capacities: array<nat>)
    ensures fresh(capacities) && capacities.Length == MAX_LEVELS + 1
    ensures forall levels :: 0 <= levels <= MAX_LEVELS ==> capacities[levels] == ScheduleCapacity(levels)
  {
    hide RouteCount, ScheduleCapacity;
    capacities := new nat[MAX_LEVELS + 1](_ => 0);
    CapacityStep(0);
    var level := 0;
    while level < MAX_LEVELS
      invariant level <= MAX_LEVELS && forall l :: 0 <= l <= level ==> capacities[l] == ScheduleCapacity(l)
    {
      var count := LevelRouteCount(level);
      CapacityStep(level);
      capacities[level + 1] := capacities[level] + count;
      level := level + 1;
    }
  }

  /** The `LEVEL_PROBE_LIMIT` table. */
  method LevelProbeLimits() returns (limits: array<nat>)
    ensures fresh(limits) && limits.Length == MAX_LEVELS
    ensures forall level :: 0 <= level < MAX_LEVELS ==> limits[level] == LevelProbeLimit(level)
  {
    hide RouteCount;
    limits := new nat[MAX_LEVELS](_ => 0);
    var level := 0;
    while level < MAX_LEVELS
      invariant level <= MAX_LEVELS && forall l :: 0 <= l < level ==> limits[l] == LevelProbeLimit(l)
    {
      var count := LevelRouteCount(level);
      limits[level] := count + (if level == 0 then 1 else 0);
      level := level + 1;
    }
  }

  // ---- Capacity ----

  ghost function LevelRoutes(level: nat): (r: set<(nat, nat)>)
  {
    set p | 0 <= p < UNIFORM_SEARCH_CAP && Scheduled(level, p, QUERY_POSITION_CAP) :: (level, p)
  }

  ghost function AllRoutes(levels: nat): set<(nat, nat)>
  {
    if levels == 0 then {} else AllRoutes(levels - 1) + LevelRoutes(levels - 1)
  }

  lemma InLevelRoutes(l: nat, level: nat, logical: nat)
    ensures (level, logical) in LevelRoutes(l) <==> level == l && Scheduled(level, logical, QUERY_POSITION_CAP)
  {
    hide Position;
  }

  lemma {:induction false} AllRoutesBelow(levels: nat, level: nat, logical: nat)
    ensures (level, logical) in AllRoutes(levels) <==> level < levels && Scheduled(level, logical, QUERY_POSITION_CAP)
    decreases levels
  {
    hide Scheduled, LevelRoutes;
    if levels > 0 {
      AllRoutesBelow(levels - 1, level, logical);
      InLevelRoutes(levels - 1, level, logical);
    }
  }

  ghost function Run(level: nat, from: nat, count: nat): set<(nat, nat)>
  {
    set p | from <= p < from + count :: (level, p)
  }

  lemma {:induction false} RunSize(level: nat, from: nat, count: nat)
    ensures |Run(level, from, count)| == count
    decreases count
  {
    if count == 0 {
      assert Run(level, from, 0) == {};
    } else {
      RunSize(level, from, count - 1);
      assert Run(level, from, count) == Run(level, from, count - 1) + {(level, from + count - 1)};
    }
  }

  lemma LevelRoutesSize(level: nat)
    ensures |LevelRoutes(level)| == RouteCount(level)
  {
    var from: nat := if level == 0 then 1 else 0;
    RunSize(level, from, RouteCount(level));
    forall p: nat ensures (level, p) in LevelRoutes(level) <==> (level, p) in Run(level, from, RouteCount(level)) {
      LevelProbeLimitExact(level, p);
    }
    assert LevelRoutes(level) == Run(level, from, RouteCount(level));
  }

  lemma LevelsApart(level: nat)
    ensures AllRoutes(level) !! LevelRoutes(level)
  {
    hide Scheduled, LevelRoutes, AllRoutes;
    forall r: (nat, nat) ensures !(r in AllRoutes(level) && r in LevelRoutes(level)) {
      AllRoutesBelow(level, r.0, r.1);
      InLevelRoutes(level, r.0, r.1);
    }
  }

  lemma {:induction false} AllRoutesSize(levels: nat)
    ensures |AllRoutes(levels)| == ScheduleCapacity(levels)
    decreases levels
  {
    hide Scheduled, LevelRoutes, RouteCount;
    if levels > 0 {
      AllRoutesSize(levels - 1);
      LevelRoutesSize(levels - 1);
      LevelsApart(levels - 1);
    }
  }

  lemma {:induction false} DistinctWithin(schedule: seq<PhiRoute>, routes: set<(nat, nat)>)
    requires Increasing(schedule) && forall r :: r in schedule ==> (r.level, r.logical) in routes
    ensures |schedule| <= |routes|
    decreases |schedule|
  {
    if schedule != [] {
      var init, last := schedule[..|schedule| - 1], schedule[|schedule| - 1];
      forall r | r in init ensures (r.level, r.logical) in routes - {(last.level, last.logical)} {
        var i :| 0 <= i < |init| && init[i] == r;
        assert schedule[i] == r && r in schedule;
      }
      assert last in schedule;
      DistinctWithin(init, routes - {(last.level, last.logical)});
    }
  }

  /** The precomputed capacity holds every schedule an epoch can reach. */
  lemma ScheduleFits(schedule: seq<PhiRoute>, caps: seq<nat>, high: nat)
    requires IsSchedule(schedule, caps, high) && high <= QUERY_POSITION_CAP
    ensures |schedule| <= ScheduleCapacity(|caps|)
  {
    forall r | r in schedule ensures (r.level, r.logical) in AllRoutes(|caps|) {
      AllRoutesBelow(|caps|, r.level, r.logical);
    }
    DistinctWithin(schedule, AllRoutes(|caps|));
    AllRoutesSize(|caps|);
  }

  // ---- Extension ----

  /** Least probe whose position lies past `position`, by binary search. */
  method FirstPaperProbeAfter(paperLevel: nat, position: nat) returns (r: nat)
    requires 1 <= paperLevel <= MAX_LEVELS
    ensures 1 <= r <= UNIFORM_SEARCH_CAP + 1
    ensures forall p: nat :: 1 <= p <= UNIFORM_SEARCH_CAP ==> (Phi(paperLevel, p) <= position <==> p < r)
  {
    hide Phi;
    var lower, upper := 1, UNIFORM_SEARCH_CAP + 1;
    while lower < upper
      invariant 1 <= lower <= upper <= UNIFORM_SEARCH_CAP + 1
      invariant forall p: nat :: 1 <= p < lower ==> Phi(paperLevel, p) <= position
      invariant forall p: nat :: upper <= p <= UNIFORM_SEARCH_CAP ==> Phi(paperLevel, p) > position
    {
      var middle := lower + (upper - lower) / 2;
      PositionSmall(paperLevel, middle);
      var phi := ElasticPhi(paperLevel, middle);
      if phi.value <= position {
        forall p: nat | 1 <= p < middle ensures Phi(paperLevel, p) <= position {
          PhiIncreases(paperLevel, p, middle);
        }
        lower := middle + 1;
      } else {
        forall p: nat | middle < p <= UNIFORM_SEARCH_CAP ensures Phi(paperLevel, p) > position {
          PhiIncreases(paperLevel, middle, p);
        }
        upper := middle;
      }
    }
    r := lower;
  }

  /** A route as it is first pushed: the position in place of the range. */
  function Pushed(level: nat, logical: nat): PhiRoute
  {
    PhiRoute(Position(level, logical), level, logical)
  }

  predicate New(level: nat, logical: nat, prior: nat, high: nat)
  {
    Scheduled(level, logical, high) && Position(level, logical) > prior
  }

  /** The routes newly covered on levels below `levels`, each once. */
  ghost predicate IsSuffix(suffix: seq<PhiRoute>, levels: nat, prior: nat, high: nat)
  {
    && (forall r :: r in suffix ==> r.level < levels && New(r.level, r.logical, prior, high)
                                    && r == Pushed(r.level, r.logical))
    && (forall level: nat, logical: nat :: level < levels && New(level, logical, prior, high) ==>
                                             Pushed(level, logical) in suffix)
    && (forall i, j :: 0 <= i < j < |suffix| ==> suffix[i] != suffix[j])
  }

  /** `for_each_phi_route` over one level, pushing each visited route. */
  method PushLevel(suffix: seq<PhiRoute>, level: nat, prior: nat, high: nat) returns (r: seq<PhiRoute>)
    requires level < MAX_LEVELS && high <= QUERY_POSITION_CAP && IsSuffix(suffix, level, prior, high)
    ensures IsSuffix(r, level + 1, prior, high)
  {
    hide Phi;
    var from := FirstPaperProbeAfter(level + 1, prior);
    var paperProbe: nat := if level == 0 && from == 1 then 2 else from;
    ghost var start, paperLevel := paperProbe, level + 1;
    r := suffix;
    while paperProbe <= UNIFORM_SEARCH_CAP
      invariant start <= paperProbe <= UNIFORM_SEARCH_CAP + 1 || paperProbe == start
      invariant forall p: nat :: start <= p < paperProbe ==> p <= UNIFORM_SEARCH_CAP && Phi(paperLevel, p) <= high
      invariant PushedSoFar(suffix, r, level, start, paperProbe)
      decreases UNIFORM_SEARCH_CAP + 1 - paperProbe
    {
      PositionSmall(level + 1, paperProbe);
      var phi := ElasticPhi(level + 1, paperProbe);
      if phi.value > high {
        break;
      }
      ProbeLimit(level, paperProbe - 1);
      assert paperProbe - 1 < QUERY_PROBE_LIMIT;
      r := r + [PhiRoute(phi.value, level, paperProbe - 1)];
      paperProbe := paperProbe + 1;
    }
    LevelPushed(suffix, r, level, paperLevel, prior, high, from, start, paperProbe);
  }

  ghost predicate PushedSoFar(suffix: seq<PhiRoute>, r: seq<PhiRoute>, level: nat, start: nat, probe: nat)
    requires start >= 1
  {
    probe >= start && |r| == |suffix| + (probe - start) && suffix == r[..|suffix|]
    && forall i :: |suffix| <= i < |r| ==> r[i] == Pushed(level, start - 1 + (i - |suffix|))
  }

  /** One level's consecutive probes are exactly its newly covered routes. */
  lemma LevelPushed(suffix: seq<PhiRoute>, r: seq<PhiRoute>, level: nat, paperLevel: nat, prior: nat, high: nat,
                    from: nat, start: nat, probe: nat)
    requires IsSuffix(suffix, level, prior, high) && paperLevel == level + 1
    requires start >= 1 && PushedSoFar(suffix, r, level, start, probe)
    requires 1 <= from && start == (if level == 0 && from == 1 then 2 else from)
    requires forall p: nat :: 1 <= p <= UNIFORM_SEARCH_CAP ==> (Phi(paperLevel, p) <= prior <==> p < from)
    requires forall p: nat :: start <= p < probe ==> p <= UNIFORM_SEARCH_CAP && Phi(paperLevel, p) <= high
    requires probe > UNIFORM_SEARCH_CAP || Phi(paperLevel, probe) > high
    ensures IsSuffix(r, level + 1, prior, high)
  {
    hide Phi;
    forall l: nat, logical: nat | l < level + 1 && New(l, logical, prior, high) ensures Pushed(l, logical) in r {
      if l == level {
        if logical + 1 >= probe && logical + 1 > probe {
          PhiIncreases(level + 1, probe, logical + 1);
        }
        assert r[|suffix| + logical + 1 - start] == Pushed(level, logical);
      } else {
        assert Pushed(l, logical) in suffix;
      }
    }
    forall x | x in r
      ensures x.level < level + 1 && New(x.level, x.logical, prior, high) && x == Pushed(x.level, x.logical)
    {
      var i :| 0 <= i < |r| && r[i] == x;
      if i < |suffix| {
        assert x in suffix;
      }
    }
    forall i, j | 0 <= i < j < |r| ensures r[i] != r[j] {
      if i < |suffix| {
        assert r[i] == suffix[i] && suffix[i] in suffix;
      }
    }
  }

  predicate SortedByRange(s: seq<PhiRoute>)
  {
    forall i, j :: 0 <= i < j < |s| ==> s[i].rangeUpper <= s[j].rangeUpper
  }

  ghost predicate Distinct(s: seq<PhiRoute>)
  {
    forall i, j :: 0 <= i < j < |s| ==> s[i] != s[j]
  }

  /** Places one route into a sorted run. */
  method InsertSorted(s: seq<PhiRoute>, r: PhiRoute) returns (t: seq<PhiRoute>)
    requires SortedByRange(s)
    ensures SortedByRange(t) && multiset(t) == multiset(s) + multiset{r}
  {
    var k: nat := |s|;
    while k > 0 && s[k - 1].rangeUpper > r.rangeUpper
      invariant k <= |s| && forall i :: k <= i < |s| ==> s[i].rangeUpper > r.rangeUpper
    {
      k := k - 1;
    }
    t := s[..k] + [r] + s[k..];
    InsertedOrder(s, r, k);
    assert s == s[..k] + s[k..];
  }

  lemma InsertedOrder(s: seq<PhiRoute>, r: PhiRoute, k: nat)
    requires SortedByRange(s) && k <= |s| && (k > 0 ==> s[k - 1].rangeUpper <= r.rangeUpper)
    requires forall i :: k <= i < |s| ==> s[i].rangeUpper > r.rangeUpper
    ensures SortedByRange(s[..k] + [r] + s[k..])
  {
    var t := s[..k] + [r] + s[k..];
    forall i, j | 0 <= i < j < |t| ensures t[i].rangeUpper <= t[j].rangeUpper {
      assert t[i] == if i < k then s[i] else if i == k then r else s[i - 1];
      assert t[j] == if j < k then s[j] else if j == k then r else s[j - 1];
      assert i < k ==> s[i].rangeUpper <= s[k - 1].rangeUpper;
    }
  }

  /** The library sort of the new suffix, by the position each route temporarily carries. */
  method SortByRange(s: seq<PhiRoute>) returns (t: seq<PhiRoute>)
    ensures SortedByRange(t) && multiset(t) == multiset(s)
  {
    t := [];
    var i := 0;
    while i < |s|
      invariant i <= |s| && SortedByRange(t) && multiset(t) == multiset(s[..i])
    {
      t := InsertSorted(t, s[i]);
      assert s[..i + 1] == s[..i] + [s[i]];
      i := i + 1;
    }
    assert s[..|s|] == s;
  }

  lemma {:induction false} DistinctCounts(s: seq<PhiRoute>, r: PhiRoute)
    requires Distinct(s)
    ensures multiset(s)[r] <= 1
    decreases |s|
  {
    if s != [] {
      var init, last := s[..|s| - 1], s[|s| - 1];
      assert s == init + [last];
      DistinctCounts(init, r);
      forall i | 0 <= i < |init| ensures init[i] != last {
        assert init[i] == s[i];
      }
      assert last !in init;
    }
  }

  lemma RepeatCounts(s: seq<PhiRoute>, i: nat, j: nat)
    requires i < j < |s| && s[i] == s[j]
    ensures multiset(s)[s[i]] >= 2
  {
    assert s == s[..j] + [s[j]] + s[j + 1..];
    assert s[..j][i] in s[..j];
  }

  /** A permutation of distinct routes is distinct and has the same members. */
  lemma PermutationKeeps(s: seq<PhiRoute>, t: seq<PhiRoute>)
    requires Distinct(s) && multiset(s) == multiset(t)
    ensures Distinct(t) && forall r :: r in t <==> r in s
  {
    forall i, j | 0 <= i < j < |t| ensures t[i] != t[j] {
      if t[i] == t[j] {
        RepeatCounts(t, i, j);
        DistinctCounts(s, t[i]);
      }
    }
    forall r ensures r in t <==> r in s {
      assert r in t <==> r in multiset(t);
      assert r in s <==> r in multiset(s);
    }
  }

  /** Sorted by position and distinct means strictly increasing. */
  lemma SortedIncreases(t: seq<PhiRoute>, levels: nat, prior: nat, high: nat)
    requires IsSuffix(t, levels, prior, high) && SortedByRange(t)
    ensures Increasing(t)
  {
    hide Phi, New;
    forall i, j | 0 <= i < j < |t|
      ensures Position(t[i].level, t[i].logical) < Position(t[j].level, t[j].logical)
    {
      assert t[i] in t && t[j] in t;
      if Position(t[i].level, t[i].logical) == Position(t[j].level, t[j].logical) {
        PhiInjective(t[i].level + 1, t[i].logical + 1, t[j].level + 1, t[j].logical + 1);
      }
    }
  }

  /** Replaces each route's position by its level's slot count. */
  method StampRanges(t: seq<PhiRoute>, caps: seq<nat>) returns (r: seq<PhiRoute>)
    requires forall i :: 0 <= i < |t| ==> t[i].level < |caps|
    ensures |r| == |t| && forall i :: 0 <= i < |t| ==> r[i] == PhiRoute(caps[t[i].level], t[i].level, t[i].logical)
  {
    r := [];
    var i := 0;
    while i < |t|
      invariant i <= |t| && |r| == i
      invariant forall k :: 0 <= k < i ==> r[k] == PhiRoute(caps[t[k].level], t[k].level, t[k].logical)
    {
      r := r + [t[i].(rangeUpper := caps[t[i].level])];
      i := i + 1;
    }
  }

  /** `extend_probe_schedule`: afterwards the schedule covers every position up to the larger of the
      two high-water marks. */
  method ExtendProbeSchedule(schedule: seq<PhiRoute>, caps: seq<nat>, prior: nat, high: nat)
      returns (r: seq<PhiRoute>, water: nat)
    requires |caps| <= MAX_LEVELS && high <= QUERY_POSITION_CAP && IsSchedule(schedule, caps, prior)
    ensures water == (if high <= prior then prior else high) && IsSchedule(r, caps, water)
    ensures schedule <= r
  {
    hide Phi;
    if high <= prior {
      return schedule, prior;
    }
    var suffix: seq<PhiRoute> := [];
    var level := 0;
    while level < |caps|
      invariant level <= |caps| && IsSuffix(suffix, level, prior, high)
    {
      suffix := PushLevel(suffix, level, prior, high);
      level := level + 1;
    }
    var sorted := SortByRange(suffix);
    PermutationKeeps(suffix, sorted);
    SortedIncreases(sorted, |caps|, prior, high);
    assert forall i :: 0 <= i < |sorted| ==> sorted[i] in sorted;
    var stamped := StampRanges(sorted, caps);
    Extended(schedule, sorted, stamped, caps, prior, high);
    return schedule + stamped, high;
  }

  /** A schedule up to `prior` followed by the sorted new routes is the schedule up to `high`. */
  lemma Extended(schedule: seq<PhiRoute>, sorted: seq<PhiRoute>, stamped: seq<PhiRoute>, caps: seq<nat>, prior: nat,
                 high: nat)
    requires IsSchedule(schedule, caps, prior) && prior < high
    requires IsSuffix(sorted, |caps|, prior, high) && Increasing(sorted) && |stamped| == |sorted|
    requires forall i :: 0 <= i < |sorted| ==>
               sorted[i].level < |caps| && stamped[i] ==
                   PhiRoute(caps[sorted[i].level], sorted[i].level, sorted[i].logical)
    ensures IsSchedule(schedule + stamped, caps, high)
  {
    hide Phi;
    var all := schedule + stamped;
    forall x | x in all
      ensures x.level < |caps| && x.rangeUpper == caps[x.level] && Scheduled(x.level, x.logical, high)
    {
      if x !in schedule {
        var i :| 0 <= i < |stamped| && stamped[i] == x;
        assert sorted[i] in sorted;
      }
    }
    forall level: nat, logical: nat | level < |caps| && Scheduled(level, logical, high)
      ensures PhiRoute(caps[level], level, logical) in all
    {
      if Scheduled(level, logical, prior) {
        assert PhiRoute(caps[level], level, logical) in schedule;
      } else {
        assert New(level, logical, prior, high);
        var i :| 0 <= i < |sorted| && sorted[i] == Pushed(level, logical);
        assert stamped[i] in stamped;
      }
    }
    forall i, j | 0 <= i < j < |all|
      ensures Position(all[i].level, all[i].logical) < Position(all[j].level, all[j].logical)
    {
      if j >= |schedule| {
        assert sorted[j - |schedule|] in sorted;
        if i < |schedule| {
          assert schedule[i] in schedule;
        } else {
          assert stamped[i - |schedule|].level == sorted[i - |schedule|].level;
        }
      }
    }
  }
}
