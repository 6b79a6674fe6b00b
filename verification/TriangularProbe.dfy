/** Triangular probing over a power-of-two number of groups: after `t` steps the probe has moved by
    `1 + 2 + ... + t` groups. */
module TriangularProbe {
  import opened Arith

  function Triangle(t: nat): nat
  {
    if t == 0 then 0 else Triangle(t - 1) + t
  }

  lemma {:induction false} TriangleClosed(t: nat)
    ensures 2 * Triangle(t) == t * (t + 1)
  {
    if t > 0 {
      TriangleClosed(t - 1);
      assert t * (t + 1) == (t - 1) * t + 2 * t;
    }
  }

  // ---- Every residue is reached ----

  /** Probe `t` starts `group` groups past the first, on a table of `groups` groups. */
  predicate StartsAt(t: nat, group: nat, groups: nat)
  {
    groups > 0 && Triangle(t) % groups == group
  }

  /** The probe before `2^order` that starts at `group`: it, or its opposite, reaches the same group
      of half the table. */
  function Visit(order: nat, group: nat): (t: nat)
    ensures t < Pow2(order)
    decreases order
  {
    if order == 0 then 0
    else
      var half := Pow2(order - 1);
      var t := Visit(order - 1, group % half);
      if StartsAt(t, group, 2 * half) then t else 2 * half - 1 - t
  }

  /** Probes `t` and `2p - 1 - t` are exactly half a cycle of `2p` groups apart. */
  lemma Opposite(p: nat, t: nat)
    requires p > 0 && t < 2 * p
    ensures Triangle(2 * p - 1 - t) + p * (2 * t + 1) == Triangle(t) + 2 * p * p
  {
    var u := 2 * p - 1 - t;
    TriangleClosed(u);
    TriangleClosed(t);
    assert u * (u + 1) == (2 * p - 1 - t) * (2 * p - t);
    Expanded(p, t);
  }

  lemma Expanded(p: int, t: int)
    ensures (2 * p - 1 - t) * (2 * p - t) + 2 * (p * (2 * t + 1)) == t * (t + 1) + 2 * (2 * p * p)
  {
    var a := p * t;
    assert (2 * p - 1 - t) * (2 * p - t) == 4 * (p * p) - 4 * (p * t) - 2 * p + t + t * t;
    assert p * (2 * t + 1) == 2 * a + p;
    assert t * (t + 1) == t * t + t;
  }

  lemma OppositeResidue(p: nat, t: nat)
    requires p > 0 && t < 2 * p
    ensures Triangle(2 * p - 1 - t) % (2 * p) == (Triangle(t) + p) % (2 * p)
  {
    hide Triangle;
    Opposite(p, t);
    var u := Triangle(2 * p - 1 - t);
    assert u == Triangle(t) + p + (p - t - 1) * (2 * p) by {
      assert p * (2 * t + 1) == t * (2 * p) + p;
      assert (p - t - 1) * (2 * p) == 2 * p * p - t * (2 * p) - 2 * p;
    }
    AddMultipleMod(Triangle(t) + p, p - t - 1, 2 * p);
  }

  /** A number congruent to `x` modulo `p` is congruent modulo `2p` to `x` or to `x + p`. */
  lemma HalfResidue(x: nat, g: nat, p: nat)
    requires p > 0 && g < 2 * p && x % p == g % p
    ensures x % (2 * p) == g || (x + p) % (2 * p) == g
  {
    WholeTurns(x, p);
    SameHalf(x % (2 * p), g, p);
    HalfTurn(x, p);
  }

  /** Numbers below `2p` that agree modulo `p` are equal or `p` apart. */
  lemma SameHalf(r: nat, g: nat, p: nat)
    requires p > 0 && r < 2 * p && g < 2 * p && r % p == g % p
    ensures r == g || (r < p && g == r + p) || (r >= p && g == r - p)
  {
    ResidueOf(r, p);
    ResidueOf(g, p);
  }

  lemma WholeTurns(x: nat, p: nat)
    requires p > 0
    ensures x % p == x % (2 * p) % p
  {
    var e, r := x / (2 * p), x % (2 * p);
    assert x == (2 * p) * e + r;
    assert (2 * p) * e == p * (2 * e) == (2 * e) * p;
    AddMultipleMod(r, 2 * e, p);
  }

  lemma HalfTurn(x: nat, p: nat)
    requires p > 0
    ensures var r := x % (2 * p); (x + p) % (2 * p) == if r < p then r + p else r - p
  {
    var e, r := x / (2 * p), x % (2 * p);
    if r < p {
      QuotientIs(x + p, 2 * p, e, r + p);
    } else {
      assert (2 * p) * (e + 1) == (2 * p) * e + 2 * p;
      QuotientIs(x + p, 2 * p, e + 1, r - p);
    }
  }

  lemma ResidueOf(r: nat, p: nat)
    requires p > 0 && r < 2 * p
    ensures r % p == if r < p then r else r - p
  {
    if r < p {
      QuotientIs(r, p, 0, r);
    } else {
      QuotientIs(r, p, 1, r - p);
    }
  }

  /** Within `2^order` steps the probe reaches every one of the `2^order` groups. */
  lemma {:induction false} EveryGroupVisited(order: nat, group: nat)
    requires group < Pow2(order)
    ensures StartsAt(Visit(order, group), group, Pow2(order))
    decreases order
  {
    if order > 0 {
      hide Triangle;
      var half := Pow2(order - 1);
      ResidueOf(group, half);
      EveryGroupVisited(order - 1, group % half);
      var t := Visit(order - 1, group % half);
      HalfResidue(Triangle(t), group, half);
      OppositeResidue(half, t);
    } else {
      assert Triangle(0) % 1 == 0;
    }
  }

  // ---- Nothing repeats ----

  /** A power of two dividing a product with an odd factor divides the other factor. */
  lemma {:induction false} OddFactorDrops(order: nat, odd: nat, y: nat)
    requires odd % 2 == 1 && Divides(Pow2(order), odd * y)
    ensures Divides(Pow2(order), y)
    decreases order
  {
    hide Divides;
    if order > 0 {
      var p := Pow2(order - 1);
      OddProduct(odd, y, p);
      HalvedProduct(p, odd, y / 2);
      OddFactorDrops(order - 1, odd, y / 2);
      Doubled(p, y / 2);
    } else {
      OneDivides(y);
    }
  }

  lemma OneDivides(y: nat)
    ensures Divides(1, y)
  {
  }

  lemma OddProduct(odd: nat, y: nat, p: nat)
    requires p > 0 && odd % 2 == 1 && Divides(2 * p, odd * y)
    ensures y % 2 == 0
  {
    var a, k := odd / 2, odd * y / (2 * p);
    assert odd * y == 2 * p * k;
    assert 2 * p * k == (p * k) * 2;
    assert (2 * a + 1) * y == y + (a * y) * 2;
    AddMultipleMod(y, a * y, 2);
    MultipleMod(p * k, 2);
  }

  lemma HalvedProduct(p: nat, odd: nat, h: nat)
    requires p > 0 && Divides(2 * p, odd * (2 * h))
    ensures Divides(p, odd * h)
  {
    var k := odd * (2 * h) / (2 * p);
    assert odd * (2 * h) == 2 * p * k;
    assert odd * (2 * h) == 2 * (odd * h) && 2 * p * k == 2 * (k * p);
    MultipleMod(k, p);
  }

  lemma Doubled(p: nat, h: nat)
    requires p > 0 && Divides(p, h)
    ensures Divides(2 * p, 2 * h)
  {
    var m := h / p;
    assert h == p * m;
    assert 2 * h == m * (2 * p);
    MultipleMod(m, 2 * p);
  }

  lemma TriangleGap(a: nat, b: nat)
    requires a <= b
    ensures Triangle(a) <= Triangle(b)
    ensures 2 * (Triangle(b) - Triangle(a)) == (b - a) * (b + a + 1)
  {
    TriangleClosed(a);
    TriangleClosed(b);
    assert (b - a) * (b + a + 1) == b * (b + 1) - a * (a + 1);
    MulAtMost(a, a + 1, b + 1);
    MulAtMost(b + 1, a, b);
    assert (b + 1) * a == a * (b + 1) && (b + 1) * b == b * (b + 1);
  }

  lemma SmallMultiple(d: nat, x: nat)
    requires d > 0 && x < d && Divides(d, x)
    ensures x == 0
  {
    QuotientIs(x, d, 0, x);
  }

  /** The first `2^order` probes start at distinct groups. */
  lemma NoGroupRepeats(order: nat, a: nat, b: nat)
    requires a < b < Pow2(order)
    ensures Triangle(a) % Pow2(order) != Triangle(b) % Pow2(order)
  {
    hide Triangle;
    TriangleGap(a, b);
    if Triangle(a) % Pow2(order) == Triangle(b) % Pow2(order) {
      GapDivides(Triangle(a), Triangle(b), Pow2(order));
      GapProduct(order, a, b, 2 * (Triangle(b) - Triangle(a)));
    }
  }

  /** Twice the gap of two such probes is no multiple of `2^(order + 1)`. */
  lemma GapProduct(order: nat, a: nat, b: nat, gap: nat)
    requires a < b < Pow2(order) && gap == (b - a) * (b + a + 1)
    ensures !Divides(2 * Pow2(order), gap)
  {
    hide Divides;
    CoprimeFactors(order, b - a, b + a + 1);
  }

  lemma GapDivides(x: nat, y: nat, p: nat)
    requires p > 0 && x % p == y % p
    ensures Divides(2 * p, 2 * (y - x))
  {
    var q := y / p - x / p;
    assert x == p * (x / p) + x % p && y == p * (y / p) + y % p;
    assert y - x == p * q by {
      assert p * q == p * (y / p) - p * (x / p);
    }
    assert 2 * (y - x) == q * (2 * p);
    MultipleMod(q, 2 * p);
  }

  /** Of two factors of opposite parity, the even one would have to carry the whole power of two. */
  lemma CoprimeFactors(order: nat, x: nat, y: nat)
    requires 0 < x < 2 * Pow2(order) && 0 < y < 2 * Pow2(order) && x % 2 != y % 2
    ensures !Divides(Pow2(order + 1), x * y)
  {
    var p := 2 * Pow2(order);
    if Divides(Pow2(order + 1), x * y) {
      assert x * y == y * x;
      if x % 2 == 1 {
        OddFactorDrops(order + 1, x, y);
        SmallMultiple(p, y);
      } else {
        OddFactorDrops(order + 1, y, x);
        SmallMultiple(p, x);
      }
    }
  }

  // ---- Slots ----

  const WIDTH: nat := 8

  /** Where the group of probe `t` starts, for a key whose first group starts at `start`. */
  function GroupStart(start: nat, t: nat, slots: nat): (pos: nat)
    requires slots > 0
    ensures pos < slots
  {
    (start + WIDTH * Triangle(t)) % slots
  }

  function LaneSlot(pos: nat, lane: nat, slots: nat): (slot: nat)
    requires slots > 0
    ensures slot < slots
  {
    (pos + lane) % slots
  }

  lemma RemainderAdds(a: nat, b: nat, slots: nat)
    requires slots > 0
    ensures (a % slots + b) % slots == (a + b) % slots
  {
    var q := a / slots;
    assert a + b == a % slots + b + q * slots;
    AddMultipleMod(a % slots + b, q, slots);
  }

  /** Adding a stride of `t + 1` groups leads from probe `t` to the next. */
  lemma NextGroupStart(start: nat, t: nat, slots: nat)
    requires slots > 0
    ensures GroupStart(start, t + 1, slots) == (GroupStart(start, t, slots) + WIDTH * (t + 1)) % slots
  {
    assert Triangle(t + 1) == Triangle(t) + t + 1;
    hide Triangle;
    RemainderAdds(start + WIDTH * Triangle(t), WIDTH * (t + 1), slots);
  }

  /** Probe and lane at which a key starting at `start` comes to `slot`. */
  function ProbeOf(order: nat, start: nat, slot: nat): (t: nat)
    ensures t < Pow2(order)
  {
    Visit(order, (slot - start) % (WIDTH * Pow2(order)) / WIDTH)
  }

  function LaneOf(order: nat, start: nat, slot: nat): (lane: nat)
    ensures lane < WIDTH
  {
    (slot - start) % (WIDTH * Pow2(order)) % WIDTH
  }

  /** Some probe before the walk repeats loads a group with the slot in it, for every slot of the table. */
  lemma EverySlotProbed(order: nat, start: nat, slot: nat)
    requires slot < WIDTH * Pow2(order)
    ensures var slots := WIDTH * Pow2(order);
            LaneSlot(GroupStart(start, ProbeOf(order, start, slot), slots), LaneOf(order, start, slot), slots) == slot
  {
    hide Triangle, Visit, StartsAt, LaneSlot;
    var group := (slot - start) % (WIDTH * Pow2(order)) / WIDTH;
    EveryGroupVisited(order, group);
    StartsAtGroup(Visit(order, group), group, Pow2(order));
    Reaches(start, slot, Triangle(Visit(order, group)), Pow2(order));
  }

  lemma StartsAtGroup(t: nat, group: nat, groups: nat)
    requires StartsAt(t, group, groups)
    ensures groups > 0 && Triangle(t) % groups == group
  {
  }

  lemma Reaches(start: nat, slot: nat, offset: nat, groups: nat)
    requires slot < WIDTH * groups && offset % groups == (slot - start) % (WIDTH * groups) / WIDTH
    ensures LaneSlot((start + WIDTH * offset) % (WIDTH * groups), (slot - start) % (WIDTH * groups) % WIDTH,
                     WIDTH * groups) == slot
  {
    var slots := WIDTH * groups;
    var gap, q, back := (slot - start) % slots, offset / groups, (slot - start) / slots;
    assert offset == groups * q + gap / WIDTH;
    assert slot - start == slots * back + gap;
    RemainderAdds(start + WIDTH * offset, gap % WIDTH, slots);
    Arrives(start, slot, offset, groups, gap / WIDTH, gap % WIDTH, q, back);
  }

  lemma Arrives(start: nat, slot: nat, offset: nat, groups: nat, group: nat, lane: nat, q: int, back: int)
    requires groups > 0 && slot < WIDTH * groups
    requires offset == groups * q + group && slot - start == WIDTH * groups * back + WIDTH * group + lane
    ensures (start + WIDTH * offset + lane) % (WIDTH * groups) == slot
  {
    var slots := WIDTH * groups;
    assert WIDTH * offset == q * slots + WIDTH * group;
    assert (q - back) * slots == q * slots - slots * back;
    AddMultipleMod(slot, q - back, slots);
    QuotientIs(slot, slots, 0, slot);
  }
}
