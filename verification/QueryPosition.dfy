/** The self-delimiting injection that orders Elastic query positions: its loops against their
    bit-string meaning, and the constant-time encoder against both. */
module QueryPosition {
  import opened Arith
  import opened Wrappers


  // ---- Bit strings ----

  type Bit = b: nat | b <= 1

  /** Binary digits, most significant first; zero has none. */
  function Bits(x: nat): (s: seq<Bit>)
  {
    if x == 0 then [] else Bits(x / 2) + [x % 2]
  }

  function Value(s: seq<Bit>): nat
  {
    if s == [] then 0 else 2 * Value(s[..|s| - 1]) + s[|s| - 1]
  }

  /** Each bit behind a marker bit 1. */
  function Marked(s: seq<Bit>): (m: seq<Bit>)
    ensures |m| == 2 * |s|
  {
    if s == [] then [] else Marked(s[..|s| - 1]) + [1, s[|s| - 1]]
  }

  /** The paper's code: the marked bits of `j`, a delimiter 0, the plain bits of `i`. */
  function Code(i: nat, j: nat): seq<Bit>
  {
    Marked(Bits(j)) + [0] + Bits(i)
  }

  /** The query position of coordinates `(i, j)`. */
  function Phi(i: nat, j: nat): nat
  {
    Value(Code(i, j))
  }

  lemma ValueSnoc(s: seq<Bit>, b: Bit)
    ensures Value(s + [b]) == 2 * Value(s) + b
  {
    assert (s + [b])[..|s|] == s;
  }

  lemma {:induction false} ValueAppend(s: seq<Bit>, t: seq<Bit>)
    ensures Value(s + t) == Value(s) * Pow2(|t|) + Value(t)
    decreases |t|
  {
    if t == [] {
      assert s + t == s;
    } else {
      var init, last := t[..|t| - 1], t[|t| - 1];
      ValueAppend(s, init);
      assert s + t == (s + init) + [last];
      ValueSnoc(s + init, last);
      TwiceProduct(Value(s), Pow2(|init|));
    }
  }

  lemma TwiceProduct(a: nat, p: nat)
    ensures a * (2 * p) == 2 * (a * p)
  {
  }

  lemma {:induction false} BitsValue(x: nat)
    ensures Value(Bits(x)) == x && |Bits(x)| == BitLen(x) && (x > 0 ==> Bits(x)[0] == 1)
    decreases x
  {
    hide Value;
    if x > 0 {
      var init := Bits(x / 2);
      BitsValue(x / 2);
      assert Bits(x) == init + [x % 2];
      ValueSnoc(init, x % 2);
      assert x / 2 > 0 ==> Bits(x)[0] == init[0];
    } else {
      EmptyValue();
    }
  }

  /** A bit string with leading 1 is recovered from its value. */
  lemma {:induction false} ValueBits(s: seq<Bit>)
    requires s != [] && s[0] == 1
    ensures Bits(Value(s)) == s && Value(s) > 0
    decreases |s|
  {
    hide Value, Bits;
    var init, last := s[..|s| - 1], s[|s| - 1];
    assert s == init + [last];
    ValueSnoc(init, last);
    if |s| == 1 {
      EmptyValue();
      BitsSnoc(0, last);
    } else {
      ValueBits(init);
      BitsSnoc(Value(init), last);
    }
  }

  lemma BitsSnoc(x: nat, b: Bit)
    requires x > 0 || b == 1
    ensures Bits(2 * x + b) == Bits(x) + [b] && Bits(0) == []
  {
    assert (2 * x + b) / 2 == x && (2 * x + b) % 2 == b;
  }

  // ---- Self-delimitation ----

  datatype Parsed = NoParse | Parsed(marked: seq<Bit>, rest: seq<Bit>)

  /** Reads marker pairs up to the delimiter. */
  function Parse(s: seq<Bit>): Parsed
    decreases |s|
  {
    if s == [] then NoParse
    else if s[0] == 0 then Parsed([], s[1..])
    else if |s| == 1 then NoParse
    else match Parse(s[2..])
      case NoParse => NoParse
      case Parsed(m, rest) => Parsed([s[1]] + m, rest)
  }

  lemma MarkedCons(b: Bit, s: seq<Bit>)
    ensures Marked([b] + s) == [1, b] + Marked(s)
    decreases |s|
  {
    if s != [] {
      var init, last := s[..|s| - 1], s[|s| - 1];
      MarkedCons(b, init);
      assert ([b] + s)[..|s|] == [b] + init;
    }
  }

  /** Marker pairs in front of a string only add their bits to its parse. */
  lemma {:induction false} ParseMarked(a: seq<Bit>, rest: seq<Bit>)
    ensures Parse(Marked(a) + rest) == match Parse(rest)
                                        case NoParse => NoParse
                                        case Parsed(m, t) => Parsed(a + m, t)
    decreases |a|
  {
    if a == [] {
      assert Marked(a) + rest == rest;
      if Parse(rest).Parsed? {
        assert a + Parse(rest).marked == Parse(rest).marked;
      }
    } else {
      MarkedCons(a[0], a[1..]);
      assert a == [a[0]] + a[1..];
      assert (Marked(a) + rest)[2..] == Marked(a[1..]) + rest;
      ParseMarked(a[1..], rest);
      if Parse(rest).Parsed? {
        assert [a[0]] + (a[1..] + Parse(rest).marked) == a + Parse(rest).marked;
      }
    }
  }

  lemma MarkedParses(a: seq<Bit>, b: seq<Bit>)
    ensures Parse(Marked(a) + ([0] + b)) == Parsed(a, b)
  {
    ParseMarked(a, [0] + b);
    assert ([0] + b)[1..] == b;
    assert a + [] == a;
  }

  /** The code parses back into its two coordinates' bits. */
  lemma CodeParses(i: nat, j: nat)
    ensures Parse(Code(i, j)) == Parsed(Bits(j), Bits(i))
  {
    MarkedParses(Bits(j), Bits(i));
    assert Code(i, j) == Marked(Bits(j)) + ([0] + Bits(i));
  }

  /** For positive `j` the code starts with a marker, so the position determines it. */
  lemma CodeOfPhi(i: nat, j: nat)
    requires j >= 1
    ensures Bits(Phi(i, j)) == Code(i, j) && Phi(i, j) > 0
  {
    var bits := Bits(j);
    BitsValue(j);
    MarkedCons(bits[0], bits[1..]);
    assert bits == [bits[0]] + bits[1..];
    assert Code(i, j)[0] == 1;
    ValueBits(Code(i, j));
  }

  /** Distinct positive coordinates have distinct query positions. */
  lemma PhiInjective(i: nat, j: nat, i': nat, j': nat)
    requires j >= 1 && j' >= 1 && Phi(i, j) == Phi(i', j')
    ensures i == i' && j == j'
  {
    CodeOfPhi(i, j);
    CodeOfPhi(i', j');
    CodeParses(i, j);
    CodeParses(i', j');
    BitsValue(i);
    BitsValue(i');
    BitsValue(j);
    BitsValue(j');
  }

  // ---- Order and size ----

  /** Marked bits as a number: two digits per bit. */
  function Pairs(j: nat): nat
  {
    if j == 0 then 0 else 4 * Pairs(j / 2) + 2 + j % 2
  }

  lemma {:induction false} PairsIsMarked(j: nat)
    ensures Value(Marked(Bits(j))) == Pairs(j)
    decreases j
  {
    if j > 0 {
      var init, last := Bits(j / 2), j % 2;
      PairsIsMarked(j / 2);
      assert Bits(j)[..|init|] == init;
      assert Marked(Bits(j)) == (Marked(init) + [1]) + [last];
      ValueSnoc(Marked(init), 1);
      ValueSnoc(Marked(init) + [1], last);
    }
  }

  /** `phi` in closed form. */
  lemma PhiClosed(i: nat, j: nat)
    ensures Phi(i, j) == 2 * Pairs(j) * Pow2(BitLen(i)) + i
  {
    PairsIsMarked(j);
    ValueSnoc(Marked(Bits(j)), 0);
    ValueAppend(Marked(Bits(j)) + [0], Bits(i));
    BitsValue(i);
  }

  lemma {:induction false} PairsIncrease(j: nat)
    ensures Pairs(j) < Pairs(j + 1)
    decreases j
  {
    if j % 2 == 1 {
      PairsIncrease(j / 2);
      assert (j + 1) / 2 == j / 2 + 1;
    } else if j > 0 {
      assert (j + 1) / 2 == j / 2;
    }
  }

  /** Positions strictly increase along one level's probes. */
  lemma PhiIncreasesStep(i: nat, j: nat)
    ensures Phi(i, j) < Phi(i, j + 1)
  {
    hide Phi, Pairs;
    PhiClosed(i, j);
    PhiClosed(i, j + 1);
    PairsIncrease(j);
    ScaledLess(Pairs(j), Pairs(j + 1), Pow2(BitLen(i)));
  }

  lemma ScaledLess(a: nat, b: nat, p: nat)
    requires a < b && p >= 1
    ensures 2 * a * p < 2 * b * p
  {
    MulAtMost(p, 2 * a, 2 * b);
    assert 2 * a * p == p * (2 * a) && 2 * b * p == p * (2 * b);
  }

  lemma {:induction false} PhiIncreases(i: nat, j: nat, j': nat)
    requires j < j'
    ensures Phi(i, j) < Phi(i, j')
    decreases j'
  {
    PhiIncreasesStep(i, j' - 1);
    if j < j' - 1 {
      PhiIncreases(i, j, j' - 1);
    }
  }

  lemma {:induction false} PairsBound(j: nat)
    requires j >= 1
    ensures Pairs(j) + 1 <= 4 * (j * j)
    decreases j
  {
    if j > 1 {
      var k, b := j / 2, j % 2;
      PairsBound(k);
      SquareStep(k, b, j);
    }
  }

  lemma SquareStep(k: nat, b: nat, j: nat)
    requires b <= 1 && j == 2 * k + b
    ensures 4 * (4 * (k * k)) + 4 * b <= 4 * (j * j)
  {
    assert j * j == 4 * (k * k) + 4 * k * b + b * b;
  }

  /** Every position of positive coordinates is below `16 * i * j^2`. */
  lemma PhiBound(i: nat, j: nat)
    requires i >= 1 && j >= 1
    ensures Phi(i, j) < 16 * (i * (j * j))
  {
    hide Phi, Pairs;
    PhiClosed(i, j);
    PairsBound(j);
    BitLenBounds(i);
    assert Pow2(BitLen(i)) == 2 * Pow2(BitLen(i) - 1);
    ProductBound(Pow2(BitLen(i)), Pairs(j), j * j, i);
  }

  lemma ProductBound(p: nat, pairs: nat, square: nat, i: nat)
    requires p <= 2 * i && i >= 1 && pairs + 1 <= 4 * square
    ensures 2 * pairs * p + i < 16 * (i * square)
  {
    MulAtMost(2 * pairs, p, 2 * i);
    MulAtMost(4 * i, pairs, 4 * square - 1);
    Regrouped(pairs, square, i);
  }

  lemma Regrouped(pairs: nat, square: nat, i: nat)
    ensures 2 * pairs * (2 * i) == 4 * i * pairs && 4 * i * (4 * square - 1) == 16 * (i * square) - 4 * i
  {
  }

  // ---- The encoder and its inverse ----

  datatype Coordinate = I | J

  datatype PhiError = ZeroCoordinate(coordinate: Coordinate) | Overflow

  /** Appending a bit to a 128-bit prefix; `None` on overflow. */
  function AppendBit(prefix: nat, bit: Bit): Option<nat>
  {
    if 2 * prefix + bit < U128_LIMIT then Some(2 * prefix + bit) else None
  }

  /** A prefix's value never exceeds the whole string's. */
  lemma {:induction false} PrefixValue(s: seq<Bit>, t: seq<Bit>)
    ensures Value(s) <= Value(s + t)
    decreases |t|
  {
    if t == [] {
      assert s + t == s;
    } else {
      var init, last := t[..|t| - 1], t[|t| - 1];
      PrefixValue(s, init);
      assert s + t == (s + init) + [last];
      ValueSnoc(s + init, last);
    }
  }

  /** Bit `k` from the least significant end. */
  lemma {:induction false} BitAt(x: nat, k: nat)
    requires k < BitLen(x)
    ensures |Bits(x)| == BitLen(x)
    ensures Bits(x)[BitLen(x) - 1 - k] == x / Pow2(k) % 2
    decreases k
  {
    hide Bits, BitLen, Pow2;
    BitsValue(x);
    BitsHalf(x);
    if k > 0 {
      BitAt(x / 2, k - 1);
      HalfThenPower(x, k);
    }
  }

  /** Halving drops the last bit. */
  lemma BitsHalf(x: nat)
    requires BitLen(x) > 0
    ensures Bits(x) == Bits(x / 2) + [x % 2] && BitLen(x) == BitLen(x / 2) + 1 && x / Pow2(0) == x
  {
  }

  lemma HalfThenPower(x: nat, k: nat)
    requires k > 0
    ensures x / 2 / Pow2(k - 1) == x / Pow2(k)
  {
    var p := Pow2(k - 1);
    var h, q := x / 2, x / 2 / p;
    var r := h - p * q;
    assert x == Pow2(k) * q + (2 * r + x % 2) by {
      assert Pow2(k) * q == 2 * (p * q);
    }
    QuotientIs(x, Pow2(k), q, 2 * r + x % 2);
  }

  /** `elastic_phi`: the code, appended bit by bit; it answers exactly when the position fits. */
  method ElasticPhi(i: nat, j: nat) returns (r: Result<nat, PhiError>)
    requires i < U128_LIMIT && j < U128_LIMIT
    ensures i == 0 ==> r == Err(ZeroCoordinate(I))
    ensures i > 0 && j == 0 ==> r == Err(ZeroCoordinate(J))
    ensures i > 0 && j > 0 ==> r == if Phi(i, j) < U128_LIMIT then Ok(Phi(i, j)) else Err(PhiError.Overflow)
  {
    hide Bits, Value, Marked;
    if i == 0 {
      return Err(ZeroCoordinate(I));
    }
    if j == 0 {
      return Err(ZeroCoordinate(J));
    }
    BitsValue(i);
    BitsValue(j);
    var encoded := AppendMarked(j, i);
    if encoded.None? {
      return Err(PhiError.Overflow);
    }
    ghost var head := Marked(Bits(j));
    encoded := AppendBit(encoded.value, 0);
    ValueSnoc(head, 0);
    PrefixValue(head + [0], Bits(i));
    if encoded.None? {
      return Err(PhiError.Overflow);
    }
    encoded := AppendPlain(encoded.value, head + [0], i);
    return if encoded.Some? then Ok(encoded.value) else Err(PhiError.Overflow);
  }

  /** The marker-and-bit loop over `j`. */
  method AppendMarked(j: nat, ghost i: nat) returns (r: Option<nat>)
    requires j > 0
    ensures r.Some? ==> r.value == Value(Marked(Bits(j)))
    ensures r.None? ==> Phi(i, j) >= U128_LIMIT
  {
    hide Value, Bits;
    BitsValue(j);
    ghost var bits := Bits(j);
    var encoded, bitIndex: nat := 0, BitLen(j);
    assert bits[..0] == [];
    EmptyValue();
    while bitIndex > 0
      invariant bitIndex <= BitLen(j) == |bits|
      invariant encoded == Value(Marked(bits[..|bits| - bitIndex]))
    {
      ghost var done := bits[..|bits| - bitIndex];
      bitIndex := bitIndex - 1;
      BitAt(j, bitIndex);
      var bit := j / Pow2(bitIndex) % 2;
      MarkedPrefix(i, j, done, bit, |bits| - bitIndex);
      var marked := AppendBit(encoded, 1);
      if marked.None? {
        return None;
      }
      var pair := AppendBit(marked.value, bit);
      if pair.None? {
        return None;
      }
      encoded := pair.value;
    }
    assert bits[..|bits|] == bits;
    return Some(encoded);
  }

  lemma EmptyValue()
    ensures Value([]) == 0 && Marked([]) == []
  {
  }

  lemma MarkedSnoc(done: seq<Bit>, bit: Bit)
    ensures Marked(done + [bit]) == (Marked(done) + [1]) + [bit]
    ensures Value(Marked(done + [bit])) == 2 * (2 * Value(Marked(done)) + 1) + bit
  {
    assert (done + [bit])[..|done|] == done;
    assert Marked(done) + [1, bit] == (Marked(done) + [1]) + [bit];
    ValueSnoc(Marked(done), 1);
    ValueSnoc(Marked(done) + [1], bit);
  }

  /** The values of the two prefixes one loop step passes through, both within the position. */
  lemma MarkedPrefix(i: nat, j: nat, done: seq<Bit>, bit: Bit, upto: nat)
    requires 0 < upto <= |Bits(j)| && done == Bits(j)[..upto - 1] && bit == Bits(j)[upto - 1]
    ensures Value(Marked(Bits(j)[..upto])) == 2 * (2 * Value(Marked(done)) + 1) + bit
    ensures 2 * (2 * Value(Marked(done)) + 1) + bit <= Phi(i, j)
  {
    hide Bits, Value, Marked;
    var more, rest := Bits(j)[..upto], Bits(j)[upto..];
    assert more == done + [bit];
    MarkedSnoc(done, bit);
    MarkedSplit(more, rest);
    assert Bits(j) == more + rest;
    PrefixValue(Marked(more), Marked(rest) + [0] + Bits(i));
    assert Code(i, j) == Marked(more) + (Marked(rest) + [0] + Bits(i));
  }

  lemma {:induction false} MarkedSplit(a: seq<Bit>, b: seq<Bit>)
    ensures Marked(a + b) == Marked(a) + Marked(b)
    decreases |b|
  {
    if b == [] {
      assert a + b == a;
    } else {
      MarkedSplit(a, b[..|b| - 1]);
      assert (a + b)[..|a + b| - 1] == a + b[..|b| - 1];
    }
  }

  /** The value one plain bit further, within the whole string's. */
  lemma PlainStep(prefix: seq<Bit>, bits: seq<Bit>, n: nat)
    requires n < |bits|
    ensures Value(prefix + bits[..n + 1]) == 2 * Value(prefix + bits[..n]) + bits[n] <= Value(prefix + bits)
  {
    hide Value;
    assert prefix + bits[..n + 1] == (prefix + bits[..n]) + [bits[n]];
    ValueSnoc(prefix + bits[..n], bits[n]);
    PrefixValue(prefix + bits[..n + 1], bits[n + 1..]);
    assert prefix + bits == prefix + bits[..n + 1] + bits[n + 1..];
  }

  /** The plain-bit loop over `i`, behind a prefix. */
  method AppendPlain(start: nat, ghost prefix: seq<Bit>, i: nat) returns (r: Option<nat>)
    requires start == Value(prefix)
    ensures r == if Value(prefix + Bits(i)) < U128_LIMIT || i == 0 then Some(Value(prefix + Bits(i))) else None
  {
    hide Value, Bits;
    BitsValue(i);
    ghost var bits := Bits(i);
    var encoded, bitIndex: nat := start, BitLen(i);
    assert prefix + bits[..0] == prefix;
    while bitIndex > 0
      invariant bitIndex <= BitLen(i) == |bits|
      invariant encoded == Value(prefix + bits[..|bits| - bitIndex])
      invariant bitIndex < |bits| ==> encoded < U128_LIMIT
    {
      bitIndex := bitIndex - 1;
      BitAt(i, bitIndex);
      var bit := i / Pow2(bitIndex) % 2;
      PlainStep(prefix, bits, |bits| - 1 - bitIndex);
      var next := AppendBit(encoded, bit);
      if next.None? {
        return None;
      }
      encoded := next.value;
    }
    assert prefix + bits[..|bits|] == prefix + bits;
    return Some(encoded);
  }

  // ---- Inverse ----

  /** A string that does not parse is no position's code. */
  lemma NoParseNoPreimage(encoded: nat, i: nat, j: nat)
    requires Parse(Bits(encoded)) == NoParse && i >= 1 && j >= 1
    ensures Phi(i, j) != encoded
  {
    CodeOfPhi(i, j);
    CodeParses(i, j);
  }

  /** A string that parses is the code of no coordinates but the parsed ones. */
  lemma ParsedPreimage(encoded: nat, a: seq<Bit>, t: seq<Bit>, i: nat, j: nat)
    requires Parse(Bits(encoded)) == Parsed(a, t) && i >= 1 && j >= 1 && Phi(i, j) == encoded
    ensures j == Value(a) && i == Value(t) && t != []
  {
    CodeOfPhi(i, j);
    CodeParses(i, j);
    BitsValue(i);
    BitsValue(j);
  }

  lemma {:induction false} MarkedValueAtLeast(a: seq<Bit>)
    ensures Value(a) <= Value(Marked(a))
    decreases |a|
  {
    if a != [] {
      var init, last := a[..|a| - 1], a[|a| - 1];
      assert a == init + [last];
      MarkedValueAtLeast(init);
      MarkedSnoc(init, last);
    }
  }

  lemma {:induction false} ValueBelow(t: seq<Bit>)
    ensures Value(t) < Pow2(|t|)
    decreases |t|
  {
    if t != [] {
      ValueBelow(t[..|t| - 1]);
    }
  }

  /** The low digits of a number are its remainder. */
  lemma SuffixIsRemainder(encoded: nat, s: seq<Bit>, t: seq<Bit>)
    requires Bits(encoded) == s + t
    ensures encoded % Pow2(|t|) == Value(t)
  {
    hide Bits, Value;
    BitsValue(encoded);
    ValueAppend(s, t);
    ValueBelow(t);
    assert Value(s) * Pow2(|t|) == Pow2(|t|) * Value(s);
    QuotientIs(encoded, Pow2(|t|), Value(s), Value(t));
  }

  /** `elastic_phi_inverse`: undoes the encoder on its image and rejects everything else. */
  method ElasticPhiInverse(encoded: nat) returns (r: Option<(nat, nat)>)
    requires encoded < U128_LIMIT
    ensures r.Some? ==> r.value.0 >= 1 && r.value.1 >= 1 && Phi(r.value.0, r.value.1) == encoded
    ensures r.None? ==> forall i: nat, j: nat :: i >= 1 && j >= 1 ==> Phi(i, j) != encoded
  {
    hide Bits, Value, Marked, Phi, Parse;
    BitsValue(encoded);
    if encoded == 0 {
      forall i: nat, j: nat | i >= 1 && j >= 1 ensures Phi(i, j) != encoded {
        CodeOfPhi(i, j);
      }
      return None;
    }
    var read := ReadPairs(encoded);
    if read.None? {
      forall i: nat, j: nat | i >= 1 && j >= 1 ensures Phi(i, j) != encoded {
        NoParseNoPreimage(encoded, i, j);
      }
      return None;
    }
    var (j, remaining) := read.value;
    ghost var a, t :| Parse(Bits(encoded)) == Parsed(a, t) && j == Value(a) && remaining == |t|
                      && Bits(encoded) == Marked(a) + [0] + t;
    SuffixIsRemainder(encoded, Marked(a) + [0], t);
    if remaining == 0 {
      forall i: nat, j: nat | i >= 1 && j >= 1 ensures Phi(i, j) != encoded {
        if Phi(i, j) == encoded { ParsedPreimage(encoded, a, t, i, j); }
      }
      return None;
    }
    var i := encoded % Pow2(remaining);
    RemainderSmall(encoded, Pow2(remaining));
    var again := ElasticPhi(i, j);
    if again == Ok(encoded) {
      return Some((i, j));
    }
    forall i': nat, j': nat | i' >= 1 && j' >= 1 ensures Phi(i', j') != encoded {
      if Phi(i', j') == encoded { ParsedPreimage(encoded, a, t, i', j'); }
    }
    return None;
  }

  lemma RemainderSmall(x: nat, p: nat)
    requires p >= 1
    ensures x % p <= x
  {
    var q := x / p;
    assert x == p * q + x % p;
    MulAtMost(p, 0, q);
  }

  /** Reads marker pairs off the top of `encoded`: the decoded `j` and how many bits follow the
      delimiter. */
  method ReadPairs(encoded: nat) returns (r: Option<(nat, nat)>)
    requires 0 < encoded < U128_LIMIT
    ensures r.None? ==> Parse(Bits(encoded)) == NoParse
    ensures r.Some? ==> r.value.0 < U128_LIMIT
    ensures r.Some? ==> exists a, t :: Parse(Bits(encoded)) == Parsed(a, t) && r.value.0 == Value(a) && r.value.1 == |t|
                                       && Bits(encoded) == Marked(a) + [0] + t
  {
    hide Bits, Value, Marked, Parse;
    BitsValue(encoded);
    var remaining: nat, j: nat := BitLen(encoded), 0;
    ghost var a: seq<Bit>, rest: seq<Bit> := [], Bits(encoded);
    EmptyValue();
    assert Bits(encoded) == Marked([]) + Bits(encoded);
    while true
      invariant Bits(encoded) == Marked(a) + rest && |rest| == remaining <= BitLen(encoded) && j == Value(a)
      invariant Value(a) <= encoded
      decreases remaining
    {
      ReadOn(a, rest);
      if remaining == 0 {
        return None;
      }
      remaining := remaining - 1;
      BitAt(encoded, remaining);
      var marker := encoded / Pow2(remaining) % 2;
      assert marker == rest[0];
      if marker == 0 {
        return Some((j, remaining));
      }
      if remaining == 0 {
        return None;
      }
      remaining := remaining - 1;
      BitAt(encoded, remaining);
      var bit := encoded / Pow2(remaining) % 2;
      PairStep(encoded, a, rest, bit);
      assert j * 2 + bit < U128_LIMIT;
      j := j * 2 + bit;
      a, rest := a + [bit], rest[2..];
    }
  }

  /** What the unread rest behind marked bits says of the whole string. */
  lemma ReadOn(a: seq<Bit>, rest: seq<Bit>)
    ensures rest == [] || rest == [1] ==> Parse(Marked(a) + rest) == NoParse
    ensures rest != [] && rest[0] == 0 ==>
              Parse(Marked(a) + rest) == Parsed(a, rest[1..]) && Marked(a) + rest == Marked(a) + [0] + rest[1..]
  {
    hide Marked;
    ParseMarked(a, rest);
    if rest != [] && rest[0] == 0 {
      assert rest == [0] + rest[1..];
      assert a + [] == a;
    }
  }

  /** Moving one marker pair from the unread rest to the decoded bits. */
  lemma PairStep(encoded: nat, a: seq<Bit>, rest: seq<Bit>, bit: Bit)
    requires Bits(encoded) == Marked(a) + rest && |rest| >= 2 && rest[0] == 1 && rest[1] == bit
    ensures Bits(encoded) == Marked(a + [bit]) + rest[2..]
    ensures Value(a + [bit]) == 2 * Value(a) + bit <= encoded
  {
    hide Bits, Value, Marked;
    MarkedSnoc(a, bit);
    assert rest == [1] + [bit] + rest[2..];
    assert Bits(encoded) == Marked(a + [bit]) + rest[2..];
    ValueSnoc(a, bit);
    MarkedValueAtLeast(a + [bit]);
    PrefixValue(Marked(a + [bit]), rest[2..]);
    BitsValue(encoded);
  }
}
