/** Control bytes, slots, and one group of control bytes as a machine word. */
module Controls {
  import opened Swar

  /** What a control byte says of its slot: never used since the last reset, vacated, or holding
      an entry with this fingerprint. */
  datatype Control = Empty | Tombstone | Full(fp: bv8)

  /** Slot storage; `Uninit` is memory no live entry occupies. */
  datatype Slot<K, V> = Uninit | Entry(key: K, value: V)

  const GROUP: nat := 8

  /** A 64-bit hash or seed, as an opaque value where its bits do not matter. */
  datatype Word = Word(bits: bv64)

  predicate ProperFingerprint(fp: bv8)
  {
    fp != 0 && fp & 0x80 == 0
  }

  predicate Proper(c: Control)
  {
    c.Full? ==> ProperFingerprint(c.fp)
  }

  predicate IsFree(c: Control)
  {
    !c.Full?
  }

  /** The stored byte. */
  function Byte(c: Control): bv8
  {
    match c
    case Empty => 0
    case Tombstone => 0x80
    case Full(fp) => fp
  }

  /** `control_fingerprint`: the top seven hash bits, kept off the EMPTY byte. */
  function Fingerprint(hash: Word): (fp: bv8)
    ensures ProperFingerprint(fp)
  {
    var masked := (hash.bits >> 57) as bv8;
    if masked == 0 then 1 else masked
  }

  /** Distinct proper controls have distinct bytes, and the free test sees only the low bits. */
  lemma BytesIdentifyControls(c: Control, d: Control)
    requires Proper(c) && Proper(d)
    ensures Byte(c) == Byte(d) <==> c == d
    ensures Byte(c) & 0x7f == 0 <==> IsFree(c)
  {
  }

  /** A group of eight control bytes as one word. */
  function WordOf(g: seq<Control>): bv64
    requires |g| == 8
  {
    Load(seq(8, i requires 0 <= i < 8 => Byte(g[i])))
  }

  lemma WordLanes(g: seq<Control>, i: nat)
    requires |g| == 8 && i < 8
    ensures LaneByte(WordOf(g), i) == Byte(g[i])
  {
    hide LaneByte, Load, Byte;
    LoadLanes(seq(8, j requires 0 <= j < 8 => Byte(g[j])), i);
  }

  /** On a loaded group, each mask selects exactly the lanes with the control it asks for. */
  lemma GroupMasks(g: seq<Control>, target: Control, i: nat)
    requires |g| == 8 && i < 8 && Proper(target) && Proper(g[i])
    ensures var w := WordOf(g);
            && LaneBits(FreeMask(w)) && LaneBits(OccupiedMask(w)) && LaneBits(EqMask(w, Byte(target)))
            && (InMask(FreeMask(w), i) <==> IsFree(g[i]))
            && (InMask(OccupiedMask(w), i) <==> g[i].Full?)
            && (InMask(EqMask(w, Byte(target)), i) <==> g[i] == target)
  {
    hide WordOf, LaneByte, LaneBits, InMask, FreeMask, OccupiedMask, EqMask, Byte;
    WordLanes(g, i);
    OccupiedMaskExact(WordOf(g), i);
    EqMaskExact(WordOf(g), Byte(target), i);
    BytesIdentifyControls(g[i], target);
  }
}
