/** The membership filter tail: per word, the bits recorded keys set and four bins that
    summarize the levels those keys occupy. Bit sets stand for the words' bits. */
module Membership {

  /** One key's filter location: which word, which bits, and which level bin. */
  datatype FilterSlot = FilterSlot(index: nat, bits: set<nat>, bin: nat)

  datatype MetadataWord = MetadataWord(membership: set<nat>, bins: seq<set<nat>>)

  const CLEAR_WORD := MetadataWord({}, [{}, {}, {}, {}])

  /** Level-bin bit standing for every deeper level as well. */
  const LAST_BIT: nat := 15

  const SLOTS_PER_WORD: nat := 10

  function WordCount(slots: nat): nat
  {
    (slots + SLOTS_PER_WORD - 1) / SLOTS_PER_WORD
  }

  /** Capacity's worth of deletes the filter tolerates before it is re-recorded. */
  function RefreshDeletes(maxInsertions: nat): nat
  {
    maxInsertions
  }

  predicate SlotFits(fs: FilterSlot, words: nat)
  {
    fs.bin < 4 && (words > 0 ==> fs.index < words)
  }

  ghost predicate ValidFilter(filter: seq<MetadataWord>)
  {
    forall i :: 0 <= i < |filter| ==>
      |filter[i].bins| == 4 && forall b, bit :: 0 <= b < 4 && bit in filter[i].bins[b] ==> bit <= LAST_BIT
  }

  lemma FourBins(words: seq<MetadataWord>, i: nat)
    requires ValidFilter(words) && i < |words|
    ensures |words[i].bins| == 4
  {
  }

  /** The filter admits the key and its bin carries the level bit. */
  ghost predicate Recorded(filter: seq<MetadataWord>, fs: FilterSlot, bit: nat)
  {
    && fs.index < |filter| && fs.bin < |filter[fs.index].bins|
    && fs.bits <= filter[fs.index].membership
    && bit in filter[fs.index].bins[fs.bin]
  }

  /** The filter admits the key, and either its bin carries the level bit or the level does not matter. */
  ghost predicate Admits(filter: seq<MetadataWord>, fs: FilterSlot, bit: nat, anyLevel: bool)
  {
    && fs.index < |filter| && fs.bin < |filter[fs.index].bins|
    && fs.bits <= filter[fs.index].membership
    && (anyLevel || bit in filter[fs.index].bins[fs.bin])
  }

  function RecordWord(word: MetadataWord, fs: FilterSlot, bit: nat): MetadataWord
    requires fs.bin < |word.bins|
  {
    MetadataWord(word.membership + fs.bits, word.bins[fs.bin := word.bins[fs.bin] + {bit}])
  }

  function Record(filter: seq<MetadataWord>, fs: FilterSlot, bit: nat): (r: seq<MetadataWord>)
    requires fs.index < |filter| && fs.bin < |filter[fs.index].bins|
    ensures |r| == |filter|
  {
    filter[fs.index := RecordWord(filter[fs.index], fs, bit)]
  }

  /** Recording a key admits it and never drops a key recorded before. */
  lemma RecordKeeps(filter: seq<MetadataWord>, fs: FilterSlot, bit: nat, other: FilterSlot, otherBit: nat)
    requires ValidFilter(filter) && fs.index < |filter| && fs.bin < 4 && bit <= LAST_BIT
    ensures ValidFilter(Record(filter, fs, bit)) && Recorded(Record(filter, fs, bit), fs, bit)
    ensures Recorded(filter, other, otherBit) ==> Recorded(Record(filter, fs, bit), other, otherBit)
    ensures forall any: bool :: Admits(filter, other, otherBit, any) ==>
                                  Admits(Record(filter, fs, bit), other, otherBit, any)
  {
  }

  /** One recorded key: its filter location and the level bit of its slot. */
  type Mark = (FilterSlot, nat)

  /** The filter carries the bits of these marks and no others. */
  ghost predicate Reflects(filter: seq<MetadataWord>, marks: set<Mark>)
  {
    && (forall m :: m in marks ==> Recorded(filter, m.0, m.1))
    && (forall i: nat, bit: nat :: i < |filter| && bit in filter[i].membership ==> SomeMarkSets(marks, i, bit))
    && (forall i: nat, b: nat, bit: nat :: i < |filter| && b < |filter[i].bins| && bit in filter[i].bins[b] ==>
          SomeMarkBins(marks, i, b, bit))
  }

  ghost predicate SomeMarkSets(marks: set<Mark>, i: nat, bit: nat)
  {
    exists m :: m in marks && m.0.index == i && bit in m.0.bits
  }

  ghost predicate SomeMarkBins(marks: set<Mark>, i: nat, b: nat, bit: nat)
  {
    exists m :: m in marks && m.0.index == i && m.0.bin == b && m.1 == bit
  }

  /** Recording a key adds its mark to what the filter reflects. */
  lemma RecordReflects(filter: seq<MetadataWord>, marks: set<Mark>, fs: FilterSlot, bit: nat)
    requires ValidFilter(filter) && Reflects(filter, marks) && fs.index < |filter| && fs.bin < 4 && bit <= LAST_BIT
    ensures Reflects(Record(filter, fs, bit), marks + {(fs, bit)})
  {
    var filter', marks' := Record(filter, fs, bit), marks + {(fs, bit)};
    assert (fs, bit) in marks';
    forall m | m in marks' ensures Recorded(filter', m.0, m.1) {
      if m in marks { RecordKeeps(filter, fs, bit, m.0, m.1); }
    }
    forall i: nat, x: nat | i < |filter'| && x in filter'[i].membership ensures SomeMarkSets(marks', i, x) {
      if i < |filter| && x in filter[i].membership {
        var m :| m in marks && m.0.index == i && x in m.0.bits;
        assert m in marks';
      }
    }
    forall i: nat, b: nat, x: nat | i < |filter'| && b < |filter'[i].bins| && x in filter'[i].bins[b]
      ensures SomeMarkBins(marks', i, b, x)
    {
      if i < |filter| && b < |filter[i].bins| && x in filter[i].bins[b] {
        var m :| m in marks && m.0.index == i && m.0.bin == b && m.1 == x;
        assert m in marks';
      }
    }
  }

  /** A clear filter reflects nothing. */
  lemma ClearReflects(filter: seq<MetadataWord>)
    requires forall i :: 0 <= i < |filter| ==> filter[i] == CLEAR_WORD
    ensures ValidFilter(filter) && Reflects(filter, {})
  {
  }

  /** A filter that reflects some marks has exactly their bits: a membership bit is set when some mark
      of the word sets it, and a bin bit when some mark of the word and bin has that level. */
  lemma BitsAreMarks(filter: seq<MetadataWord>, marks: set<Mark>, i: nat, b: nat, x: nat)
    requires ValidFilter(filter) && Reflects(filter, marks) && i < |filter| && b < 4
    ensures x in filter[i].membership <==> SomeMarkSets(marks, i, x)
    ensures x in filter[i].bins[b] <==> SomeMarkBins(marks, i, b, x)
  {
    if SomeMarkSets(marks, i, x) {
      var m :| m in marks && m.0.index == i && x in m.0.bits;
      assert Recorded(filter, m.0, m.1);
    }
    if SomeMarkBins(marks, i, b, x) {
      var m :| m in marks && m.0.index == i && m.0.bin == b && m.1 == x;
      assert Recorded(filter, m.0, m.1);
    }
  }

  /** So a key passes the gate exactly when each of its bits was set, in its word, by some mark, and
      its bin leads to its level exactly when some mark of its word and bin has its level bit. */
  lemma AdmittedByMarks(filter: seq<MetadataWord>, marks: set<Mark>, fs: FilterSlot, bit: nat, anyLevel: bool)
    requires ValidFilter(filter) && Reflects(filter, marks) && fs.index < |filter| && fs.bin < 4
    ensures Admits(filter, fs, bit, anyLevel) <==>
              (forall x :: x in fs.bits ==> SomeMarkSets(marks, fs.index, x))
                && (anyLevel || SomeMarkBins(marks, fs.index, fs.bin, bit))
  {
    hide Reflects, SomeMarkSets, SomeMarkBins;
    BitsAreMarks(filter, marks, fs.index, fs.bin, bit);
    assert |filter[fs.index].bins| == 4;
    forall x: nat
      ensures x in filter[fs.index].membership <==> SomeMarkSets(marks, fs.index, x)
    {
      BitsAreMarks(filter, marks, fs.index, fs.bin, x);
    }
  }
}
