/** A whole compaction: its outputs fit the install step, and it preserves the reads of every snapshot
    still in use exactly when no dropped deletion marker uncovers a value left in the next level. */
module CompactionTheorem {
  import opened Basics
  import opened InternalKeys
  import opened Versions
  import opened Picking
  import opened Install
  import opened CompactionReads
  import opened CompactionWork

  ghost function InputEntries(c: Compaction): set<Entry> {
    EntriesOf(InputFiles(c))
  }

  ghost function RestEntries(v: Version, c: Compaction): set<Entry> {
    set e | e in AllEntries(v) && InRest(v, c, e)
  }

  ghost predicate InRest(v: Version, c: Compaction, e: Entry) {
    exists level: nat, f :: Remains(v, c, level, f) && e in f.entries
  }

  /** What the merging iterator over the inputs yields. */
  ghost predicate MergedInput(c: Compaction, input: seq<Entry>) {
    SortedKeys(input) && SetOf(input) == InputEntries(c)
  }

  /** The outputs of the merge loop. */
  ghost predicate WorkDone(v: Version, c: Compaction, input: seq<Entry>, smallest: SequenceNumber,
                           outputs: seq<FileMetaData>, first: nat) {
    && Flat(outputs) == KeptUpTo(input, |input|, smallest, v, c.level)
    && ValidFiles(outputs) && DisjointSorted(outputs) && Numbered(outputs, first)
  }

  lemma OutputEntries(v: Version, c: Compaction, input: seq<Entry>, smallest: SequenceNumber,
                      outputs: seq<FileMetaData>, first: nat)
    requires WorkDone(v, c, input, smallest, outputs, first)
    ensures EntriesOf(outputs) == SetOf(KeptUpTo(input, |input|, smallest, v, c.level))
    ensures EntriesOf(outputs) <= SetOf(input)
  {
    FlatMembers(outputs);
    KeptMembers(input, |input|, smallest, v, c.level);
  }

  /** The merge loop's outputs are what the install step asks for. */
  lemma WorkGivesGoodOutputs(v: Version, c: Compaction, input: seq<Entry>, smallest: SequenceNumber,
                             outputs: seq<FileMetaData>, first: nat)
    requires WorkDone(v, c, input, smallest, outputs, first) && MergedInput(c, input)
    requires NewNumber(v, first)
    ensures GoodOutputs(v, c, outputs)
  {
    OutputEntries(v, c, input, smallest, outputs, first);
    forall o, e | o in outputs && e in o.entries ensures FromInputs(c, e) {
      assert e in EntriesOf(outputs);
      assert e in InputEntries(c);
    }
    forall o | o in outputs ensures NewNumber(v, o.number) {
      var i :| 0 <= i < |outputs| && outputs[i] == o;
    }
  }

  lemma VersionSplits(v: Version, c: Compaction)
    requires WellFormed(v) && GoodPick(v, c)
    ensures AllEntries(v) == RestEntries(v, c) + InputEntries(c)
  {
    InputsAreInVersion(v, c);
    forall e | e in AllEntries(v) ensures e in RestEntries(v, c) + InputEntries(c) {
      var level, f := FileOf(v, e);
      if !Remains(v, c, level, f) {
        assert f in InputFiles(c);
      }
    }
    forall e | e in InputEntries(c) ensures e in AllEntries(v) {
      var f :| f in InputFiles(c) && e in f.entries;
      AllEntriesMember(v, if f in c.inputs0 then c.level else c.level + 1, f, e);
    }
  }

  lemma NextSplits(v: Version, c: Compaction, outputs: seq<FileMetaData>, next: Version)
    requires |v.files| == NUM_LEVELS && c.level + 1 < NUM_LEVELS && CompactedTo(v, c, outputs, next)
    ensures AllEntries(next) == RestEntries(v, c) + EntriesOf(outputs)
  {
    forall e | e in AllEntries(next) ensures e in RestEntries(v, c) + EntriesOf(outputs) {
      var level, f := FileOf(next, e);
      if Remains(v, c, level, f) {
        AllEntriesMember(v, level, f, e);
      }
    }
    forall e | e in RestEntries(v, c) ensures e in AllEntries(next) {
      var level: nat, f :| Remains(v, c, level, f) && e in f.entries;
      assert In(next, level, f);
      AllEntriesMember(next, level, f, e);
    }
    forall e | e in EntriesOf(outputs) ensures e in AllEntries(next) {
      var f :| f in outputs && e in f.entries;
      assert In(next, c.level + 1, f);
      AllEntriesMember(next, c.level + 1, f, e);
    }
  }

  lemma InputIsUnique(input: seq<Entry>, store: set<Entry>)
    requires SortedKeys(input) && UniqueSequences(store) && SetOf(input) <= store
    ensures UniqueIn(input)
  {
    forall i, j | 0 <= i < j < |input| && input[i].key.user == input[j].key.user
      ensures input[i].key.sequence > input[j].key.sequence
    {
      assert input[i] in SetOf(input) && input[j] in SetOf(input);
      assert Less(input[i].key, input[j].key);
    }
  }

  /** The exact condition, for a store made of memtable entries and a version. */
  lemma CompactionPreservesReadsExactly(v: Version, c: Compaction, input: seq<Entry>, smallest: SequenceNumber,
                                        outputs: seq<FileMetaData>, first: nat, next: Version, mem: set<Entry>)
    requires WellFormed(v) && GoodPick(v, c) && MergedInput(c, input)
    requires WorkDone(v, c, input, smallest, outputs, first) && CompactedTo(v, c, outputs, next)
    requires UniqueSequences(mem + AllEntries(v))
    ensures ReadsPreserved(mem + AllEntries(v), mem + AllEntries(next), smallest)
      <==> forall user :: !Resurfaces(mem + RestEntries(v, c), InputEntries(c), smallest, BaseUsers(v, c.level), user)
  {
    var rest, inputs := mem + RestEntries(v, c), InputEntries(c);
    var kept := SetOf(KeptUpTo(input, |input|, smallest, v, c.level));
    VersionSplits(v, c);
    NextSplits(v, c, outputs, next);
    OutputEntries(v, c, input, smallest, outputs, first);
    assert rest + inputs == mem + AllEntries(v);
    assert rest + kept == mem + AllEntries(next);
    InputIsUnique(input, mem + AllEntries(v));
    LoopFollowsRule(input, smallest, v, c.level);
    ReadsPreservedExactly(rest, inputs, kept, smallest, BaseUsers(v, c.level));
  }

  // ---- a condition on the picked files ----

  /** No file left in the next level starts with the user key at which one of its input files ends. */
  ghost predicate NextInputsEndBetweenUsers(v: Version, c: Compaction) {
    forall f, h :: f in c.inputs1 && Remains(v, c, c.level + 1, h) ==> h.smallest.user != f.largest.user
  }

  /** Memtable entries are newer than everything in the version. */
  ghost predicate MemIsNewer(mem: set<Entry>, v: Version) {
    forall m, e :: m in mem && e in AllEntries(v) && m.key.user == e.key.user ==> m.key.sequence > e.key.sequence
  }

  /** An older version of the user key can only stay behind in the next level, at a cut that splits it. */
  lemma OlderVersionNeedsSplitUser(v: Version, c: Compaction, d: Entry, f: FileMetaData, o: Entry, level: nat,
                                   h: FileMetaData)
    requires Inv(v) && GoodPick(v, c) && NextInputsEndBetweenUsers(v, c)
    requires f in InputFiles(c) && d in f.entries && Remains(v, c, level, h) && o in h.entries
    requires o.key.user == d.key.user && o.key.sequence < d.key.sequence
    ensures !IsBase(v, c.level, d.key.user)
  {
    InputsAreInVersion(v, c);
    ValidFileBounds(f);
    ValidFileBounds(h);
    if level <= c.level {
      NewerThanInput(v, c, level, h, f);
    } else if level == c.level + 1 {
      LeftOutIsNewer(v, c, d, f, o, h);
    } else {
      assert In(v, level, h) && h.smallest.user <= d.key.user <= h.largest.user;
    }
  }

  lemma LeftOutIsNewer(v: Version, c: Compaction, d: Entry, f: FileMetaData, o: Entry, h: FileMetaData)
    requires WellFormed(v) && Shape(v) && GoodPick(v, c) && NextInputsEndBetweenUsers(v, c)
    requires f in InputFiles(c) && d in f.entries && Remains(v, c, c.level + 1, h) && o in h.entries
    requires o.key.user == d.key.user
    ensures o.key.sequence >= d.key.sequence
  {
    InputsAreInVersion(v, c);
    ValidFileBounds(f);
    ValidFileBounds(h);
    var s, l := PickRange(v, c);
    assert !Overlaps(h, Some(s.user), Some(l.user));
    assert f in c.inputs0 ==> !Less(f.smallest, s) && !Less(l, f.largest);
    assert f in c.inputs1 && Apart(f, h) && h.smallest.user != f.largest.user;
  }

  /** With the next level's inputs cut between user keys, every read at or after the oldest snapshot is
      the same before and after the compaction. */
  lemma CompactionPreservesReads(v: Version, c: Compaction, input: seq<Entry>, smallest: SequenceNumber,
                                 outputs: seq<FileMetaData>, first: nat, next: Version, mem: set<Entry>)
    requires Inv(v) && GoodPick(v, c) && MergedInput(c, input)
    requires WorkDone(v, c, input, smallest, outputs, first) && CompactedTo(v, c, outputs, next)
    requires UniqueSequences(mem + AllEntries(v)) && MemIsNewer(mem, v)
    requires NextInputsEndBetweenUsers(v, c)
    ensures ReadsPreserved(mem + AllEntries(v), mem + AllEntries(next), smallest)
  {
    forall user ensures !Resurfaces(mem + RestEntries(v, c), InputEntries(c), smallest, BaseUsers(v, c.level), user) {
      NothingResurfaces(v, c, smallest, mem, user);
    }
    CompactionPreservesReadsExactly(v, c, input, smallest, outputs, first, next, mem);
  }

  lemma NothingResurfaces(v: Version, c: Compaction, smallest: SequenceNumber, mem: set<Entry>, user: UserKey)
    requires Inv(v) && GoodPick(v, c) && NextInputsEndBetweenUsers(v, c)
    requires UniqueSequences(mem + AllEntries(v)) && MemIsNewer(mem, v)
    ensures !Resurfaces(mem + RestEntries(v, c), InputEntries(c), smallest, BaseUsers(v, c.level), user)
  {
    var rest, inputs := mem + RestEntries(v, c), InputEntries(c);
    VersionSplits(v, c);
    forall d: Entry, o: Entry | d in inputs && d !in rest && Newest(rest + inputs, user, smallest, d) &&
      Newest(rest, user, smallest, o)
      ensures user !in BaseUsers(v, c.level)
    {
      assert o in rest + inputs && VisibleTo(o, user, smallest);
      assert o.key.sequence < d.key.sequence;
      var f :| f in InputFiles(c) && d in f.entries;
      assert d in AllEntries(v);
      var level: nat, h :| Remains(v, c, level, h) && o in h.entries;
      OlderVersionNeedsSplitUser(v, c, d, f, o, level, h);
    }
  }
}
