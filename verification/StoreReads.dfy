/** What installs do to the reads a version serves, against the reference that keeps every entry ever
    written. */
module StoreReads {
  import opened Basics
  import opened InternalKeys
  import opened Versions
  import opened Picking
  import opened VersionBuilder
  import opened Install
  import opened CompactionReads
  import opened CompactionWork
  import opened CompactionTheorem
  import opened VersionGet

  /** Sequence numbers are handed out one by one from 1 on. */
  ghost predicate Sequenced(written: seq<Entry>) {
    forall i :: 0 <= i < |written| ==> written[i].key.sequence == i + 1
  }

  /** The value the last write of a user key left. */
  function LastWrite(written: seq<Entry>, user: UserKey): Option<Value> {
    if written == [] then None
    else
      var last := written[|written| - 1];
      if last.key.user == user then Outcome(last) else LastWrite(written[..|written| - 1], user)
  }

  lemma SequencedIsUnique(written: seq<Entry>)
    requires Sequenced(written)
    ensures UniqueSequences(SetOf(written))
  {
  }

  /** A read of everything written sees the last write at or before its snapshot. */
  lemma {:induction false} LookupIsLastWrite(written: seq<Entry>, n: nat, user: UserKey, snapshot: SequenceNumber)
    requires Sequenced(written) && snapshot <= n <= |written|
    ensures Lookup(SetOf(written[..n]), user, snapshot) == LastWrite(written[..snapshot], user)
    decreases n + snapshot
  {
    var all := SetOf(written[..n]);
    if snapshot == 0 {
      LookupNothing(all, user, snapshot);
    } else {
      var last := written[snapshot - 1];
      assert written[..snapshot][..snapshot - 1] == written[..snapshot - 1];
      if last.key.user == user {
        assert written[..n][snapshot - 1] == last;
        SequencedIsUnique(written);
        assert Newest(all, user, snapshot, last);
        LookupIsNewest(all, user, snapshot, last);
      } else {
        LookupIsLastWrite(written, n, user, snapshot - 1);
        var earlier: SequenceNumber := snapshot - 1;
        assert forall e :: e in all ==> (VisibleTo(e, user, snapshot) <==> VisibleTo(e, user, earlier));
        SameVisibleSameLookup(all, user, snapshot, earlier);
      }
    }
  }

  lemma SameVisibleSameLookup(store: set<Entry>, user: UserKey, snapshot: SequenceNumber, earlier: SequenceNumber)
    requires UniqueSequences(store)
    requires forall e :: e in store ==> (VisibleTo(e, user, snapshot) <==> VisibleTo(e, user, earlier))
    ensures Lookup(store, user, snapshot) == Lookup(store, user, earlier)
  {
    if some :| some in store && VisibleTo(some, user, snapshot) {
      var e := NewestExists(store, user, snapshot, some);
      LookupIsNewest(store, user, snapshot, e);
      assert Newest(store, user, earlier, e);
      LookupIsNewest(store, user, earlier, e);
    } else {
      LookupNothing(store, user, snapshot);
      LookupNothing(store, user, earlier);
    }
  }

  /** The version holds the first `n` entries written: reads at the horizon or later cannot tell its
      tables from those entries. */
  ghost predicate Holds(v: Version, written: seq<Entry>, n: nat, horizon: SequenceNumber) {
    && Inv(v) && n <= |written|
    && AllEntries(v) <= SetOf(written[..n])
    && ReadsPreserved(SetOf(written[..n]), AllEntries(v), horizon)
  }

  lemma ReadsCompose(a: set<Entry>, b: set<Entry>, c: set<Entry>, horizon: SequenceNumber, later: SequenceNumber)
    requires ReadsPreserved(a, b, horizon) && ReadsPreserved(b, c, later)
    ensures ReadsPreserved(a, c, if horizon < later then later else horizon)
  {
    var max := if horizon < later then later else horizon;
    forall user, snapshot: SequenceNumber ensures SameRead(a, c, max, user, snapshot) {
      assert SameRead(a, b, horizon, user, snapshot) && SameRead(b, c, later, user, snapshot);
    }
  }

  /** Newer entries on top do not disturb what two stores agree on. */
  lemma ReadsUnderNewer(a: set<Entry>, b: set<Entry>, newer: set<Entry>, horizon: SequenceNumber)
    requires ReadsPreserved(a, b, horizon)
    requires NewerSets(newer, a) && NewerSets(newer, b) && UniqueSequences(newer + a) && UniqueSequences(newer + b)
    ensures ReadsPreserved(newer + a, newer + b, horizon)
  {
    forall user, snapshot: SequenceNumber ensures SameRead(newer + a, newer + b, horizon, user, snapshot) {
      assert SameRead(a, b, horizon, user, snapshot);
      if some :| some in newer && VisibleTo(some, user, snapshot) {
        var e := NewestExists(newer, user, snapshot, some);
        NewerSideDecides(newer, a, user, snapshot, e);
        NewerSideDecides(newer, b, user, snapshot, e);
      } else {
        OlderSideDecides(newer, a, user, snapshot);
        OlderSideDecides(newer, b, user, snapshot);
      }
    }
  }

  lemma UniqueSubset(store: set<Entry>, all: set<Entry>)
    requires UniqueSequences(all) && store <= all
    ensures UniqueSequences(store)
  {
  }

  /** Entries written after the first `n` are newer than those. */
  lemma LaterIsNewer(written: seq<Entry>, n: nat, to: nat, older: set<Entry>)
    requires Sequenced(written) && n <= to <= |written| && older <= SetOf(written[..n])
    ensures NewerSets(SetOf(written[n..to]), older) && UniqueSequences(SetOf(written[n..to]) + older)
    ensures SetOf(written[n..to]) + SetOf(written[..n]) == SetOf(written[..to])
  {
    forall a | a in written[n..to] ensures a in written && a.key.sequence > n {
      var i :| 0 <= i < to - n && written[n..to][i] == a;
      assert a == written[n..to][i] == written[n + i];
    }
    forall b | b in older ensures b in written && b.key.sequence <= n {
      assert b in SetOf(written[..n]) && b in written[..n];
      var i :| 0 <= i < n && written[..n][i] == b;
      assert written[i] == b;
    }
    SequencedIsUnique(written);
    UniqueSubset(SetOf(written[n..to]) + older, SetOf(written));
    assert written[..to] == written[..n] + written[n..to];
  }

  /** A read that also looks at the entries written since then sees all that was written. */
  lemma HoldsWithNewer(v: Version, written: seq<Entry>, n: nat, horizon: SequenceNumber, to: nat)
    requires Holds(v, written, n, horizon) && Sequenced(written) && n <= to <= |written|
    ensures ReadsPreserved(SetOf(written[..to]), SetOf(written[n..to]) + AllEntries(v), horizon)
    ensures NewerSets(SetOf(written[n..to]), AllEntries(v)) && UniqueSequences(SetOf(written[n..to]) + AllEntries(v))
  {
    LaterIsNewer(written, n, to, SetOf(written[..n]));
    LaterIsNewer(written, n, to, AllEntries(v));
    ReadsUnderNewer(SetOf(written[..n]), AllEntries(v), SetOf(written[n..to]), horizon);
  }

  // ---- installs ----

  lemma FlushedEntries(v: Version, level: nat, f: FileMetaData, next: Version)
    requires |v.files| == NUM_LEVELS && level < NUM_LEVELS && FlushedTo(v, level, f, next)
    ensures AllEntries(next) == SetOf(f.entries) + AllEntries(v)
  {
    forall e | e in AllEntries(next) ensures e in SetOf(f.entries) + AllEntries(v) {
      var l, g := FileOf(next, e);
      if In(v, l, g) {
        AllEntriesMember(v, l, g, e);
      }
    }
    forall e | e in SetOf(f.entries) + AllEntries(v) ensures e in AllEntries(next) {
      if e in AllEntries(v) {
        var l, g := FileOf(v, e);
        assert In(next, l, g);
        AllEntriesMember(next, l, g, e);
      } else {
        assert In(next, level, f);
        AllEntriesMember(next, level, f, e);
      }
    }
  }

  /** A table of the entries written from the `n`-th on, where the flush puts it. */
  ghost predicate GoodFlush(v: Version, written: seq<Entry>, n: nat, to: nat, level: nat, f: FileMetaData) {
    && n <= to <= |written| && level < NUM_LEVELS
    && ValidFile(f) && SetOf(f.entries) == SetOf(written[n..to]) && NewNumber(v, f.number)
    && (level > 0 ==> forall l: nat, g :: l <= level && In(v, l, g) ==>
       !Overlaps(g, Some(f.smallest.user), Some(f.largest.user)))
  }

  lemma FlushHolds(v: Version, written: seq<Entry>, n: nat, horizon: SequenceNumber, to: nat, level: nat,
                   f: FileMetaData, next: Version)
    requires Holds(v, written, n, horizon) && Sequenced(written) && GoodFlush(v, written, n, to, level, f)
    requires FlushedTo(v, level, f, next)
    ensures Holds(next, written, to, horizon)
  {
    HoldsWithNewer(v, written, n, horizon, to);
    FlushedEntries(v, level, f, next);
    LaterIsNewer(written, n, to, AllEntries(v));
    FlushIsNewer(v, written, n, to, f);
    FlushKeepsInv(v, level, f, next);
  }

  lemma FlushIsNewer(v: Version, written: seq<Entry>, n: nat, to: nat, f: FileMetaData)
    requires n <= to <= |written| && SetOf(f.entries) == SetOf(written[n..to])
    requires NewerSets(SetOf(written[n..to]), AllEntries(v)) && UniqueSequences(SetOf(written[n..to]) + AllEntries(v))
    ensures NewerThanVersion(v, f) && FilesUnique(f, f)
  {
    forall level, g | In(v, level, g) ensures Newer(f, g) {
      forall a, b | a in f.entries && b in g.entries && a.key.user == b.key.user
        ensures a.key.sequence > b.key.sequence
      {
        assert a in SetOf(f.entries);
        AllEntriesMember(v, level, g, b);
      }
    }
    forall a, b | a in f.entries && b in f.entries ensures SameVersionSameEntry(a, b) {
      assert a in SetOf(f.entries) && b in SetOf(f.entries);
    }
  }

  /** The merge loop's result and its install. */
  ghost predicate GoodCompaction(v: Version, c: Compaction, input: seq<Entry>, smallest: SequenceNumber,
                                 outputs: seq<FileMetaData>, first: nat, next: Version) {
    && GoodPick(v, c) && MergedInput(c, input) && NewNumber(v, first)
    && WorkDone(v, c, input, smallest, outputs, first) && Installs(v, CompactionEdit(c, outputs), next)
  }

  /** Of the tables that a compaction leaves in place, none holds a value that a dropped deletion hid. By
      CompactionPreservesReadsExactly this is what reads of the tables depend on; picking inputs does not check
      it. */
  ghost predicate Harmless(v: Version, c: Compaction, smallest: SequenceNumber) {
    forall user :: !Resurfaces(RestEntries(v, c), InputEntries(c), smallest, BaseUsers(v, c.level), user)
  }

  /** Inputs of the next level that end between user keys are enough. */
  lemma CutBetweenUsersIsHarmless(v: Version, c: Compaction, smallest: SequenceNumber)
    requires Inv(v) && GoodPick(v, c) && UniqueSequences(AllEntries(v)) && NextInputsEndBetweenUsers(v, c)
    ensures Harmless(v, c, smallest)
  {
    assert {} + AllEntries(v) == AllEntries(v) && {} + RestEntries(v, c) == RestEntries(v, c);
    forall user ensures !Resurfaces(RestEntries(v, c), InputEntries(c), smallest, BaseUsers(v, c.level), user) {
      NothingResurfaces(v, c, smallest, {}, user);
    }
  }

  lemma CompactionHolds(v: Version, written: seq<Entry>, n: nat, horizon: SequenceNumber, c: Compaction,
                        input: seq<Entry>, smallest: SequenceNumber, outputs: seq<FileMetaData>, first: nat,
                        next: Version)
    requires Holds(v, written, n, horizon) && Sequenced(written)
    requires GoodCompaction(v, c, input, smallest, outputs, first, next) && Harmless(v, c, smallest)
    ensures Holds(next, written, n, if horizon < smallest then smallest else horizon)
  {
    WorkGivesGoodOutputs(v, c, input, smallest, outputs, first);
    CompactionInstalls(v, c, outputs, next);
    CompactionKeepsInv(v, c, outputs, next);
    SequencedIsUnique(written);
    assert SetOf(written[..n]) <= SetOf(written);
    UniqueSubset(AllEntries(v), SetOf(written));
    assert {} + AllEntries(v) == AllEntries(v) && {} + AllEntries(next) == AllEntries(next);
    assert {} + RestEntries(v, c) == RestEntries(v, c);
    CompactionPreservesReadsExactly(v, c, input, smallest, outputs, first, next, {});
    ReadsCompose(SetOf(written[..n]), AllEntries(v), AllEntries(next), horizon, smallest);
    CompactionShrinks(v, c, outputs, next);
  }

  lemma CompactionShrinks(v: Version, c: Compaction, outputs: seq<FileMetaData>, next: Version)
    requires WellFormed(v) && GoodPick(v, c) && GoodTables(c, outputs) && CompactedTo(v, c, outputs, next)
    ensures AllEntries(next) <= AllEntries(v)
  {
    forall e | e in AllEntries(next) ensures e in AllEntries(v) {
      var l, g := FileOf(next, e);
      var level, f := Origin(v, c, outputs, next, l, g, e);
      AllEntriesMember(v, level, f, e);
    }
  }

  lemma MoveHolds(v: Version, written: seq<Entry>, n: nat, horizon: SequenceNumber, c: Compaction,
                  maxGrandparentBytes: nat, next: Version)
    requires Holds(v, written, n, horizon) && GoodPick(v, c) && IsTrivialMove(c, maxGrandparentBytes)
    requires Installs(v, CompactionEdit(c, c.inputs0), next)
    ensures Holds(next, written, n, horizon)
  {
    CompactionInstalls(v, c, c.inputs0, next);
    MoveKeepsInv(v, c, maxGrandparentBytes, next);
    MoveIsGoodTable(v, c);
    CompactionShrinks(v, c, c.inputs0, next);
    forall e | e in AllEntries(v) ensures e in AllEntries(next) {
      var l, f := FileOf(v, e);
      assert In(next, if f in c.inputs0 && l == c.level then c.level + 1 else l, f);
    }
    assert AllEntries(next) == AllEntries(v);
  }
}
