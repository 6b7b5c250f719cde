/** The merge loop of a compaction (DoCompactionWork of db/db_impl.cc, with IsBaseLevelForKey and
    ShouldStopBefore of db/version_set.cc). */
module CompactionWork {
  import opened Basics
  import opened InternalKeys
  import opened Versions
  import opened Picking
  import opened CompactionReads
  import opened OutputCuts

  /** No file below the output level has the user key in its range. */
  ghost predicate IsBase(v: Version, level: nat, user: UserKey) {
    forall l: nat, f :: level + 2 <= l && In(v, l, f) ==> !(f.smallest.user <= user <= f.largest.user)
  }

  // ---- the drop rule, entry by entry ----

  /** What the loop decides for entry `i`, from the entry before it. */
  ghost predicate DroppedAt(input: seq<Entry>, i: nat, smallest: SequenceNumber, v: Version, level: nat)
    requires i < |input|
  {
    var e := input[i].key;
    || (i > 0 && input[i - 1].key.user == e.user && input[i - 1].key.sequence <= smallest)
    || (e.kind.Deletion? && e.sequence <= smallest && IsBase(v, level, e.user))
  }

  ghost function KeptUpTo(input: seq<Entry>, n: nat, smallest: SequenceNumber, v: Version, level: nat): seq<Entry>
    requires n <= |input|
  {
    if n == 0 then []
    else
      var front := KeptUpTo(input, n - 1, smallest, v, level);
      if DroppedAt(input, n - 1, smallest, v, level) then front else front + [input[n - 1]]
  }

  ghost function BaseUsers(v: Version, level: nat): iset<UserKey> {
    iset user: UserKey | IsBase(v, level, user)
  }

  lemma {:induction false} KeptMembers(input: seq<Entry>, n: nat, smallest: SequenceNumber, v: Version, level: nat)
    requires n <= |input|
    ensures forall e ::
      e in KeptUpTo(input, n, smallest, v, level) <==>
        exists i :: 0 <= i < n && input[i] == e && !DroppedAt(input, i, smallest, v, level)
  {
    if n > 0 {
      KeptMembers(input, n - 1, smallest, v, level);
    }
  }

  ghost predicate UniqueIn(input: seq<Entry>) {
    forall i, j :: 0 <= i < j < |input| ==>
      input[i].key.user != input[j].key.user || input[i].key.sequence > input[j].key.sequence
  }

  /** Looking at the previous entry only is as good as looking at all newer entries of the user key. */
  lemma PreviousEntryDecides(input: seq<Entry>, i: nat, smallest: SequenceNumber)
    requires SortedKeys(input) && UniqueIn(input) && i < |input|
    ensures Hidden(SetOf(input), input[i], smallest)
      <==> i > 0 && input[i - 1].key.user == input[i].key.user && input[i - 1].key.sequence <= smallest
  {
    if i > 0 && input[i - 1].key.user == input[i].key.user && input[i - 1].key.sequence <= smallest {
      assert input[i - 1] in SetOf(input);
    }
    if Hidden(SetOf(input), input[i], smallest) {
      var o :| o in SetOf(input) && o.key.user == input[i].key.user &&
        input[i].key.sequence < o.key.sequence <= smallest;
      var j :| 0 <= j < |input| && input[j] == o;
      assert j < i;
      if j < i - 1 {
        assert Less(input[j].key, input[i - 1].key) && Less(input[i - 1].key, input[i].key);
        assert input[j].key.sequence > input[i - 1].key.sequence;
      }
    }
  }

  /** The loop keeps what the drop rule on sets keeps. */
  lemma LoopFollowsRule(input: seq<Entry>, smallest: SequenceNumber, v: Version, level: nat)
    requires SortedKeys(input) && UniqueIn(input)
    ensures KeptBy(SetOf(input), SetOf(KeptUpTo(input, |input|, smallest, v, level)), smallest, BaseUsers(v, level))
  {
    var all, kept := SetOf(input), SetOf(KeptUpTo(input, |input|, smallest, v, level));
    KeptMembers(input, |input|, smallest, v, level);
    forall e
      ensures e in kept <==> e in all && !Hidden(all, e, smallest) && !Obsolete(e, smallest, BaseUsers(v, level))
    {
      if e in all {
        var i :| 0 <= i < |input| && input[i] == e;
        PreviousEntryDecides(input, i, smallest);
        forall j | 0 <= j < |input| && input[j] == e ensures j == i {
          assert !(i < j) && !(j < i);
        }
      }
    }
  }

  // ---- the tables written ----

  function Flat(tables: seq<FileMetaData>): seq<Entry> {
    if tables == [] then [] else Flat(tables[..|tables| - 1]) + tables[|tables| - 1].entries
  }

  lemma {:induction false} FlatMembers(tables: seq<FileMetaData>)
    ensures forall e :: e in Flat(tables) <==> exists t :: t in tables && e in t.entries
  {
    if tables != [] {
      var front, last := tables[..|tables| - 1], tables[|tables| - 1];
      FlatMembers(front);
      assert tables == front + [last];
    }
  }

  function TableOf(number: nat, fileSize: nat, entries: seq<Entry>): FileMetaData
    requires entries != []
  {
    FileMetaData(number, fileSize, entries[0].key, entries[|entries| - 1].key, entries)
  }

  /** Tables so far, and the entries of the table being built. */
  ghost predicate Written(tables: seq<FileMetaData>, building: seq<Entry>, all: seq<Entry>) {
    && Flat(tables) + building == all
    && (forall t :: t in tables ==>
       t.entries != [] && t.smallest == t.entries[0].key && t.largest == t.entries[|t.entries| - 1].key)
  }

  /** Cutting a sorted run into tables gives valid, disjoint and sorted tables. */
  lemma {:induction false} CutsAreDisjointSorted(tables: seq<FileMetaData>, building: seq<Entry>, all: seq<Entry>)
    requires Written(tables, building, all) && SortedKeys(all)
    ensures ValidFiles(tables) && DisjointSorted(tables)
    ensures forall t :: t in tables && building != [] ==> Less(t.largest, building[0].key)
  {
    if tables != [] {
      var n := |tables| - 1;
      var front, last := tables[..n], tables[n];
      assert tables == front + [last];
      var head := Flat(front);
      assert all == head + last.entries + building;
      assert Written(front, last.entries + building, all) by {
        assert head + (last.entries + building) == all;
      }
      CutsAreDisjointSorted(front, last.entries + building, all);
      CutIsValid(last, head, building, all);
      forall i, j | 0 <= i < j < |tables| ensures Less(tables[i].largest, tables[j].smallest) {
        if j == n {
          assert tables[i] in front;
        } else {
          assert front[i] == tables[i] && front[j] == tables[j];
        }
      }
    }
  }

  lemma CutIsValid(t: FileMetaData, before: seq<Entry>, after: seq<Entry>, all: seq<Entry>)
    requires all == before + t.entries + after && SortedKeys(all)
    requires t.entries != [] && t.smallest == t.entries[0].key && t.largest == t.entries[|t.entries| - 1].key
    ensures ValidFile(t)
    ensures after != [] ==> Less(t.largest, after[0].key)
  {
    var b, n := |before|, |t.entries|;
    assert forall i :: 0 <= i < n ==> all[b + i] == t.entries[i];
    if after != [] {
      assert all[b + n] == after[0];
    }
  }

  lemma {:induction false} KeptIsSorted(input: seq<Entry>, n: nat, smallest: SequenceNumber, v: Version, level: nat)
    requires SortedKeys(input) && n <= |input|
    ensures SortedKeys(KeptUpTo(input, n, smallest, v, level))
  {
    if n > 0 {
      var front := KeptUpTo(input, n - 1, smallest, v, level);
      KeptIsSorted(input, n - 1, smallest, v, level);
      KeptMembers(input, n - 1, smallest, v, level);
      forall i | 0 <= i < |front| ensures Less(front[i].key, input[n - 1].key) {
        assert front[i] in front;
      }
    }
  }

  // ---- the compaction ----

  lemma OneMoreSize(files: seq<FileMetaData>, from: nat, to: nat)
    requires from <= to < |files|
    ensures TotalFileSize(files[from..to + 1]) == TotalFileSize(files[from..to]) + files[to].fileSize
  {
    assert files[from..to + 1][..to - from] == files[from..to];
  }

  class CompactionRun {
    const version: Version
    const compaction: Compaction
    const maxGrandparentBytes: nat
    /** For each level below the output level, the first file not yet known to end before the keys asked for. */
    var levelPtrs: seq<nat>
    var grandparentIndex: nat
    var seenKey: bool
    var overlappedBytes: nat
    ghost var lastAsked: Option<UserKey>

    ghost predicate Valid()
      reads this
    {
      && |levelPtrs| == NUM_LEVELS
      && (forall l: nat :: compaction.level + 2 <= l < NUM_LEVELS && l < |version.files| ==>
         PassedBefore(version.files[l], levelPtrs[l], lastAsked))
      && grandparentIndex <= |compaction.grandparents|
    }

    ghost predicate Fresh()
      reads this
    {
      lastAsked == None && Watching(Watch(0, 0), false)
    }

    /** How far the count of overlapping bytes has come. */
    ghost predicate Watching(w: Watch, seen: bool)
      reads this
    {
      grandparentIndex == w.index && overlappedBytes == w.overlapped && seenKey == seen
    }

    constructor (version: Version, compaction: Compaction, maxGrandparentBytes: nat)
      requires Searchable(version) && compaction.level + 1 < NUM_LEVELS
      ensures Valid() && this.version == version && this.compaction == compaction && lastAsked == None
      ensures this.maxGrandparentBytes == maxGrandparentBytes && Fresh()
    {
      this.version, this.compaction, this.maxGrandparentBytes := version, compaction, maxGrandparentBytes;
      levelPtrs := seq(NUM_LEVELS, _ => 0);
      grandparentIndex, seenKey, overlappedBytes := 0, false, 0;
      lastAsked := None;
    }

    /** Asked for user keys in increasing order, moves one pointer per level and never looks back. */
    method IsBaseLevelForKey(user: UserKey) returns (base: bool)
      requires Searchable(version) && compaction.level + 1 < NUM_LEVELS
      requires Valid() && (lastAsked.Some? ==> lastAsked.value <= user)
      modifies this`levelPtrs, this`lastAsked
      ensures Valid() && lastAsked == Some(user)
      ensures base <==> IsBase(version, compaction.level, user)
    {
      lastAsked := Some(user);
      var lvl := compaction.level + 2;
      while lvl < NUM_LEVELS
        invariant Valid() && lastAsked == Some(user) && compaction.level + 2 <= lvl <= NUM_LEVELS
        invariant forall l: nat :: compaction.level + 2 <= l < lvl ==> NoneContains(version.files[l], user)
      {
        var files := version.files[lvl];
        while levelPtrs[lvl] < |files|
          invariant Valid() && lastAsked == Some(user) && levelPtrs[lvl] <= |files|
          decreases |files| - levelPtrs[lvl]
        {
          var f := files[levelPtrs[lvl]];
          if user <= f.largest.user {
            if user >= f.smallest.user {
              assert In(version, lvl, f);
              return false;
            }
            break;
          }
          levelPtrs := levelPtrs[lvl := levelPtrs[lvl] + 1];
        }
        PointerDecides(files, levelPtrs[lvl], user);
        lvl := lvl + 1;
      }
      base := true;
      forall l: nat, f | compaction.level + 2 <= l && In(version, l, f)
        ensures !(f.smallest.user <= user <= f.largest.user)
      {
        assert NoneContains(version.files[l], user);
      }
    }

    /** Whether the current output overlaps too many bytes two levels down. */
    method ShouldStopBefore(key: InternalKey) returns (stop: bool)
      requires Valid()
      modifies this`grandparentIndex, this`seenKey, this`overlappedBytes
      ensures Valid() && seenKey
      ensures old(grandparentIndex) <= grandparentIndex
      ensures forall g :: old(grandparentIndex) <= g < grandparentIndex ==>
        Less(compaction.grandparents[g].largest, key)
      ensures grandparentIndex < |compaction.grandparents| ==>
        !Less(compaction.grandparents[grandparentIndex].largest, key)
      ensures var overlap := old(overlappedBytes) +
          if old(seenKey) then TotalFileSize(compaction.grandparents[old(grandparentIndex)..grandparentIndex]) else 0;
        stop == (overlap > maxGrandparentBytes) && overlappedBytes == if stop then 0 else overlap
    {
      while grandparentIndex < |compaction.grandparents| && Less(compaction.grandparents[grandparentIndex].largest, key)
        invariant old(grandparentIndex) <= grandparentIndex <= |compaction.grandparents| && seenKey == old(seenKey)
        invariant forall g :: old(grandparentIndex) <= g < grandparentIndex ==>
          Less(compaction.grandparents[g].largest, key)
        invariant overlappedBytes == old(overlappedBytes) +
          if seenKey then TotalFileSize(compaction.grandparents[old(grandparentIndex)..grandparentIndex]) else 0
        decreases |compaction.grandparents| - grandparentIndex
      {
        OneMoreSize(compaction.grandparents, old(grandparentIndex), grandparentIndex);
        if seenKey {
          overlappedBytes := overlappedBytes + compaction.grandparents[grandparentIndex].fileSize;
        }
        grandparentIndex := grandparentIndex + 1;
      }
      seenKey := true;
      if overlappedBytes > maxGrandparentBytes {
        overlappedBytes := 0;
        stop := true;
      } else {
        stop := false;
      }
    }

    /** The drop rule for the next entry, given the user key and sequence number of the one before. */
    method ShouldDrop(e: InternalKey, current: Option<UserKey>, last: SequenceNumber, smallestSnapshot: SequenceNumber)
      returns (drop: bool)
      requires Searchable(version) && compaction.level + 1 < NUM_LEVELS
      requires Valid() && (lastAsked.Some? ==> lastAsked.value <= e.user) && smallestSnapshot < MAX_SEQUENCE_NUMBER
      modifies this`levelPtrs, this`lastAsked
      ensures Valid() && (lastAsked == Some(e.user) || lastAsked == old(lastAsked))
      ensures drop <==> (|| (current == Some(e.user) && last <= smallestSnapshot)
                         || (e.kind.Deletion? && e.sequence <= smallestSnapshot &&
                            IsBase(version, compaction.level, e.user)))
    {
      var lastSequenceForKey := if current == Some(e.user) then last else MAX_SEQUENCE_NUMBER;
      drop := false;
      if lastSequenceForKey <= smallestSnapshot {
        drop := true;
      } else if e.kind.Deletion? && e.sequence <= smallestSnapshot {
        drop := IsBaseLevelForKey(e.user);
      }
    }

    /** What to do at entry i, knowing the user key and sequence number of the one before. */
    method Decide(rule: CutRule, i: nat, current: Option<UserKey>, last: SequenceNumber,
                  smallestSnapshot: SequenceNumber)
      returns (stop: bool, drop: bool)
      requires Searchable(version) && compaction.level + 1 < NUM_LEVELS
      requires Valid() && smallestSnapshot < MAX_SEQUENCE_NUMBER
      requires rule.grandparents == compaction.grandparents && rule.maxOverlap == maxGrandparentBytes
      requires SortedKeys(rule.input) && i < |rule.input| && Remembered(rule.input, i, current, last, lastAsked)
      requires Watching(WatchBefore(rule, i), i > 0)
      modifies this
      ensures Valid() && stop == StopsAt(rule, i) && Watching(WatchBefore(rule, i + 1), true)
      ensures drop <==> DroppedAt(rule.input, i, smallestSnapshot, version, compaction.level)
      ensures Remembered(rule.input, i + 1, Some(rule.input[i].key.user), rule.input[i].key.sequence, lastAsked)
    {
      var e := rule.input[i];
      assert i > 0 ==> Less(rule.input[i - 1].key, e.key);
      stop := ShouldStopBefore(e.key);
      WatchGoesOn(rule, i, grandparentIndex, overlappedBytes, stop);
      drop := ShouldDrop(e.key, current, last, smallestSnapshot);
    }

    /** Where the loop is with i entries behind it. */
    ghost predicate AtEntry(rule: CutRule, i: nat, state: CompactionState, current: Option<UserKey>,
                            last: SequenceNumber, smallestSnapshot: SequenceNumber, first: nat)
      requires i <= |rule.input|
      reads this
    {
      && Valid() && Remembered(rule.input, i, current, last, lastAsked)
      && state.Progress(KeptUpTo(rule.input, i, smallestSnapshot, version, compaction.level), first, rule.sizeOf)
      && Watching(WatchBefore(rule, i), i > 0) && state.Cut(rule, i)
    }

    /** One turn of the merge loop. */
    method ProcessEntry(rule: CutRule, i: nat, state: CompactionState, current: Option<UserKey>, last: SequenceNumber,
                        smallestSnapshot: SequenceNumber, ghost first: nat)
      returns (r: CompactionState)
      requires Searchable(version) && compaction.level + 1 < NUM_LEVELS && smallestSnapshot < MAX_SEQUENCE_NUMBER
      requires rule.grandparents == compaction.grandparents && rule.maxOverlap == maxGrandparentBytes
      requires SortedKeys(rule.input) && i < |rule.input|
      requires AtEntry(rule, i, state, current, last, smallestSnapshot, first)
      modifies this
      ensures AtEntry(rule, i + 1, r, Some(rule.input[i].key.user), rule.input[i].key.sequence, smallestSnapshot,
        first)
    {
      ghost var kept := KeptUpTo(rule.input, i, smallestSnapshot, version, compaction.level);
      var stop, drop := Decide(rule, i, current, last, smallestSnapshot);
      r := Emit(state, stop, drop, rule, i, kept, first);
    }

    /** The merge loop: drops what the rule allows and cuts the rest into tables. `input` is what the
        merging iterator over the input files yields, `sizeOf` the table builder's size estimate. */
    method DoCompactionWork(input: seq<Entry>, smallestSnapshot: SequenceNumber, maxOutputFileSize: nat,
                            sizeOf: seq<Entry> -> nat, nextFileNumber: nat)
      returns (outputs: seq<FileMetaData>, newNextFileNumber: nat)
      requires Searchable(version) && compaction.level + 1 < NUM_LEVELS
      requires Valid() && Fresh()
      requires SortedKeys(input) && smallestSnapshot < MAX_SEQUENCE_NUMBER
      modifies this
      ensures Flat(outputs) == KeptUpTo(input, |input|, smallestSnapshot, version, compaction.level)
      ensures ValidFiles(outputs) && DisjointSorted(outputs)
      ensures Numbered(outputs, nextFileNumber) && newNextFileNumber == nextFileNumber + |outputs|
      ensures Sized(outputs, sizeOf)
      ensures CutsExactly(CutRule(input, compaction.grandparents, maxGrandparentBytes, sizeOf, maxOutputFileSize),
        outputs)
    {
      var rule := CutRule(input, compaction.grandparents, maxGrandparentBytes, sizeOf, maxOutputFileSize);
      var state := CompactionState([], [], nextFileNumber);
      NothingCut(rule);
      var current: Option<UserKey> := None;
      var last: SequenceNumber := MAX_SEQUENCE_NUMBER;
      for i := 0 to |input|
        invariant AtEntry(rule, i, state, current, last, smallestSnapshot, nextFileNumber)
      {
        state := ProcessEntry(rule, i, state, current, last, smallestSnapshot, nextFileNumber);
        current, last := Some(input[i].key.user), input[i].key.sequence;
      }
      ghost var kept := KeptUpTo(input, |input|, smallestSnapshot, version, compaction.level);
      state := CutLast(state, rule, kept, nextFileNumber);
      outputs, newNextFileNumber := state.outputs, state.nextFileNumber;
      assert Flat(outputs) + [] == Flat(outputs);
      KeptIsSorted(input, |input|, smallestSnapshot, version, compaction.level);
      CutsAreDisjointSorted(outputs, [], kept);
    }
  }

  /** Finishes the current table if the loop is to stop before entry i. */
  method CutBefore(state: CompactionState, stop: bool, rule: CutRule, i: nat, ghost kept: seq<Entry>, ghost first: nat)
    returns (r: CompactionState)
    requires state.Progress(kept, first, rule.sizeOf)
    requires SortedKeys(rule.input) && i < |rule.input| && stop == StopsAt(rule, i) && state.Cut(rule, i)
    ensures r.Progress(kept, first, rule.sizeOf) && r.Cut(rule, i + 1)
  {
    r := state;
    if stop && r.building != [] {
      FinishKeepsProgress(r, rule.sizeOf, kept, first);
      StopKeepsCut(r, rule, i);
      r := r.FinishTable(rule.sizeOf(r.building));
    } else {
      SkipKeepsCut(r, rule, i);
    }
  }

  /** Adds entry i to the current table, and finishes the table when it is large enough. */
  method AddEntry(state: CompactionState, rule: CutRule, i: nat, ghost kept: seq<Entry>, ghost first: nat)
    returns (r: CompactionState)
    requires state.Progress(kept, first, rule.sizeOf)
    requires SortedKeys(rule.input) && i < |rule.input| && state.Cut(rule, i + 1)
    ensures r.Progress(kept + [rule.input[i]], first, rule.sizeOf) && r.Cut(rule, i + 1)
  {
    var e := rule.input[i];
    AddKeepsProgress(state, e, kept, first, rule.sizeOf);
    AddKeepsCut(state, rule, i + 1, e);
    r := state.Add(e);
    if Full(rule, r.building) {
      FinishKeepsProgress(r, rule.sizeOf, kept + [e], first);
      r := r.FinishTable(rule.sizeOf(r.building));
    }
  }

  /** Finishes the table being built when the input ends. */
  method CutLast(state: CompactionState, rule: CutRule, ghost kept: seq<Entry>, ghost first: nat)
    returns (r: CompactionState)
    requires state.Progress(kept, first, rule.sizeOf) && state.Cut(rule, |rule.input|)
    ensures r.building == [] && r.Progress(kept, first, rule.sizeOf) && CutsExactly(rule, r.outputs)
  {
    r := state;
    EndKeepsCut(r, rule);
    if r.building != [] {
      FinishKeepsProgress(r, rule.sizeOf, kept, first);
      r := r.FinishTable(rule.sizeOf(r.building));
    }
  }

  /** What happens to the tables at one entry: the current one may be finished before it or after it. */
  method Emit(state: CompactionState, stop: bool, drop: bool, rule: CutRule, i: nat, ghost kept: seq<Entry>,
              ghost first: nat)
    returns (r: CompactionState)
    requires state.Progress(kept, first, rule.sizeOf)
    requires SortedKeys(rule.input) && i < |rule.input| && stop == StopsAt(rule, i) && state.Cut(rule, i)
    ensures r.Progress(if drop then kept else kept + [rule.input[i]], first, rule.sizeOf) && r.Cut(rule, i + 1)
  {
    r := CutBefore(state, stop, rule, i, kept, first);
    if !drop {
      r := AddEntry(r, rule, i, kept, first);
    }
  }

  /** What the loop knows of the i entries behind it. */
  predicate Remembered(input: seq<Entry>, i: nat, current: Option<UserKey>, last: SequenceNumber,
                       asked: Option<UserKey>)
    requires i <= |input|
  {
    if i == 0 then current == None && asked == None
    else
      && current == Some(input[i - 1].key.user) && last == input[i - 1].key.sequence
      && AskedUpTo(asked, input[i - 1].key.user)
  }

  predicate AskedUpTo(asked: Option<UserKey>, user: UserKey) {
    asked.Some? ==> asked.value <= user
  }

  /** The tables finished so far and the one being built; its number is taken when its first entry
      arrives. */
  datatype CompactionState = CompactionState(outputs: seq<FileMetaData>, building: seq<Entry>, nextFileNumber: nat) {

    function Add(e: Entry): CompactionState {
      CompactionState(outputs, building + [e], if building == [] then nextFileNumber + 1 else nextFileNumber)
    }

    function Built(fileSize: nat): FileMetaData
      requires building != [] && nextFileNumber > 0
    {
      TableOf(nextFileNumber - 1, fileSize, building)
    }

    function FinishTable(fileSize: nat): CompactionState
      requires building != [] && nextFileNumber > 0
    {
      CompactionState(outputs + [Built(fileSize)], [], nextFileNumber)
    }

    /** The cuts made in the first n entries are where they should be, for an opened state. */
    ghost predicate Cut(rule: CutRule, n: nat)
      requires n <= |rule.input|
    {
      forall x: CompactionState {:trigger Opened(x)} ::
        Opened(x) && x == this ==> Cutting(rule, n, x.outputs, x.building)
    }

    /** Everything kept so far is written, in order, in tables with consecutive numbers. */
    ghost predicate Progress(kept: seq<Entry>, first: nat, sizeOf: seq<Entry> -> nat) {
      && Written(outputs, building, kept)
      && Numbered(outputs, first) && Sized(outputs, sizeOf)
      && nextFileNumber == first + |outputs| + if building == [] then 0 else 1
    }
  }

  /** Tables are recorded with the size that the builder gives for their entries. */
  ghost predicate Sized(outputs: seq<FileMetaData>, sizeOf: seq<Entry> -> nat) {
    forall t :: t in outputs ==> t.fileSize == sizeOf(t.entries)
  }

  ghost predicate Numbered(outputs: seq<FileMetaData>, first: nat) {
    forall i :: 0 <= i < |outputs| ==> outputs[i].number == first + i
  }

  lemma FinishKeepsProgress(state: CompactionState, sizeOf: seq<Entry> -> nat, kept: seq<Entry>, first: nat)
    requires state.building != [] && state.Progress(kept, first, sizeOf)
    ensures state.FinishTable(sizeOf(state.building)).Progress(kept, first, sizeOf)
  {
    var t := TableOf(state.nextFileNumber - 1, sizeOf(state.building), state.building);
    var after := state.outputs + [t];
    assert after[..|after| - 1] == state.outputs;
    assert Flat(after) == Flat(state.outputs) + state.building;
    assert Flat(after) + [] == Flat(after);
  }

  lemma AddKeepsProgress(state: CompactionState, e: Entry, kept: seq<Entry>, first: nat, sizeOf: seq<Entry> -> nat)
    requires state.Progress(kept, first, sizeOf)
    ensures state.Add(e).Progress(kept + [e], first, sizeOf)
  {
    assert Flat(state.outputs) + (state.building + [e]) == Flat(state.outputs) + state.building + [e];
  }

  lemma SkipKeepsCut(state: CompactionState, rule: CutRule, i: nat)
    requires i < |rule.input| && SortedKeys(rule.input) && state.Cut(rule, i)
    requires StopsAt(rule, i) ==> state.building == []
    ensures state.Cut(rule, i + 1)
  {
    assert Opened(state);
    Skipped(rule, i, state.outputs, state.building);
  }

  lemma StopKeepsCut(state: CompactionState, rule: CutRule, i: nat)
    requires i < |rule.input| && SortedKeys(rule.input) && state.Cut(rule, i)
    requires StopsAt(rule, i) && state.building != [] && state.nextFileNumber > 0
    ensures state.FinishTable(rule.sizeOf(state.building)).Cut(rule, i + 1)
  {
    assert Opened(state);
    Stopped(rule, i, state.outputs, state.building, state.Built(rule.sizeOf(state.building)));
  }

  lemma AddKeepsCut(state: CompactionState, rule: CutRule, n: nat, e: Entry)
    requires 0 < n <= |rule.input| && SortedKeys(rule.input) && state.Cut(rule, n) && e == rule.input[n - 1]
    requires state.building != [] ==> state.nextFileNumber > 0
    ensures var next := state.Add(e);
      if Full(rule, next.building) then next.FinishTable(rule.sizeOf(next.building)).Cut(rule, n)
      else next.Cut(rule, n)
  {
    assert Opened(state);
    var next := state.Add(e);
    if Full(rule, next.building) {
      Filled(rule, n, state.outputs, state.building, e, next.Built(rule.sizeOf(next.building)));
    } else {
      Added(rule, n, state.outputs, state.building, e);
    }
  }

  lemma EndKeepsCut(state: CompactionState, rule: CutRule)
    requires state.Cut(rule, |rule.input|)
    requires state.building != [] ==> state.nextFileNumber > 0
    ensures CutsExactly(rule, if state.building == [] then state.outputs
                              else state.FinishTable(rule.sizeOf(state.building)).outputs)
  {
    assert Opened(state);
    if state.building != [] {
      Finished(rule, state.outputs, state.building, state.Built(rule.sizeOf(state.building)));
    }
  }

  /** All files before the pointer end before the last user key asked for. */
  ghost predicate PassedBefore(files: seq<FileMetaData>, pointer: nat, asked: Option<UserKey>) {
    pointer <= |files| && forall i :: 0 <= i < pointer ==> asked.Some? && files[i].largest.user < asked.value
  }

  ghost predicate NoneContains(files: seq<FileMetaData>, user: UserKey) {
    forall f :: f in files ==> !(f.smallest.user <= user <= f.largest.user)
  }

  lemma PointerDecides(files: seq<FileMetaData>, pointer: nat, user: UserKey)
    requires ValidFiles(files) && DisjointSorted(files) && pointer <= |files|
    requires PassedBefore(files, pointer, Some(user))
    requires pointer < |files| ==> user < files[pointer].smallest.user
    ensures NoneContains(files, user)
  {
    forall f | f in files ensures !(f.smallest.user <= user <= f.largest.user) {
      var i :| 0 <= i < |files| && files[i] == f;
      if pointer < i {
        PairOrdered(files, pointer, i);
      }
    }
  }
}
