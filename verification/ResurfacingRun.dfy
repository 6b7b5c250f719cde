/** Where the picker's shortfall leads: an ordinary run of the database from its creation on, with four writes, a
    snapshot taken and released, three flushes and two compactions, after which a read answers with a value that
    was deleted (db/db_impl.cc, db/version_set.cc). */
module ResurfacingRun {
  import opened Basics
  import opened InternalKeys
  import opened Versions
  import opened Picking
  import opened VersionBuilder
  import opened Install
  import opened OutputCuts
  import opened CompactionWork
  import opened CompactionTheorem
  import opened StoreReads
  import opened ResurfacingDeletion
  import opened Durability

  // ---- the tables and versions of the run ----

  const OLDEST := TableOf(5, 1, [OLD_TWO])
  const OVER := TableOf(7, 1, [OLD_ONE, DELETED_TWO])
  const LEFT := TableOf(8, 1, [OLD_ONE, DELETED_TWO])
  const RIGHT := TableOf(9, 1, [OLD_TWO])
  const LAST := TableOf(11, 1, [NEW_ONE])
  const BACK := TableOf(12, 1, [NEW_ONE])

  const MERGE := Compaction(1, [OVER], [OLDEST], [])
  const PICK := Compaction(1, [LAST], [LEFT], [])

  const SPLIT := TwoLevels([LAST], [LEFT, RIGHT])
  const WRONG := TwoLevels([], [BACK, RIGHT])

  function TwoLevels(one: seq<FileMetaData>, two: seq<FileMetaData>): Version {
    Version([[], one, two, [], [], [], []])
  }

  // ---- installs of two levels ----

  lemma OnTwoLevels(one: seq<FileMetaData>, two: seq<FileMetaData>, level: nat, f: FileMetaData)
    ensures In(TwoLevels(one, two), level, f) <==> (level == 1 && f in one) || (level == 2 && f in two)
  {
    assert level < 7 ==> level == 0 || level == 1 || level == 2 || level == 3 || level == 4 || level == 5 || level == 6;
  }

  lemma TwoLevelsSorted(one: seq<FileMetaData>, two: seq<FileMetaData>)
    requires SortedFiles(one) && SortedFiles(two)
    ensures forall l :: 0 <= l < NUM_LEVELS ==> SortedFiles(TwoLevels(one, two).files[l])
  {
    forall l | 0 <= l < NUM_LEVELS ensures SortedFiles(TwoLevels(one, two).files[l]) {
      assert l == 0 || l == 1 || l == 2 || l == 3 || l == 4 || l == 5 || l == 6;
    }
  }

  /** A flush of one table puts it where it says. */
  lemma FlushOnTwoLevels(one: seq<FileMetaData>, two: seq<FileMetaData>, level: nat, f: FileMetaData,
                         one': seq<FileMetaData>, two': seq<FileMetaData>)
    requires level == 1 || level == 2
    requires SortedFiles(one') && SortedFiles(two')
    requires forall g :: g in one' <==> g in one || (level == 1 && g == f)
    requires forall g :: g in two' <==> g in two || (level == 2 && g == f)
    ensures Installs(TwoLevels(one, two), FlushEdit(level, f), TwoLevels(one', two'))
  {
    var v, edit, next := TwoLevels(one, two), FlushEdit(level, f), TwoLevels(one', two');
    TwoLevelsSorted(one', two');
    assert edit.added[0] == (level, f) && (level, f) in edit.added;
    forall l, g | 0 <= l < NUM_LEVELS ensures g in next.files[l] <==> g in EditLevel(FileSet(v.files[l]), edit, l) {
      assert l == 0 || l == 1 || l == 2 || l == 3 || l == 4 || l == 5 || l == 6;
      assert g in AddedAt(edit.added, l) <==> l == level && g == f;
    }
  }

  /** A compaction of the one table in level 1 with one table of level 2. */
  lemma CompactOnTwoLevels(a: FileMetaData, b: FileMetaData, rest: seq<FileMetaData>, outputs: seq<FileMetaData>,
                           two: seq<FileMetaData>, two': seq<FileMetaData>)
    requires SortedFiles(two') && b !in rest && (forall g :: g in rest ==> g.number != b.number)
    requires forall g :: g in two <==> g == b || g in rest
    requires forall g :: g in two' <==> g in outputs || g in rest
    ensures Installs(TwoLevels([a], two), CompactionEdit(Compaction(1, [a], [b], []), outputs), TwoLevels([], two'))
  {
    var v, edit, next := TwoLevels([a], two), CompactionEdit(Compaction(1, [a], [b], []), outputs), TwoLevels([], two');
    TwoLevelsSorted([], two');
    assert a in [a] && b in [b];
    assert edit.deleted == {(1, a.number), (2, b.number)};
    forall l, g | 0 <= l < NUM_LEVELS ensures g in next.files[l] <==> g in EditLevel(FileSet(v.files[l]), edit, l) {
      assert l == 0 || l == 1 || l == 2 || l == 3 || l == 4 || l == 5 || l == 6;
      OutputsAdded(edit, outputs, l, g);
    }
  }

  lemma OutputsAdded(edit: VersionEdit, outputs: seq<FileMetaData>, l: nat, g: FileMetaData)
    requires edit.added == seq(|outputs|, i requires 0 <= i < |outputs| => (2, outputs[i]))
    ensures g in AddedAt(edit.added, l) <==> l == 2 && g in outputs
  {
    if g in outputs {
      var i :| 0 <= i < |outputs| && outputs[i] == g;
      assert edit.added[i] == (2, g);
    }
  }

  // ---- the flushes ----

  lemma FlushOldest()
    ensures FlushTable(EmptyVersion(), [OLD_TWO], 5, 2, OLDEST, TwoLevels([], [OLDEST]))
  {
    assert EmptyVersion() == TwoLevels([], []);
    FlushOnTwoLevels([], [], 2, OLDEST, [], [OLDEST]);
    forall level: nat, g ensures !In(EmptyVersion(), level, g) {
      OnTwoLevels([], [], level, g);
    }
  }

  lemma FlushOver()
    ensures FlushTable(TwoLevels([], [OLDEST]), [OLD_ONE, DELETED_TWO], 7, 1, OVER, TwoLevels([OVER], [OLDEST]))
  {
    FlushOnTwoLevels([], [OLDEST], 1, OVER, [OVER], [OLDEST]);
    forall level: nat, g ensures In(TwoLevels([], [OLDEST]), level, g) <==> level == 2 && g == OLDEST {
      OnTwoLevels([], [OLDEST], level, g);
    }
  }

  lemma FlushLast()
    ensures FlushTable(TwoLevels([], [LEFT, RIGHT]), [NEW_ONE], 11, 1, LAST, SPLIT)
    ensures SplitUser(SPLIT, LAST, LEFT, RIGHT)
  {
    TwoTables();
    FlushOnTwoLevels([], [LEFT, RIGHT], 1, LAST, [LAST], [LEFT, RIGHT]);
    forall level: nat, g
      ensures In(TwoLevels([], [LEFT, RIGHT]), level, g) <==> level == 2 && (g == LEFT || g == RIGHT)
    {
      OnTwoLevels([], [LEFT, RIGHT], level, g);
    }
  }

  // ---- the first compaction ----

  /** Two tables that overlap, alone in their levels. */
  lemma OnlyPick(a: FileMetaData, b: FileMetaData)
    requires ValidFile(a) && Overlaps(b, Some(a.smallest.user), Some(a.largest.user))
    ensures GoodPick(TwoLevels([a], [b]), Compaction(1, [a], [b], []))
  {
    var v := TwoLevels([a], [b]);
    assert v.files[1][0..1] == [a] && CleanSlice(v.files[1], [a], 0, 1);
    assert a in [a] && CoversExactly([a], a.smallest, a.largest);
    assert [b][..0] == [];
    assert Overlapping([b], Some(a.smallest.user), Some(a.largest.user)) == [b];
    assert NextInputs(v.files[2], [a], [b]);
  }

  lemma MergeIsPicked()
    ensures GoodPick(TwoLevels([OVER], [OLDEST]), MERGE)
  {
    MergeOverlaps();
    OnlyPick(OVER, OLDEST);
  }

  lemma MergeOverlaps()
    ensures ValidFile(OVER) && Overlaps(OLDEST, Some(OVER.smallest.user), Some(OVER.largest.user))
  {
  }

  lemma MergeInput()
    ensures MergedInput(MERGE, [OLD_ONE, DELETED_TWO, OLD_TWO])
  {
    var input := [OLD_ONE, DELETED_TWO, OLD_TWO];
    assert InputFiles(MERGE) == [OVER, OLDEST];
    assert OVER in InputFiles(MERGE) && OLDEST in InputFiles(MERGE);
    assert OVER.entries[0] == OLD_ONE && OVER.entries[1] == DELETED_TWO && OLDEST.entries[0] == OLD_TWO;
    assert OLD_ONE in OVER.entries && DELETED_TWO in OVER.entries && OLD_TWO in OLDEST.entries;
    assert input[0] in input && input[1] in input && input[2] in input;
    forall e ensures e in SetOf(input) <==> e in InputEntries(MERGE) {
      if f :| f in InputFiles(MERGE) && e in f.entries {
        assert f == OVER || f == OLDEST;
      }
    }
  }

  /** The snapshot at 1 sees the old value of user key 2.0, so the loop keeps it along with its deletion. */
  lemma MergeKeepsAll(v: Version)
    ensures KeptUpTo([OLD_ONE, DELETED_TWO, OLD_TWO], 3, 1, v, 1) == [OLD_ONE, DELETED_TWO, OLD_TWO]
  {
    var input := [OLD_ONE, DELETED_TWO, OLD_TWO];
    assert !DroppedAt(input, 0, 1, v, 1) && !DroppedAt(input, 1, 1, v, 1) && !DroppedAt(input, 2, 1, v, 1);
    assert KeptUpTo(input, 0, 1, v, 1) == [];
    assert KeptUpTo(input, 1, 1, v, 1) == [OLD_ONE];
    assert KeptUpTo(input, 2, 1, v, 1) == [OLD_ONE, DELETED_TWO];
  }

  lemma TwoTables()
    ensures ValidFile(LEFT) && ValidFile(RIGHT) && FileLess(LEFT, RIGHT)
  {
  }

  lemma TwoTablesFlat(a: FileMetaData, b: FileMetaData)
    ensures Flat([a, b]) == a.entries + b.entries
  {
    assert [a, b][..1] == [a] && [a][..0] == [];
    assert Flat([a]) == [] + a.entries == a.entries;
  }

  /** The first table is full after the deletion. */
  lemma MergeWork()
    ensures WorkDone(TwoLevels([OVER], [OLDEST]), MERGE, [OLD_ONE, DELETED_TWO, OLD_TWO], 1, [LEFT, RIGHT], 8)
  {
    MergeKeepsAll(TwoLevels([OVER], [OLDEST]));
    TwoTables();
    TwoTablesFlat(LEFT, RIGHT);
  }

  lemma Merge()
    ensures GoodCompaction(TwoLevels([OVER], [OLDEST]), MERGE, [OLD_ONE, DELETED_TWO, OLD_TWO], 1, [LEFT, RIGHT], 8,
      TwoLevels([], [LEFT, RIGHT]))
  {
    MergeIsPicked();
    MergeInput();
    MergeWork();
    TwoTables();
    MergeTakesAll();
    CompactOnTwoLevels(OVER, OLDEST, [], [LEFT, RIGHT], [OLDEST], [LEFT, RIGHT]);
  }

  /** This compaction leaves no table behind. */
  lemma MergeTakesAll()
    ensures NewNumber(TwoLevels([OVER], [OLDEST]), 8) && Harmless(TwoLevels([OVER], [OLDEST]), MERGE, 1)
  {
    var v := TwoLevels([OVER], [OLDEST]);
    forall level: nat, g ensures In(v, level, g) <==> (level == 1 && g == OVER) || (level == 2 && g == OLDEST) {
      OnTwoLevels([OVER], [OLDEST], level, g);
    }
    assert OVER in MERGE.inputs0 && OLDEST in MERGE.inputs1;
    assert forall level: nat, g :: !Remains(v, MERGE, level, g);
    assert RestEntries(v, MERGE) == {};
  }

  function CountedSize(es: seq<Entry>): nat {
    |es|
  }

  /** The code cuts this output so when two entries make a table large enough, and the one below does not cut. */
  lemma SizeCut()
    ensures CutsExactly(CutRule([OLD_ONE, DELETED_TWO, OLD_TWO], MERGE.grandparents, 0, CountedSize, 2), [LEFT, RIGHT])
    ensures CutsExactly(CutRule([NEW_ONE, OLD_ONE, DELETED_TWO], PICK.grandparents, 0, CountedSize, 2), [BACK])
  {
    var merge := CutRule([OLD_ONE, DELETED_TWO, OLD_TWO], [], 0, CountedSize, 2);
    var last := CutRule([NEW_ONE, OLD_ONE, DELETED_TWO], [], 0, CountedSize, 2);
    forall m: nat | m < 3 ensures !StopsAt(merge, m) && !StopsAt(last, m) {
      NoGrandparentsNoStop(merge, m);
      NoGrandparentsNoStop(last, m);
    }
  }

  // ---- the last compaction ----

  lemma LastWork()
    ensures GoodPick(SPLIT, PICK) && MergedInput(PICK, [NEW_ONE, OLD_ONE, DELETED_TWO])
    ensures WorkDone(SPLIT, PICK, [NEW_ONE, OLD_ONE, DELETED_TWO], 4, [BACK], 12)
  {
    FlushLast();
    var pick := SplitUserPick(SPLIT, LAST, LEFT, RIGHT);
    SplitUserRest(SPLIT, LAST, LEFT, RIGHT, PICK);
    SplitUserInputs(SPLIT, LAST, LEFT, RIGHT, PICK);
    ThreeEntries([NEW_ONE, OLD_ONE, DELETED_TWO]);
    SplitUserWork(SPLIT, LAST, LEFT, RIGHT, BACK);
  }

  lemma LastReads()
    ensures Lookup(AllEntries(SPLIT), 2.0, 4) == None && Lookup(AllEntries(WRONG), 2.0, 4) == Some("deleted value")
  {
    FlushLast();
    LastWork();
    SplitUserNext(SPLIT, LAST, LEFT, RIGHT, BACK, WRONG);
    AnyCompactionOfSplitUser(SPLIT, LAST, LEFT, RIGHT, PICK, [NEW_ONE, OLD_ONE, DELETED_TWO], [BACK], WRONG);
  }

  lemma CompactLast()
    ensures GoodCompaction(SPLIT, PICK, [NEW_ONE, OLD_ONE, DELETED_TWO], 4, [BACK], 12, WRONG)
  {
    FlushLast();
    LastWork();
    SplitUserHoldsThree(SPLIT, LAST, LEFT, RIGHT);
    assert NewNumber(SPLIT, 12);
    assert FileLess(BACK, RIGHT);
    CompactOnTwoLevels(LAST, LEFT, [RIGHT], [BACK], [LEFT, RIGHT], [BACK, RIGHT]);
  }

  // ---- runs ----

  /** A run, harmless so far, and the state it ends in. */
  ghost predicate Leads(states: seq<State>, steps: seq<Step>, s: State) {
    Run(states, steps) && HarmlessUpTo(states, steps, |steps|) && states[|steps|] == s
  }

  lemma RunGrows(states: seq<State>, steps: seq<Step>, step: Step, next: State)
    requires Run(states, steps) && Next(states[|steps|], step, next)
    ensures Run(states + [next], steps + [step])
  {
    var ss, ts := states + [next], steps + [step];
    forall i | 0 <= i < |ts| ensures RunStep(ss, ts, i) {
      if i < |steps| {
        assert RunStep(states, steps, i);
        assert ss[i] == states[i] && ss[i + 1] == states[i + 1] && ts[i] == steps[i];
      }
    }
  }

  lemma Extend(states: seq<State>, steps: seq<Step>, s: State, step: Step, next: State)
    returns (ss: seq<State>, ts: seq<Step>)
    requires Run(states, steps) && states[|steps|] == s && Next(s, step, next)
    ensures ss == states + [next] && ts == steps + [step] && Run(ss, ts) && ss[|ts|] == next
    ensures forall n :: 0 <= n <= |steps| && HarmlessUpTo(states, steps, n) ==> HarmlessUpTo(ss, ts, n)
    ensures HarmlessUpTo(states, steps, |steps|) && HarmlessStep(s, step) ==> HarmlessUpTo(ss, ts, |ts|)
  {
    ss, ts := states + [next], steps + [step];
    RunGrows(states, steps, step, next);
  }

  lemma Go(states: seq<State>, steps: seq<Step>, s: State, step: Step, next: State)
    returns (ss: seq<State>, ts: seq<Step>)
    requires Leads(states, steps, s) && Next(s, step, next) && HarmlessStep(s, step)
    ensures Leads(ss, ts, next)
  {
    ss, ts := Extend(states, steps, s, step, next);
  }

  /** Running with a version and nothing in memory. */
  ghost predicate Quiet(s: State, v: Version, nextFile: nat, written: seq<Entry>, snapshots: multiset<SequenceNumber>) {
    s.process.Up? &&
    var m := s.process.memory;
    && m.mem == [] && m.imm == None && m.logged == None && m.job == Idle && m.logfile in s.disk.logs
    && m.version == v && m.nextFile == nextFile && m.lastSequence == |written| && s.written == written
    && m.snapshots == snapshots
  }

  lemma Start() returns (states: seq<State>, steps: seq<Step>, s: State)
    ensures Leads(states, steps, s) && Quiet(s, EmptyVersion(), 4, [], multiset{})
  {
    var s0 := Created();
    states, steps := [s0], [];
    var s1 := s0.(disk := s0.disk.(logs := map[3 := []]), newestLog := 3, process := Opening(EmptyVersion(), 3, 4, 0));
    assert Installs(EmptyVersion(), AddedToLevel0([]), EmptyVersion());
    assert PutTables(s0.disk.tables, []) == s0.disk.tables;
    assert s0.disk.logs[3 := []] == map[3 := []];
    states, steps := Go(states, steps, s0, Open([], [], EmptyVersion(), 3), s1);
    s := s1.(disk := s1.disk.(manifest := Manifest(EmptyVersion(), 3, 4, 0)),
             process := Up(Memory([], None, None, 3, EmptyVersion(), 3, 4, 0, Idle, multiset{})));
    states, steps := Go(states, steps, s1, OpenCommit, s);
  }

  /** A batch is logged and applied. */
  lemma Write(states: seq<State>, steps: seq<Step>, s: State, record: Record)
    returns (ss: seq<State>, ts: seq<Step>, next: State)
    requires Leads(states, steps, s) && s.process.Up?
    requires s.process.memory.logged == None && s.process.memory.logfile in s.disk.logs
    requires Continues(record, s.process.memory.lastSequence)
    ensures Leads(ss, ts, next) && next.process.Up? && next.written == s.written + record
    ensures next.process.memory == s.process.memory.(
      mem := s.process.memory.mem + record, lastSequence := s.process.memory.lastSequence + |record|)
  {
    var m := s.process.memory;
    var s1 := s.(disk := s.disk.(logs := s.disk.logs[m.logfile := s.disk.logs[m.logfile] + [record]]),
                 written := s.written + record, process := Up(m.(logged := Some(record))));
    ss, ts := Go(states, steps, s, Append(record), s1);
    next := s1.(process := Up(m.(mem := m.mem + record, lastSequence := m.lastSequence + |record|)));
    ss, ts := Go(ss, ts, s1, Apply, next);
  }

  /** A finished job's edit is committed and installed. */
  lemma Finish(states: seq<State>, steps: seq<Step>, s: State)
    returns (ss: seq<State>, ts: seq<Step>, next: State)
    requires Run(states, steps) && states[|steps|] == s && s.process.Up? && s.process.memory.job.Ready?
    ensures ts == steps + [Commit, InstallCommitted] && |ss| == |states| + 2 && states <= ss && Run(ss, ts)
    ensures ss[|ts|] == next
    ensures Leads(states, steps, s) ==> Leads(ss, ts, next)
    ensures next.process.Up? && next.written == s.written && next.disk.logs == s.disk.logs
    ensures var m := s.process.memory; var e := m.job.edit;
      next.process.memory == m.(
        version := e.next, logNumber := e.logNumber, imm := if e.flush then None else m.imm, job := Idle)
  {
    var m := s.process.memory;
    var e := m.job.edit;
    var s1 := s.(disk := s.disk.(manifest := Manifest(e.next, e.logNumber, m.nextFile, m.lastSequence)),
                 held := if e.flush then s.held + |Entries(m.imm)| else s.held,
                 horizon := Later(s.horizon, e.smallest), process := Up(m.(job := Committed(e))));
    ss, ts := Extend(states, steps, s, Commit, s1);
    next := s1.(process := Up(m.(version := e.next, logNumber := e.logNumber,
                                 imm := if e.flush then None else m.imm, job := Idle)));
    ss, ts := Extend(ss, ts, s1, InstallCommitted, next);
  }

  /** A batch is written and then flushed to a level. */
  lemma WriteAndFlush(states: seq<State>, steps: seq<Step>, s: State, v: Version, nextFile: nat, written: seq<Entry>,
                      snapshots: multiset<SequenceNumber>, record: Record, level: nat, f: FileMetaData,
                      flushed: Version)
    returns (ss: seq<State>, ts: seq<Step>, next: State)
    requires Leads(states, steps, s) && Quiet(s, v, nextFile, written, snapshots)
    requires record != [] && Continues(record, |written|) && FlushTable(v, record, nextFile + 1, level, f, flushed)
    ensures Leads(ss, ts, next) && Quiet(next, flushed, nextFile + 2, written + record, snapshots)
  {
    var s1, s2, s3;
    ss, ts, s1 := Write(states, steps, s, record);
    var m := s1.process.memory;
    assert m.mem == record;
    s2 := s1.(disk := s1.disk.(logs := s1.disk.logs[nextFile := []]), newestLog := nextFile,
              process := Up(m.(imm := Some(record), mem := [], logfile := nextFile, nextFile := nextFile + 1)));
    ss, ts := Go(ss, ts, s1, SwitchLog, s2);
    s3 := Built(s2, s2.disk.tables[nextFile + 1 := f], nextFile + 2, Edit(flushed, nextFile, true, s2.horizon));
    ss, ts := Go(ss, ts, s2, BuildFlush(level, Some(f), flushed), s3);
    ss, ts, next := Finish(ss, ts, s3);
  }

  lemma CompactionIsBuilt(s: State, v: Version, nextFile: nat, written: seq<Entry>,
                          snapshots: multiset<SequenceNumber>, c: Compaction, input: seq<Entry>,
                          smallest: SequenceNumber, outputs: seq<FileMetaData>, after: nat, compacted: Version)
    returns (next: State)
    requires Quiet(s, v, nextFile, written, snapshots)
    requires GoodCompaction(v, c, input, smallest, outputs, nextFile, compacted)
    requires smallest <= |written| && (forall snapshot :: snapshot in snapshots ==> smallest <= snapshot)
    requires nextFile <= after && forall o :: o in outputs ==> nextFile <= o.number < after
    ensures Next(s, BuildCompaction(c, input, smallest, outputs, nextFile, after, compacted), next)
    ensures next.process.Up? && next.written == s.written && next.disk.logs == s.disk.logs
    ensures next.process.memory == s.process.memory.(
      nextFile := after, job := Ready(Edit(compacted, s.process.memory.logNumber, false, smallest)))
  {
    var edit := Edit(compacted, s.process.memory.logNumber, false, smallest);
    next := Built(s, PutTables(s.disk.tables, outputs), after, edit);
  }

  /** A compaction is worked out, committed and installed. */
  lemma CompactDown(states: seq<State>, steps: seq<Step>, s: State, v: Version, nextFile: nat, written: seq<Entry>,
                    snapshots: multiset<SequenceNumber>, c: Compaction, input: seq<Entry>, smallest: SequenceNumber,
                    outputs: seq<FileMetaData>, after: nat, compacted: Version)
    returns (ss: seq<State>, ts: seq<Step>, next: State)
    requires Leads(states, steps, s) && Quiet(s, v, nextFile, written, snapshots)
    requires GoodCompaction(v, c, input, smallest, outputs, nextFile, compacted)
    requires smallest <= |written| && (forall snapshot :: snapshot in snapshots ==> smallest <= snapshot)
    requires nextFile <= after && forall o :: o in outputs ==> nextFile <= o.number < after
    ensures |ts| == |steps| + 3 && |ss| == |states| + 3 && states <= ss && steps <= ts && Run(ss, ts)
    ensures ts[|steps|] == BuildCompaction(c, input, smallest, outputs, nextFile, after, compacted)
    ensures ts[|steps| + 1] == Commit && ts[|steps| + 2] == InstallCommitted && HarmlessUpTo(ss, ts, |steps|)
    ensures ss[|ts|] == next && Quiet(next, compacted, after, written, snapshots)
    ensures Harmless(v, c, smallest) ==> Leads(ss, ts, next)
  {
    var step := BuildCompaction(c, input, smallest, outputs, nextFile, after, compacted);
    var s1 := CompactionIsBuilt(s, v, nextFile, written, snapshots, c, input, smallest, outputs, after, compacted);
    ss, ts := Extend(states, steps, s, step, s1);
    ss, ts, next := Finish(ss, ts, s1);
  }

  // ---- the run ----

  lemma RunToMerge() returns (states: seq<State>, steps: seq<Step>, s: State)
    ensures Leads(states, steps, s)
    ensures Quiet(s, TwoLevels([], [LEFT, RIGHT]), 10, [OLD_TWO, OLD_ONE, DELETED_TWO], multiset{1})
  {
    states, steps, s := Start();
    FlushOldest();
    states, steps, s := WriteAndFlush(states, steps, s, EmptyVersion(), 4, [], multiset{}, [OLD_TWO], 2, OLDEST,
                                      TwoLevels([], [OLDEST]));
    assert [] + [OLD_TWO] == [OLD_TWO];
    var m := s.process.memory;
    var taken := s.(process := Up(m.(snapshots := m.snapshots + multiset{m.lastSequence})));
    states, steps := Go(states, steps, s, TakeSnapshot, taken);
    FlushOver();
    states, steps, s := WriteAndFlush(states, steps, taken, TwoLevels([], [OLDEST]), 6, [OLD_TWO], multiset{1},
                                      [OLD_ONE, DELETED_TWO], 1, OVER, TwoLevels([OVER], [OLDEST]));
    assert [OLD_TWO] + [OLD_ONE, DELETED_TWO] == [OLD_TWO, OLD_ONE, DELETED_TWO];
    Merge();
    MergeTakesAll();
    states, steps, s := CompactDown(states, steps, s, TwoLevels([OVER], [OLDEST]), 8, [OLD_TWO, OLD_ONE, DELETED_TWO],
                                    multiset{1}, MERGE, [OLD_ONE, DELETED_TWO, OLD_TWO], 1, [LEFT, RIGHT], 10,
                                    TwoLevels([], [LEFT, RIGHT]));
  }

  const WRITES := [OLD_TWO, OLD_ONE, DELETED_TWO, NEW_ONE]

  lemma RunToSplit() returns (states: seq<State>, steps: seq<Step>, s: State)
    ensures Leads(states, steps, s) && Quiet(s, SPLIT, 12, WRITES, multiset{})
  {
    states, steps, s := RunToMerge();
    var m := s.process.memory;
    var released := s.(process := Up(m.(snapshots := m.snapshots - multiset{1})));
    states, steps := Go(states, steps, s, ReleaseSnapshot(1), released);
    FlushLast();
    states, steps, s := WriteAndFlush(states, steps, released, TwoLevels([], [LEFT, RIGHT]), 10,
                                      [OLD_TWO, OLD_ONE, DELETED_TWO], multiset{}, [NEW_ONE], 1, LAST, SPLIT);
    assert [OLD_TWO, OLD_ONE, DELETED_TWO] + [NEW_ONE] == WRITES;
  }

  lemma TwoIsDeleted()
    ensures LastWrite(WRITES, 2.0) == None
  {
    assert WRITES[..3] == [OLD_TWO, OLD_ONE, DELETED_TWO];
  }

  /** User key 2.0 has been read after all writes. */
  ghost predicate TwoReads(s: State, value: Option<Value>) {
    && s.process.Up? && s.written == WRITES && s.process.memory.lastSequence == |WRITES|
    && Lookup(Store(s.process.memory), 2.0, |WRITES|) == value
  }

  lemma QuietReads(s: State, v: Version, nextFile: nat, snapshots: multiset<SequenceNumber>)
    requires Quiet(s, v, nextFile, WRITES, snapshots)
    ensures TwoReads(s, Lookup(AllEntries(v), 2.0, 4))
  {
    assert Store(s.process.memory) == AllEntries(v);
  }

  lemma WrongReadIsHarm(states: seq<State>, steps: seq<Step>)
    requires Run(states, steps) && TwoReads(states[|steps|], Some("deleted value"))
    ensures !HarmlessUpTo(states, steps, |steps|)
  {
    var s := states[|steps|];
    TwoIsDeleted();
    assert s.written[..4] == s.written;
    if HarmlessUpTo(states, steps, |steps|) {
      RunServesReads(states, steps, |steps|, 2.0, 4);
      assert false;
    }
  }

  /** A compaction that the picker sets up, whose work and smallest sequence number are in order. */
  ghost predicate OrdinaryCompaction(s: State, step: Step) {
    && s.process.Up? && step.BuildCompaction? && GoodPick(s.process.memory.version, step.compaction)
    && MergedInput(step.compaction, step.input)
    && WorkDone(s.process.memory.version, step.compaction, step.input, step.smallest, step.outputs, step.first)
    && forall snapshot :: snapshot in s.process.memory.snapshots ==> step.smallest <= snapshot
  }

  lemma LastIsOrdinary(s: State, step: Step)
    requires Quiet(s, SPLIT, 12, WRITES, multiset{})
    requires step == BuildCompaction(PICK, [NEW_ONE, OLD_ONE, DELETED_TWO], 4, [BACK], 12, 13, WRONG)
    ensures OrdinaryCompaction(s, step)
  {
    LastWork();
  }

  /** A run of the database whose last compaction brings a deleted value back: the last write of user key 2.0 is its
      deletion; before the compaction a read says so, and once it is installed a read gives the value from before
      the deletion. Everything up to that compaction is harmless, so the condition of RunServesReads fails at this
      one step only, and cannot be left out. */
  lemma RunResurfaces() returns (states: seq<State>, steps: seq<Step>)
    ensures Run(states, steps) && |steps| >= 3
    ensures HarmlessUpTo(states, steps, |steps| - 3) && !HarmlessUpTo(states, steps, |steps|)
    ensures OrdinaryCompaction(states[|steps| - 3], steps[|steps| - 3])
    ensures steps[|steps| - 2].Commit? && steps[|steps| - 1].InstallCommitted?
    ensures SplitUser(states[|steps| - 3].process.memory.version, LAST, LEFT, RIGHT)
    ensures TwoReads(states[|steps| - 3], None) && TwoReads(states[|steps|], Some("deleted value"))
    ensures LastWrite(WRITES, 2.0) == None
  {
    var s, next;
    states, steps, s := RunToSplit();
    CompactLast();
    FlushLast();
    LastReads();
    TwoIsDeleted();
    QuietReads(s, SPLIT, 12, multiset{});
    states, steps, next := CompactDown(states, steps, s, SPLIT, 12, WRITES, multiset{}, PICK,
                                       [NEW_ONE, OLD_ONE, DELETED_TWO], 4, [BACK], 13, WRONG);
    LastIsOrdinary(s, steps[|steps| - 3]);
    QuietReads(next, WRONG, 13, multiset{});
    WrongReadIsHarm(states, steps);
  }
}
