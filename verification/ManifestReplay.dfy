/** A manifest rebuilds the version it describes (WriteSnapshot, LogAndApply and Recover of db/version_set.cc):
    it starts with a snapshot of some version and goes on with the edit of every install since. */
module ManifestReplay {
  import opened Basics
  import opened InternalKeys
  import opened Versions
  import opened VersionBuilder
  import opened Picking
  import opened Install

  // ---- snapshots ----

  function LevelFiles(level: nat, files: seq<FileMetaData>): seq<(nat, FileMetaData)> {
    if files == [] then [] else LevelFiles(level, files[..|files| - 1]) + [(level, files[|files| - 1])]
  }

  function AllFiles(v: Version, n: nat): seq<(nat, FileMetaData)>
    requires n <= |v.files|
  {
    if n == 0 then [] else AllFiles(v, n - 1) + LevelFiles(n - 1, v.files[n - 1])
  }

  /** A move for every pointer of the first n levels that is set. */
  function SetPointers(ps: Pointers, n: nat): seq<(nat, InternalKey)>
    requires n <= |ps|
  {
    if n == 0 then []
    else SetPointers(ps, n - 1) + if ps[n - 1].Some? then [(n - 1, ps[n - 1].value)] else []
  }

  function SnapshotEdit(v: Version, ps: Pointers): VersionEdit {
    VersionEdit(SetPointers(ps, |ps|), {}, AllFiles(v, |v.files|))
  }

  method WriteSnapshot(v: Version, ps: Pointers) returns (edit: VersionEdit)
    ensures edit == SnapshotEdit(v, ps)
  {
    var pointers: seq<(nat, InternalKey)> := [];
    for level := 0 to |ps|
      invariant pointers == SetPointers(ps, level)
    {
      if ps[level].Some? {
        pointers := pointers + [(level, ps[level].value)];
      }
    }
    var added: seq<(nat, FileMetaData)> := [];
    for level := 0 to |v.files|
      invariant added == AllFiles(v, level)
    {
      var files := v.files[level];
      for i := 0 to |files|
        invariant added == AllFiles(v, level) + LevelFiles(level, files[..i])
      {
        assert files[..i + 1][..i] == files[..i];
        added := added + [(level, files[i])];
      }
      assert files[..|files|] == files;
    }
    edit := VersionEdit(pointers, {}, added);
  }

  /** A snapshot sets the pointers it was written from. */
  lemma {:induction false} SnapshotSetsPointers(ps: Pointers, n: nat)
    requires |ps| == NUM_LEVELS && n <= NUM_LEVELS
    ensures forall l :: 0 <= l < NUM_LEVELS ==>
      AfterMoves(NO_POINTERS, SetPointers(ps, n))[l] == if l < n then ps[l] else None
    ensures forall p :: p in SetPointers(ps, n) ==> p.0 < n
  {
    if n > 0 {
      SnapshotSetsPointers(ps, n - 1);
      var front, moves := SetPointers(ps, n - 1), SetPointers(ps, n);
      if ps[n - 1].Some? {
        assert moves[..|moves| - 1] == front;
      } else {
        assert moves == front;
      }
    }
  }

  lemma {:induction false} LevelFilesAre(level: nat, files: seq<FileMetaData>, a: (nat, FileMetaData))
    ensures a in LevelFiles(level, files) <==> a.0 == level && a.1 in files
  {
    if files != [] {
      LevelFilesAre(level, files[..|files| - 1], a);
      assert files == files[..|files| - 1] + [files[|files| - 1]];
    }
  }

  lemma {:induction false} AllFilesAre(v: Version, n: nat, a: (nat, FileMetaData))
    requires n <= |v.files|
    ensures a in AllFiles(v, n) <==> a.0 < n && In(v, a.0, a.1)
  {
    if n > 0 {
      AllFilesAre(v, n - 1, a);
      LevelFilesAre(n - 1, v.files[n - 1], a);
    }
  }

  lemma SnapshotAdds(v: Version, ps: Pointers, level: nat)
    requires |v.files| == NUM_LEVELS && level < NUM_LEVELS
    ensures AddedAt(SnapshotEdit(v, ps).added, level) == FileSet(v.files[level])
    ensures AddedNumbers(SnapshotEdit(v, ps).added, level) == Numbers(v.files[level])
  {
    var added := SnapshotEdit(v, ps).added;
    forall f ensures (level, f) in added <==> f in v.files[level] {
      AllFilesAre(v, NUM_LEVELS, (level, f));
    }
    forall f ensures f in AddedAt(added, level) <==> f in v.files[level] {
      if f in v.files[level] {
        assert (level, f) in added;
      }
    }
    forall k ensures k in AddedNumbers(added, level) <==> k in Numbers(v.files[level]) {
      if k in Numbers(v.files[level]) {
        var f :| f in v.files[level] && f.number == k;
        assert (level, f) in added;
      }
    }
  }

  /** Adding entries for other levels, or files with numbers that were not there, keeps a list of additions fresh. */
  lemma FreshAppend(seen: set<nat>, added: seq<(nat, FileMetaData)>, a: (nat, FileMetaData), level: nat)
    requires Fresh(seen, added, level)
    requires a.0 == level ==> a.1.number !in seen + AddedNumbers(added, level)
    ensures Fresh(seen, added + [a], level)
  {
    assert (added + [a])[..|added|] == added;
  }

  lemma {:induction false} LevelFilesFresh(front: seq<(nat, FileMetaData)>, l: nat, files: seq<FileMetaData>,
                                           level: nat)
    requires Fresh({}, front, level) && (forall a :: a in front ==> a.0 < l)
    requires forall i, j :: 0 <= i < j < |files| ==> files[i].number != files[j].number
    ensures Fresh({}, front + LevelFiles(l, files), level)
  {
    if files == [] {
      assert front + LevelFiles(l, files) == front;
    } else {
      var init, last := files[..|files| - 1], files[|files| - 1];
      LevelFilesFresh(front, l, init, level);
      var before := front + LevelFiles(l, init);
      assert front + LevelFiles(l, files) == before + [(l, last)];
      forall a | a in LevelFiles(l, init) ensures a.0 == l && a.1.number != last.number {
        LevelFilesAre(l, init, a);
        var i :| 0 <= i < |init| && init[i] == a.1;
        assert files[i] == a.1;
      }
      FreshAppend({}, before, (l, last), level);
    }
  }

  lemma {:induction false} AllFilesFresh(v: Version, n: nat, level: nat)
    requires Inv(v) && n <= |v.files|
    ensures Fresh({}, AllFiles(v, n), level)
  {
    if n > 0 {
      AllFilesFresh(v, n - 1, level);
      forall a | a in AllFiles(v, n - 1) ensures a.0 < n - 1 {
        AllFilesAre(v, n - 1, a);
      }
      var files := v.files[n - 1];
      forall i, j | 0 <= i < j < |files| ensures files[i].number != files[j].number {
        assert In(v, n - 1, files[i]) && In(v, n - 1, files[j]) && FileLess(files[i], files[j]);
      }
      LevelFilesFresh(AllFiles(v, n - 1), n - 1, files, level);
    }
  }

  lemma SnapshotInstalls(v: Version, ps: Pointers)
    requires Inv(v) && |ps| == NUM_LEVELS
    ensures ValidEdit(SnapshotEdit(v, ps)) && Installs(EmptyVersion(), SnapshotEdit(v, ps), v)
    ensures forall l :: 0 <= l < NUM_LEVELS ==> Fresh({}, SnapshotEdit(v, ps).added, l)
  {
    var edit := SnapshotEdit(v, ps);
    SnapshotSetsPointers(ps, NUM_LEVELS);
    forall a | a in edit.added ensures a.0 < NUM_LEVELS {
      AllFilesAre(v, NUM_LEVELS, a);
    }
    forall l | 0 <= l < NUM_LEVELS
      ensures Fresh({}, edit.added, l)
      ensures forall f :: f in v.files[l] <==> f in EditLevel(FileSet(EmptyVersion().files[l]), edit, l)
    {
      SnapshotAdds(v, ps, l);
      AllFilesFresh(v, NUM_LEVELS, l);
    }
  }

  // ---- no number comes back to a level ----

  /** What a builder that starts from nothing knows of a level: the numbers ever added to it. */
  ghost function Ever(edits: seq<VersionEdit>, level: nat): set<nat> {
    Known([], AfterEdits(LevelState({}, []), edits, level))
  }

  ghost predicate LiveBelow(v: Version, counter: nat) {
    forall m, f :: In(v, m, f) ==> f.number < counter
  }

  /** Numbers that a level has had were handed out before, and their tables have not moved back up. */
  ghost predicate Ledger(v: Version, counter: nat, level: nat, ever: set<nat>) {
    && (forall k :: k in ever ==> k < counter)
    && (forall m: nat, f :: In(v, m, f) && f.number in ever ==> m >= level)
  }

  /** The numbers of a step that the counter has just given out. */
  ghost function NewTables(step: InstallStep): set<nat> {
    match step
    case Flush(_, f) => {f.number}
    case Move(_, _) => {}
    case Compact(_, outputs) => set o | o in outputs :: o.number
  }

  /** What a step adds to a level is new, or is a single table moved there from the level above. */
  lemma AddedBy(v: Version, step: InstallStep, next: Version, level: nat, k: nat)
    requires Inv(v) && Stepped(v, step, next) && k in AddedNumbers(EditOf(step).added, level)
    ensures k in NewTables(step) || (step.Move? && level > 0 && exists f :: In(v, level - 1, f) && f.number == k)
  {
    var a :| a in EditOf(step).added && a.0 == level && a.1.number == k;
    match step
    case Flush(_, f) =>
    case Move(c, _) => MovedFromAbove(v, c, a);
    case Compact(c, outputs) =>
      assert a.1 in outputs;
  }

  lemma MovedFromAbove(v: Version, c: Compaction, a: (nat, FileMetaData))
    requires GoodPick(v, c) && |c.inputs0| == 1 && a in CompactionEdit(c, c.inputs0).added
    ensures a.0 > 0 && In(v, a.0 - 1, a.1)
  {
    InputsAreInVersion(v, c);
    assert c.inputs0[0] in c.inputs0;
  }

  /** Every file of the next version was there before, no higher up, or is new. */
  lemma ComesFrom(v: Version, step: InstallStep, next: Version, m: nat, f: FileMetaData)
    requires Inv(v) && Stepped(v, step, next) && In(next, m, f)
    ensures f.number in NewTables(step) || exists l: nat :: l <= m && In(v, l, f)
  {
    match step
    case Flush(level, g) =>
      FlushInstalls(v, level, g, next);
      assert In(v, m, f) || (m == level && f == g);
    case Move(c, _) =>
      CompactionInstalls(v, c, c.inputs0, next);
      InputsAreInVersion(v, c);
      assert Remains(v, c, m, f) || (m == c.level + 1 && f in c.inputs0);
      if !Remains(v, c, m, f) {
        assert In(v, c.level, f);
      }
    case Compact(c, outputs) =>
      CompactionInstalls(v, c, outputs, next);
      assert Remains(v, c, m, f) || (m == c.level + 1 && f in outputs);
  }

  lemma NewTablesAreNumbered(step: InstallStep, before: nat, after: nat)
    requires NumbersFrom(step, before, after)
    ensures forall k :: k in NewTables(step) ==> before <= k < after
  {
  }

  lemma StepIsNew(v: Version, step: InstallStep, next: Version, counter: nat, counter': nat, level: nat, ever: set<nat>)
    requires Inv(v) && Stepped(v, step, next) && NumbersFrom(step, counter, counter')
    requires LiveBelow(v, counter) && Ledger(v, counter, level, ever)
    ensures ever !! AddedNumbers(EditOf(step).added, level)
  {
    forall k | k in AddedNumbers(EditOf(step).added, level) ensures k !in ever {
      AddedBy(v, step, next, level, k);
      NewTablesAreNumbered(step, counter, counter');
      if k !in NewTables(step) {
        var f :| In(v, level - 1, f) && f.number == k;
      }
    }
  }

  lemma StepKeepsLedger(v: Version, step: InstallStep, next: Version, counter: nat, counter': nat, level: nat,
                        ever: set<nat>)
    requires Inv(v) && Stepped(v, step, next) && NumbersFrom(step, counter, counter') && level < NUM_LEVELS
    requires LiveBelow(v, counter) && Ledger(v, counter, level, ever)
    ensures LiveBelow(next, counter') && Ledger(next, counter', level, ever + AddedNumbers(EditOf(step).added, level))
  {
    NewTablesAreNumbered(step, counter, counter');
    InstallKeepsInv(v, step, next);
    forall m: nat, f | In(next, m, f)
      ensures f.number < counter'
      ensures f.number in ever ==> m >= level
      ensures f.number in AddedNumbers(EditOf(step).added, level) ==> m == level
    {
      ComesFrom(v, step, next, m, f);
      if f.number in AddedNumbers(EditOf(step).added, level) {
        AddedStandsThere(v, step, next, level, f.number);
        var g :| In(next, level, g) && g.number == f.number;
      }
    }
    forall k | k in AddedNumbers(EditOf(step).added, level) ensures k < counter' {
      AddedBy(v, step, next, level, k);
    }
  }

  lemma AddedStandsThere(v: Version, step: InstallStep, next: Version, level: nat, k: nat)
    requires Inv(v) && Stepped(v, step, next) && level < NUM_LEVELS && k in AddedNumbers(EditOf(step).added, level)
    ensures exists g :: In(next, level, g) && g.number == k
  {
    var a :| a in EditOf(step).added && a.0 == level && a.1.number == k;
    assert a.1 in AddedAt(EditOf(step).added, level);
    assert a.1 in EditLevel(FileSet(v.files[level]), EditOf(step), level);
    assert In(next, level, a.1);
  }

  /** Freshness only depends on the numbers that could clash. */
  lemma {:induction false} FreshElsewhere(seen: set<nat>, ever: set<nat>, added: seq<(nat, FileMetaData)>, level: nat)
    requires Fresh(seen, added, level) && ever !! AddedNumbers(added, level)
    ensures Fresh(ever, added, level)
  {
    if added != [] {
      var front, last := added[..|added| - 1], added[|added| - 1];
      assert added == front + [last];
      assert AddedNumbers(front, level) <= AddedNumbers(added, level);
      FreshElsewhere(seen, ever, front, level);
      if last.0 == level {
        assert last in added;
      }
    }
  }

  // ---- a manifest of a run ----

  function Edits(steps: seq<InstallStep>): seq<VersionEdit> {
    seq(|steps|, i requires 0 <= i < |steps| => EditOf(steps[i]))
  }

  /** Where the first n steps leave the compaction pointers. */
  function PointersAt(steps: seq<InstallStep>, n: nat): (ps: Pointers)
    requires n <= |steps|
    ensures |ps| == NUM_LEVELS
  {
    AfterAllMoves(NO_POINTERS, Edits(steps[..n]))
  }

  /** The edits that a manifest holds after `n` steps when it was begun at step `k`. */
  ghost function Manifest(versions: seq<Version>, steps: seq<InstallStep>, k: nat, n: nat): seq<VersionEdit>
    requires k <= n <= |steps| < |versions|
  {
    [SnapshotEdit(versions[k], PointersAt(steps, k))] + Edits(steps[k..n])
  }

  lemma KnownGrows(edits: seq<VersionEdit>, edit: VersionEdit, level: nat)
    requires NeverReadded([], edits, level) && Fresh(Ever(edits, level), edit.added, level)
    requires SortedFiles(AfterEdits(LevelState({}, []), edits, level).added)
    ensures NeverReadded([], edits + [edit], level)
    ensures Ever(edits + [edit], level) == Ever(edits, level) + AddedNumbers(edit.added, level)
    ensures SortedFiles(AfterEdits(LevelState({}, []), edits + [edit], level).added)
  {
    var all := edits + [edit];
    assert all[..|all| - 1] == edits;
    EditMeaning([], AfterEdits(LevelState({}, []), edits, level), edit, level);
  }

  /** The edits can be replayed, which is only looked into for an opened list. */
  ghost predicate Replayable(edits: seq<VersionEdit>, v: Version, counter: nat, level: nat) {
    forall x: seq<VersionEdit> {:trigger Opened(x)} :: Opened(x) && x == edits ==> Replays(x, v, counter, level)
  }

  /** No number comes back to the level, and what the builder knows of it at the end is in order. */
  ghost predicate Replays(edits: seq<VersionEdit>, v: Version, counter: nat, level: nat) {
    && NeverReadded([], edits, level)
    && SortedFiles(AfterEdits(LevelState({}, []), edits, level).added)
    && Ledger(v, counter, level, Ever(edits, level))
  }

  lemma SnapshotIsReplayable(v: Version, ps: Pointers, counter: nat, level: nat)
    requires Inv(v) && |ps| == NUM_LEVELS && LiveBelow(v, counter) && level < NUM_LEVELS
    ensures Replayable([SnapshotEdit(v, ps)], v, counter, level)
  {
    var edit, numbers := SnapshotEdit(v, ps), Numbers(v.files[level]);
    SnapshotInstalls(v, ps);
    SnapshotAdds(v, ps, level);
    assert [] + [edit] == [edit];
    assert Ever([], level) == {};
    KnownGrows([], edit, level);
    forall number | number in numbers ensures number < counter {
      var g :| g in v.files[level] && g.number == number;
      assert In(v, level, g);
    }
    forall m: nat, f | In(v, m, f) && f.number in numbers ensures m >= level {
      var g :| g in v.files[level] && g.number == f.number;
      assert In(v, level, g);
    }
  }

  lemma StepIsReplayable(edits: seq<VersionEdit>, v: Version, step: InstallStep, next: Version, counter: nat,
                         counter': nat, level: nat)
    requires Inv(v) && Stepped(v, step, next) && NumbersFrom(step, counter, counter') && level < NUM_LEVELS
    requires LiveBelow(v, counter) && Replayable(edits, v, counter, level)
    ensures Replayable(edits + [EditOf(step)], next, counter', level)
  {
    assert Opened(edits) && Replays(edits, v, counter, level);
    var ever := Ever(edits, level);
    StepIsNew(v, step, next, counter, counter', level, ever);
    StepIsFresh(v, step);
    FreshElsewhere(Numbers(v.files[level]), ever, EditOf(step).added, level);
    KnownGrows(edits, EditOf(step), level);
    StepKeepsLedger(v, step, next, counter, counter', level, ever);
  }

  lemma ManifestGrows(versions: seq<Version>, steps: seq<InstallStep>, k: nat, n: nat)
    requires k < n <= |steps| < |versions|
    ensures Manifest(versions, steps, k, n) == Manifest(versions, steps, k, n - 1) + [EditOf(steps[n - 1])]
  {
    assert steps[k..n] == steps[k..n - 1] + [steps[n - 1]];
  }

  lemma StepAt(versions: seq<Version>, counters: seq<nat>, steps: seq<InstallStep>, i: nat)
    requires History(versions, counters, steps) && i < |steps|
    ensures Stepped(versions[i], steps[i], versions[i + 1]) && NumbersFrom(steps[i], counters[i], counters[i + 1])
    ensures Inv(versions[i])
  {
    assert HistoryStep(versions, counters, steps, i);
    HistoryKeepsInv(versions, counters, steps, i);
  }

  lemma {:induction false} ManifestIsReplayable(versions: seq<Version>, counters: seq<nat>, steps: seq<InstallStep>,
                                                k: nat, n: nat, edits: seq<VersionEdit>, level: nat)
    requires History(versions, counters, steps) && k <= n <= |steps| && level < NUM_LEVELS
    requires edits == Manifest(versions, steps, k, n)
    ensures Replayable(edits, versions[n], counters[n], level)
    decreases n
  {
    if n == k {
      FirstIsReplayable(versions, counters, steps, k, level);
    } else {
      var before := Manifest(versions, steps, k, n - 1);
      ManifestIsReplayable(versions, counters, steps, k, n - 1, before, level);
      ManifestGrows(versions, steps, k, n);
      NextIsReplayable(before, edits, versions, counters, steps, n - 1, level);
    }
  }

  lemma StepOfRun(versions: seq<Version>, counters: seq<nat>, steps: seq<InstallStep>, n: nat)
    requires History(versions, counters, steps) && n < |steps|
    ensures Inv(versions[n]) && LiveBelow(versions[n], counters[n])
    ensures Stepped(versions[n], steps[n], versions[n + 1]) && NumbersFrom(steps[n], counters[n], counters[n + 1])
  {
    RunLiveBelow(versions, counters, steps, n);
    StepAt(versions, counters, steps, n);
  }

  lemma FirstIsReplayable(versions: seq<Version>, counters: seq<nat>, steps: seq<InstallStep>, k: nat, level: nat)
    requires History(versions, counters, steps) && k <= |steps| && level < NUM_LEVELS
    ensures Replayable(Manifest(versions, steps, k, k), versions[k], counters[k], level)
  {
    HistoryKeepsInv(versions, counters, steps, k);
    RunLiveBelow(versions, counters, steps, k);
    ManifestStarts(versions, steps, k);
    SnapshotIsReplayable(versions[k], PointersAt(steps, k), counters[k], level);
  }

  lemma ManifestStarts(versions: seq<Version>, steps: seq<InstallStep>, k: nat)
    requires k <= |steps| < |versions|
    ensures Manifest(versions, steps, k, k) == [SnapshotEdit(versions[k], PointersAt(steps, k))]
  {
  }

  lemma NextIsReplayable(before: seq<VersionEdit>, after: seq<VersionEdit>, versions: seq<Version>,
                         counters: seq<nat>, steps: seq<InstallStep>, n: nat, level: nat)
    requires History(versions, counters, steps) && n < |steps| && level < NUM_LEVELS
    requires Replayable(before, versions[n], counters[n], level) && after == before + [EditOf(steps[n])]
    ensures Replayable(after, versions[n + 1], counters[n + 1], level)
  {
    StepOfRun(versions, counters, steps, n);
    StepIsReplayable(before, versions[n], steps[n], versions[n + 1], counters[n], counters[n + 1], level);
  }

  lemma StepLiveBelow(v: Version, step: InstallStep, next: Version, counter: nat, counter': nat)
    requires Inv(v) && Stepped(v, step, next) && NumbersFrom(step, counter, counter') && LiveBelow(v, counter)
    ensures LiveBelow(next, counter')
  {
    forall m: nat, f | In(next, m, f) ensures f.number < counter' {
      ComesFrom(v, step, next, m, f);
      NewTablesAreNumbered(step, counter, counter');
    }
  }

  lemma {:induction false} RunLiveBelow(versions: seq<Version>, counters: seq<nat>, steps: seq<InstallStep>, n: nat)
    requires History(versions, counters, steps) && n <= |steps|
    ensures LiveBelow(versions[n], counters[n])
  {
    if n > 0 {
      RunLiveBelow(versions, counters, steps, n - 1);
      NextLiveBelow(versions, counters, steps, n - 1);
    }
  }

  lemma NextLiveBelow(versions: seq<Version>, counters: seq<nat>, steps: seq<InstallStep>, n: nat)
    requires History(versions, counters, steps) && n < |steps| && LiveBelow(versions[n], counters[n])
    ensures LiveBelow(versions[n + 1], counters[n + 1])
  {
    StepAt(versions, counters, steps, n);
    StepLiveBelow(versions[n], steps[n], versions[n + 1], counters[n], counters[n + 1]);
  }

  lemma ManifestInstalls(versions: seq<Version>, counters: seq<nat>, steps: seq<InstallStep>, k: nat, n: nat)
    requires History(versions, counters, steps) && k <= n <= |steps|
    ensures InstallRun([EmptyVersion()] + versions[k..n + 1], Manifest(versions, steps, k, n))
    ensures forall e :: e in Manifest(versions, steps, k, n) ==> ValidEdit(e)
  {
    var edits, path := Manifest(versions, steps, k, n), [EmptyVersion()] + versions[k..n + 1];
    forall i | 0 <= i < |edits| ensures Installs(path[i], edits[i], path[i + 1]) && ValidEdit(edits[i]) {
      ManifestInstallsAt(versions, counters, steps, k, n, i);
    }
  }

  lemma StepInstalls(versions: seq<Version>, counters: seq<nat>, steps: seq<InstallStep>, n: nat)
    requires History(versions, counters, steps) && n < |steps|
    ensures Installs(versions[n], EditOf(steps[n]), versions[n + 1]) && ValidEdit(EditOf(steps[n]))
  {
    StepAt(versions, counters, steps, n);
    StepIsFresh(versions[n], steps[n]);
  }

  lemma FirstInstalls(versions: seq<Version>, counters: seq<nat>, steps: seq<InstallStep>, k: nat)
    requires History(versions, counters, steps) && k <= |steps|
    ensures Installs(EmptyVersion(), SnapshotEdit(versions[k], PointersAt(steps, k)), versions[k])
    ensures ValidEdit(SnapshotEdit(versions[k], PointersAt(steps, k)))
  {
    HistoryKeepsInv(versions, counters, steps, k);
    SnapshotInstalls(versions[k], PointersAt(steps, k));
  }

  lemma ManifestInstallsAt(versions: seq<Version>, counters: seq<nat>, steps: seq<InstallStep>, k: nat, n: nat, i: nat)
    requires History(versions, counters, steps) && k <= n <= |steps| && i <= n - k
    ensures var edits, path := Manifest(versions, steps, k, n), [EmptyVersion()] + versions[k..n + 1];
      Installs(path[i], edits[i], path[i + 1]) && ValidEdit(edits[i])
  {
    if i == 0 {
      FirstInstalls(versions, counters, steps, k);
      ManifestFirst(versions, steps, k, n);
    } else {
      ManifestAt(versions, steps, k, n, i);
      StepInstalls(versions, counters, steps, k + i - 1);
    }
  }

  lemma ManifestFirst(versions: seq<Version>, steps: seq<InstallStep>, k: nat, n: nat)
    requires k <= n <= |steps| < |versions|
    ensures Manifest(versions, steps, k, n)[0] == SnapshotEdit(versions[k], PointersAt(steps, k))
    ensures ([EmptyVersion()] + versions[k..n + 1])[0] == EmptyVersion()
    ensures ([EmptyVersion()] + versions[k..n + 1])[1] == versions[k]
  {
  }

  lemma ManifestAt(versions: seq<Version>, steps: seq<InstallStep>, k: nat, n: nat, i: nat)
    requires k <= n <= |steps| < |versions| && 0 < i <= n - k
    ensures Manifest(versions, steps, k, n)[i] == EditOf(steps[k + i - 1])
    ensures ([EmptyVersion()] + versions[k..n + 1])[i] == versions[k + i - 1]
    ensures ([EmptyVersion()] + versions[k..n + 1])[i + 1] == versions[k + i]
  {
  }

  lemma ManifestNeverReadds(versions: seq<Version>, counters: seq<nat>, steps: seq<InstallStep>, k: nat, n: nat,
                            edits: seq<VersionEdit>)
    requires History(versions, counters, steps) && k <= n <= |steps| && edits == Manifest(versions, steps, k, n)
    ensures forall l :: 0 <= l < NUM_LEVELS ==> NeverReadded(EmptyVersion().files[l], edits, l)
  {
    forall l | 0 <= l < NUM_LEVELS ensures NeverReadded(EmptyVersion().files[l], edits, l) {
      ManifestIsReplayable(versions, counters, steps, k, n, edits, l);
      assert Opened(edits);
    }
  }

  /** Wherever it begins, a manifest leaves the compaction pointers where all steps so far have. */
  lemma ManifestMoves(versions: seq<Version>, steps: seq<InstallStep>, k: nat, n: nat)
    requires k <= n <= |steps| < |versions|
    ensures AfterAllMoves(NO_POINTERS, Manifest(versions, steps, k, n)) == PointersAt(steps, n)
  {
    var ps := PointersAt(steps, k);
    SnapshotSetsPointers(ps, NUM_LEVELS);
    SnapshotMoves(SnapshotEdit(versions[k], ps), Edits(steps[..k]), Edits(steps[k..n]));
    EditsJoin(steps, k, n);
  }

  lemma EditsJoin(steps: seq<InstallStep>, k: nat, n: nat)
    requires k <= n <= |steps|
    ensures Edits(steps[..n]) == Edits(steps[..k]) + Edits(steps[k..n])
  {
  }

  lemma SnapshotMoves(snapshot: VersionEdit, before: seq<VersionEdit>, after: seq<VersionEdit>)
    requires AfterMoves(NO_POINTERS, snapshot.pointers) == AfterAllMoves(NO_POINTERS, before)
    ensures AfterAllMoves(NO_POINTERS, [snapshot] + after) == AfterAllMoves(NO_POINTERS, before + after)
  {
    assert [snapshot][..0] == [];
    MovesJoin(NO_POINTERS, [snapshot], after);
    MovesJoin(NO_POINTERS, before, after);
  }

  /** Whatever run of flushes, moves and compactions a database has gone through, and whichever version its
      manifest begins with, replaying the manifest gives the version that was installed last and the compaction
      pointers that the steps so far have left. */
  method RecoverManifest(edits: seq<VersionEdit>, ghost versions: seq<Version>, ghost counters: seq<nat>,
                         ghost steps: seq<InstallStep>, ghost k: nat, ghost n: nat)
    returns (v: Version, pointers: Pointers)
    requires History(versions, counters, steps) && k <= n <= |steps| && edits == Manifest(versions, steps, k, n)
    ensures v == versions[n] && pointers == PointersAt(steps, n)
  {
    ghost var path := [EmptyVersion()] + versions[k..n + 1];
    ManifestInstalls(versions, counters, steps, k, n);
    ManifestNeverReadds(versions, counters, steps, k, n, edits);
    v, pointers := Recover(EmptyVersion(), edits, path);
    ManifestMoves(versions, steps, k, n);
  }
}
