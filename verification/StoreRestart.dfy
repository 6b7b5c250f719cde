/** What the durability protocol can always do: a process that stops anywhere can be started again, with every write
    that reached a log (Recover of db/db_impl.cc); and what it keeps still: a snapshot (GetSnapshot). */
module StoreRestart {
  import opened Basics
  import opened InternalKeys
  import opened Versions
  import opened VersionBuilder
  import opened Install
  import opened StoreReads
  import opened Durability
  import opened Cursors

  // ---- a table for the entries of a log ----

  ghost predicate OwnSequences(es: seq<Entry>) {
    forall i, j :: 0 <= i < j < |es| ==> es[i].key.sequence != es[j].key.sequence
  }

  lemma InsertSorted(es: seq<Entry>, e: Entry) returns (more: seq<Entry>)
    requires SortedKeys(es) && forall o :: o in es ==> o.key.sequence != e.key.sequence
    ensures SortedKeys(more) && SetOf(more) == SetOf(es) + {e}
  {
    SeekSplits(es, e.key);
    var p := SeekPos(es, e.key);
    more := es[..p] + [e] + es[p..];
    InsertedMembers(es, p, e);
    forall i, j | 0 <= i < j < |more| ensures Less(more[i].key, more[j].key) {
      var before, after := if i < p then i else i - 1, if j < p then j else j - 1;
      assert i != p ==> more[i] == es[before];
      assert j != p ==> more[j] == es[after] && es[after] in es;
    }
  }

  lemma InsertedMembers(es: seq<Entry>, p: nat, e: Entry)
    requires p <= |es|
    ensures SetOf(es[..p] + [e] + es[p..]) == SetOf(es) + {e}
  {
    assert es == es[..p] + es[p..];
  }

  /** The memtable as a table file lists it. */
  lemma {:induction false} SortEntries(es: seq<Entry>) returns (sorted: seq<Entry>)
    requires OwnSequences(es)
    ensures SortedKeys(sorted) && SetOf(sorted) == SetOf(es)
  {
    if es == [] {
      sorted := [];
    } else {
      var front, last := es[..|es| - 1], es[|es| - 1];
      sorted := SortEntries(front);
      forall o | o in sorted ensures o.key.sequence != last.key.sequence {
        assert o in SetOf(front);
      }
      sorted := InsertSorted(sorted, last);
      assert es == front + [last];
    }
  }

  lemma TableFor(es: seq<Entry>, number: nat) returns (f: FileMetaData)
    requires es != [] && OwnSequences(es)
    ensures ValidFile(f) && SetOf(f.entries) == SetOf(es) && f.number == number
  {
    var sorted := SortEntries(es);
    assert es[0] in SetOf(sorted);
    f := FileMetaData(number, 0, sorted[0].key, sorted[|sorted| - 1].key, sorted);
  }

  // ---- opening ----

  /** One chunk with all that the logs hold, unless they hold nothing. */
  lemma ChunksOf(tail: seq<Entry>, number: nat) returns (chunks: seq<Record>, files: seq<FileMetaData>)
    requires OwnSequences(tail)
    ensures Joined(chunks) == tail && TablesOfChunks(chunks, files) && forall f :: f in files ==> f.number == number
  {
    chunks, files := [], [];
    if tail != [] {
      var f := TableFor(tail, number);
      chunks, files := [tail], [f];
      assert [tail][..0] == [] && [] + tail == tail;
    }
  }

  lemma AddTablesInstalls(v: Version, files: seq<FileMetaData>)
    requires WellFormed(v) && forall f :: f in files ==> NewNumber(v, f.number)
    requires forall i, j :: 0 <= i < j < |files| ==> files[i].number < files[j].number
    ensures Installs(v, AddedToLevel0(files), AddTables(v, files))
  {
    var edit, r := AddedToLevel0(files), AddTables(v, files);
    AddTablesMembers(v, files);
    forall l, g | 0 <= l < NUM_LEVELS
      ensures g in r.files[l] <==> g in EditLevel(FileSet(v.files[l]), edit, l)
    {
      if l == 0 && g in files {
        var i :| 0 <= i < |files| && files[i] == g;
        assert edit.added[i] in edit.added;
      }
    }
    forall l | 0 <= l < NUM_LEVELS ensures SortedFiles(r.files[l]) {
    }
  }

  lemma WrittenHasOwnSequences(written: seq<Entry>, n: nat)
    requires Sequenced(written) && n <= |written|
    ensures OwnSequences(written[n..])
  {
  }

  /** A stopped process can be started: the logs become tables, whatever the manifest had seen of them. */
  lemma OpenIsPossible(s: State) returns (open: Step, opening: State)
    requires LogsInv(s) && ClaimsHold(s) && s.process.Down?
    ensures open.Open? && Next(s, open, opening)
  {
    var mf := s.disk.manifest;
    var c := Claim(mf.version, s.held, s.horizon, mf.nextFile);
    assert c in Claims(s) && Kept(s.written, s.disk.tables, c);
    WrittenHasOwnSequences(s.written, s.held);
    var number := mf.nextFile + 1;
    var log := number + s.newestLog + 1;
    var chunks, files := ChunksOf(s.written[s.held..], number);
    AddTablesInstalls(mf.version, files);
    var next := AddTables(mf.version, files);
    open := Open(chunks, files, next, log);
    opening := s.(
      disk := s.disk.(tables := PutTables(s.disk.tables, files), logs := s.disk.logs[log := []]),
      newestLog := log,
      process := Opening(next, log, log + 1, MaxSequence(Joined(chunks), mf.lastSequence)));
    assert RecoveryOpened(s, chunks, files, next, log, opening);
  }

  lemma Reopens(s: State) returns (open: Step, opening: State, up: State)
    requires LogsInv(s) && ClaimsHold(s) && s.process.Down?
    ensures Next(s, open, opening) && Next(opening, OpenCommit, up)
    ensures LogsInv(up) && ClaimsHold(up) && up.process.Up? && up.written == s.written
    ensures up.process.memory.lastSequence == |up.written|
  {
    open, opening := OpenIsPossible(s);
    StepKeepsInv(s, open, opening);
    var p := opening.process;
    up := opening.(
      disk := opening.disk.(manifest := Manifest(p.next, p.log, p.nextFile, p.lastSequence)),
      held := |opening.written|,
      process := Up(Memory([], None, None, p.log, p.next, p.log, p.nextFile, p.lastSequence, Idle, multiset{})));
    StepKeepsInv(opening, OpenCommit, up);
  }

  /** Wherever a run stops, the store can be opened again, and then every key has the value last written to it. */
  lemma EveryCrashRecovers(states: seq<State>, steps: seq<Step>, n: nat)
    returns (down: State, open: Step, opening: State, up: State)
    requires Run(states, steps) && n <= |steps| && HarmlessUpTo(states, steps, n)
    ensures Next(states[n], Crash, down) && Next(down, open, opening) && Next(opening, OpenCommit, up)
    ensures up.process.Up? && up.written == states[n].written && up.process.memory.lastSequence == |up.written|
    ensures forall user ::
      Lookup(Store(up.process.memory), user, |up.written|) == LastWrite(states[n].written, user)
  {
    RunKeepsInv(states, steps, n);
    down := states[n].(process := Down);
    StepKeepsInv(states[n], Crash, down);
    open, opening, up := Reopens(down);
    assert up.written[..|up.written|] == up.written;
    forall user ensures Lookup(Store(up.process.memory), user, |up.written|) == LastWrite(states[n].written, user) {
      StateServesReads(up, user, up.process.memory.lastSequence);
    }
  }

  // ---- snapshots ----

  /** As long as it is held, a snapshot shows the store as it was when the snapshot was taken. */
  lemma SnapshotFreezesReads(states: seq<State>, steps: seq<Step>, i: nat, j: nat, user: UserKey)
    requires Run(states, steps) && i < j <= |steps| && HarmlessUpTo(states, steps, j) && steps[i] == TakeSnapshot
    ensures states[i].process.Up? && states[i + 1].process.Up?
    ensures states[i].process.memory.lastSequence in states[i + 1].process.memory.snapshots
    ensures states[j].process.Up? && states[i].process.memory.lastSequence in states[j].process.memory.snapshots ==>
      Lookup(Store(states[j].process.memory), user, states[i].process.memory.lastSequence)
        == Lookup(Store(states[i].process.memory), user, states[i].process.memory.lastSequence)
  {
    assert RunStep(states, steps, i);
    var n := states[i].process.memory.lastSequence;
    if states[j].process.Up? && n in states[j].process.memory.snapshots {
      RunServesReads(states, steps, i, user, n);
      RunServesReads(states, steps, j, user, n);
      WrittenGrows(states, steps, i, j);
      assert states[j].written[..n] == states[i].written[..n];
    }
  }
}
