/** The durability protocol of the database (MakeRoomForWrite, Write, CompactMemTable, DeleteObsoleteFiles
    and Recover of db/db_impl.cc, LogAndApply and Recover of db/version_set.cc) as a state machine over
    the disk and the memory of the process. File appends are durable; the process may stop between any
    two steps. */
module Durability {
  import opened Basics
  import opened InternalKeys
  import opened Versions
  import opened Picking
  import opened VersionBuilder
  import opened Install
  import opened CompactionReads
  import opened VersionGet
  import opened CompactionTheorem
  import opened StoreReads

  /** A log record: the entries of one write batch. */
  type Record = seq<Entry>

  /** What the manifest records add up to. */
  datatype Manifest = Manifest(version: Version, logNumber: nat, nextFile: nat, lastSequence: nat)

  datatype Disk = Disk(logs: map<nat, seq<Record>>, tables: map<nat, FileMetaData>, manifest: Manifest)

  /** An edit on its way into the manifest. */
  datatype Edit = Edit(next: Version, logNumber: nat, flush: bool, smallest: SequenceNumber)

  /** The background work: its tables are written, its edit is in the manifest but not yet installed. */
  datatype Job = Idle | Ready(edit: Edit) | Committed(edit: Edit)

  datatype Memory = Memory(
    mem: seq<Entry>, imm: Option<seq<Entry>>, logged: Option<Record>, logfile: nat,
    version: Version, logNumber: nat, nextFile: nat, lastSequence: SequenceNumber,
    job: Job, snapshots: multiset<SequenceNumber>)

  datatype Process =
    | Down
    | Opening(next: Version, log: nat, nextFile: nat, lastSequence: SequenceNumber)
    | Up(memory: Memory)

  /** The disk and the process, and for the proofs: every entry ever appended to a log, how many of them
      the manifest's version holds, the oldest snapshot compactions have kept intact, and the number of
      the newest log. */
  datatype State = State(disk: Disk, process: Process, written: seq<Entry>, held: nat, horizon: SequenceNumber,
                         newestLog: nat)

  // ---- logs ----

  function Joined(records: seq<Record>): seq<Entry> {
    if records == [] then [] else Joined(records[..|records| - 1]) + records[|records| - 1]
  }

  /** What the logs numbered from `from` up to but not including `to` hold, in order of their numbers. */
  function Tail(logs: map<nat, seq<Record>>, from: nat, to: nat): seq<Entry> {
    if to <= from then []
    else Tail(logs, from, to - 1) + if to - 1 in logs then Joined(logs[to - 1]) else []
  }

  lemma JoinedAppend(records: seq<Record>, record: Record)
    ensures Joined(records + [record]) == Joined(records) + record
  {
    assert (records + [record])[..|records|] == records;
  }

  lemma {:induction false} TailSame(logs: map<nat, seq<Record>>, logs': map<nat, seq<Record>>, from: nat, to: nat)
    requires forall n :: from <= n < to ==> (n in logs <==> n in logs') && (n in logs ==> logs[n] == logs'[n])
    ensures Tail(logs, from, to) == Tail(logs', from, to)
  {
    if from < to {
      TailSame(logs, logs', from, to - 1);
    }
  }

  /** Numbers above the newest log add nothing. */
  lemma {:induction false} TailBeyond(logs: map<nat, seq<Record>>, from: nat, to: nat, end: nat)
    requires to <= end && forall n :: n in logs ==> n < to
    ensures Tail(logs, from, end) == Tail(logs, from, to)
  {
    if to < end {
      TailBeyond(logs, from, to, end - 1);
    }
  }

  // ---- steps ----

  function Entries(logged: Option<Record>): seq<Entry> {
    if logged.Some? then logged.value else []
  }

  predicate Continues(record: Record, lastSequence: nat) {
    && lastSequence + |record| <= MAX_SEQUENCE_NUMBER
    && forall i :: 0 <= i < |record| ==> record[i].key.sequence == lastSequence + 1 + i
  }

  function PutTables(tables: map<nat, FileMetaData>, files: seq<FileMetaData>): map<nat, FileMetaData> {
    if files == [] then tables
    else PutTables(tables, files[..|files| - 1])[files[|files| - 1].number := files[|files| - 1]]
  }

  datatype Step =
    | Append(record: Record)
    | Apply
    | SwitchLog
    | StrayTable(number: nat, junk: FileMetaData)
    | BuildFlush(level: nat, table: Option<FileMetaData>, flushed: Version)
    | BuildCompaction(compaction: Compaction, input: seq<Entry>, smallest: SequenceNumber, outputs: seq<FileMetaData>,
      first: nat, nextFile: nat, compacted: Version)
    | BuildMove(moving: Compaction, maxGrandparentBytes: nat, moved: Version)
    | Commit
    | InstallCommitted
    | DeleteObsolete(logs: set<nat>, tables: set<nat>)
    | TakeSnapshot
    | ReleaseSnapshot(snapshot: SequenceNumber)
    | Crash
    | Open(chunks: seq<Record>, files: seq<FileMetaData>, recovered: Version, log: nat)
    | OpenCommit

  /** The record goes to the end of the current log; only the head of the writer queue does this. */
  ghost predicate Appended(s: State, record: Record, s': State) {
    s.process.Up? &&
    var m := s.process.memory;
    && m.logged.None? && m.logfile in s.disk.logs && Continues(record, m.lastSequence)
    && s' == s.(
      disk := s.disk.(logs := s.disk.logs[m.logfile := s.disk.logs[m.logfile] + [record]]),
      written := s.written + record,
      process := Up(m.(logged := Some(record))))
  }

  /** The logged batch enters the memtable and is acknowledged. */
  ghost predicate Applied(s: State, s': State) {
    s.process.Up? &&
    var m := s.process.memory;
    && m.logged.Some? && m.lastSequence + |m.logged.value| <= MAX_SEQUENCE_NUMBER
    && s' == s.(process :=
      Up(m.(mem := m.mem + m.logged.value, logged := None, lastSequence := m.lastSequence + |m.logged.value|)))
  }

  /** A new log and memtable; waits while the immutable memtable is still there. */
  ghost predicate Switched(s: State, s': State) {
    s.process.Up? &&
    var m := s.process.memory;
    && m.imm.None? && m.logged.None?
    && s' == s.(
      disk := s.disk.(logs := s.disk.logs[m.nextFile := []]),
      newestLog := m.nextFile,
      process := Up(m.(imm := Some(m.mem), mem := [], logfile := m.nextFile, nextFile := m.nextFile + 1)))
  }

  /** A table being written when the process stops, or given up. */
  ghost predicate Strayed(s: State, number: nat, junk: FileMetaData, s': State) {
    && (s.process.Down? || (s.process.Up? && s.process.memory.job.Idle?))
    && s.disk.manifest.nextFile <= number
    && s' == s.(disk := s.disk.(tables := s.disk.tables[number := junk]))
  }

  /** The tables of a background job are on disk; its edit is ready. */
  function Built(s: State, tables: map<nat, FileMetaData>, nextFile: nat, edit: Edit): State
    requires s.process.Up?
  {
    s.(disk := s.disk.(tables := tables), process := Up(s.process.memory.(nextFile := nextFile, job := Ready(edit))))
  }

  /** The immutable memtable as a table at the level picked for it; an empty one gives no table. The edit
      says that earlier logs are no longer needed. */
  ghost predicate FlushBuilt(s: State, level: nat, table: Option<FileMetaData>, next: Version, s': State) {
    s.process.Up? &&
    var m := s.process.memory;
    && m.job.Idle? && m.imm.Some? && (table.None? <==> m.imm.value == [])
    && (table.None? ==> next == m.version)
    && (table.Some? ==> FlushTable(m.version, m.imm.value, m.nextFile, level, table.value, next))
    && s' == Built(s, if table.Some? then s.disk.tables[m.nextFile := table.value] else s.disk.tables, m.nextFile + 1,
                   Edit(next, m.logfile, true, s.horizon))
  }

  ghost predicate FlushTable(v: Version, imm: seq<Entry>, number: nat, level: nat, f: FileMetaData, next: Version) {
    && level < NUM_LEVELS && ValidFile(f) && SetOf(f.entries) == SetOf(imm) && f.number == number
    && (level > 0 ==> forall l: nat, g :: l <= level && In(v, l, g) ==>
       !Overlaps(g, Some(f.smallest.user), Some(f.largest.user)))
    && Installs(v, FlushEdit(level, f), next)
  }

  /** A compaction down to the oldest live snapshot. */
  ghost predicate CompactionBuilt(s: State, c: Compaction, input: seq<Entry>, smallest: SequenceNumber,
                                  outputs: seq<FileMetaData>, first: nat, nextFile: nat, next: Version, s': State) {
    s.process.Up? &&
    var m := s.process.memory;
    && m.job.Idle? && GoodCompaction(m.version, c, input, smallest, outputs, first, next)
    && smallest <= m.lastSequence && (forall snapshot :: snapshot in m.snapshots ==> smallest <= snapshot)
    && m.nextFile <= first <= nextFile && (forall o :: o in outputs ==> first <= o.number < nextFile)
    && s' == Built(s, PutTables(s.disk.tables, outputs), nextFile, Edit(next, m.logNumber, false, smallest))
  }

  ghost predicate MoveBuilt(s: State, c: Compaction, maxGrandparentBytes: nat, next: Version, s': State) {
    s.process.Up? &&
    var m := s.process.memory;
    && m.job.Idle? && GoodPick(m.version, c) && IsTrivialMove(c, maxGrandparentBytes)
    && Installs(m.version, CompactionEdit(c, c.inputs0), next)
    && s' == Built(s, s.disk.tables, m.nextFile, Edit(next, m.logNumber, false, s.horizon))
  }

  function Later(a: SequenceNumber, b: SequenceNumber): SequenceNumber {
    if a < b then b else a
  }

  /** The edit is appended to the manifest. */
  ghost predicate CommittedTo(s: State, s': State) {
    s.process.Up? && s.process.memory.job.Ready? &&
    var m := s.process.memory;
    var e := m.job.edit;
    s' == s.(
      disk := s.disk.(manifest := Manifest(e.next, e.logNumber, m.nextFile, m.lastSequence)),
      held := if e.flush then s.held + |Entries(m.imm)| else s.held,
      horizon := Later(s.horizon, e.smallest),
      process := Up(m.(job := Committed(e))))
  }

  ghost predicate Installed(s: State, s': State) {
    s.process.Up? && s.process.memory.job.Committed? &&
    var m := s.process.memory;
    var e := m.job.edit;
    s' == s.(process := Up(m.(version := e.next, logNumber := e.logNumber,
                              imm := if e.flush then None else m.imm, job := Idle)))
  }

  ghost predicate Live(v: Version, number: nat) {
    exists level, f :: In(v, level, f) && f.number == number
  }

  /** Removes logs before the log number and tables no version holds, any of them. */
  ghost predicate Deleted(s: State, logs: set<nat>, tables: set<nat>, s': State) {
    s.process.Up? &&
    var m := s.process.memory;
    && m.job.Idle? && (forall n :: n in logs ==> n < m.logNumber) && (forall n :: n in tables ==> !Live(m.version, n))
    && s' == s.(disk := s.disk.(logs := s.disk.logs - logs, tables := s.disk.tables - tables))
  }

  ghost predicate SnapshotTaken(s: State, s': State) {
    s.process.Up? &&
    var m := s.process.memory;
    s' == s.(process := Up(m.(snapshots := m.snapshots + multiset{m.lastSequence})))
  }

  ghost predicate SnapshotReleased(s: State, snapshot: SequenceNumber, s': State) {
    s.process.Up? &&
    var m := s.process.memory;
    s' == s.(process := Up(m.(snapshots := m.snapshots - multiset{snapshot})))
  }

  function MaxSequence(es: seq<Entry>, least: SequenceNumber): SequenceNumber {
    if es == [] then least else Later(MaxSequence(es[..|es| - 1], least), es[|es| - 1].key.sequence)
  }

  function AddedToLevel0(files: seq<FileMetaData>): VersionEdit {
    VersionEdit([], {}, seq(|files|, i requires 0 <= i < |files| => (0, files[i])))
  }

  ghost predicate TablesOfChunks(chunks: seq<Record>, files: seq<FileMetaData>) {
    && |files| == |chunks|
    && (forall i :: 0 <= i < |files| ==> ValidFile(files[i]) && SetOf(files[i].entries) == SetOf(chunks[i]))
    && (forall i, j :: 0 <= i < j < |files| ==> files[i].number < files[j].number)
  }

  /** Recovery replays the logs from the log number on into level-0 tables and starts a new log. Their
      numbers, and that of the new log, come after every number the manifest and the logs show as used. */
  ghost predicate RecoveryOpened(s: State, chunks: seq<Record>, files: seq<FileMetaData>, next: Version, log: nat,
                                 s': State) {
    s.process.Down? &&
    var mf := s.disk.manifest;
    && mf.lastSequence <= MAX_SEQUENCE_NUMBER
    && Joined(chunks) == Tail(s.disk.logs, mf.logNumber, s.newestLog + 1)
    && TablesOfChunks(chunks, files)
    && (forall f :: f in files ==> mf.nextFile < f.number < log)
    && Installs(mf.version, AddedToLevel0(files), next)
    && mf.nextFile < log && (forall n :: n in s.disk.logs && mf.logNumber <= n ==> n < log)
    && s' == s.(
      disk := s.disk.(tables := PutTables(s.disk.tables, files), logs := s.disk.logs[log := []]),
      newestLog := log,
      process := Opening(next, log, log + 1, MaxSequence(Joined(chunks), mf.lastSequence)))
  }

  /** The new manifest becomes the current one. */
  ghost predicate OpenCommitted(s: State, s': State) {
    s.process.Opening? &&
    var p := s.process;
    s' == s.(
      disk := s.disk.(manifest := Manifest(p.next, p.log, p.nextFile, p.lastSequence)),
      held := |s.written|,
      process := Up(Memory([], None, None, p.log, p.next, p.log, p.nextFile, p.lastSequence, Idle, multiset{})))
  }

  ghost predicate Next(s: State, step: Step, s': State) {
    match step
    case Append(record) => Appended(s, record, s')
    case Apply => Applied(s, s')
    case SwitchLog => Switched(s, s')
    case StrayTable(number, junk) => Strayed(s, number, junk, s')
    case BuildFlush(level, table, next) => FlushBuilt(s, level, table, next, s')
    case BuildCompaction(c, input, smallest, outputs, first, nextFile, next) =>
      CompactionBuilt(s, c, input, smallest, outputs, first, nextFile, next, s')
    case BuildMove(c, maxBytes, next) => MoveBuilt(s, c, maxBytes, next, s')
    case Commit => CommittedTo(s, s')
    case InstallCommitted => Installed(s, s')
    case DeleteObsolete(logs, tables) => Deleted(s, logs, tables, s')
    case TakeSnapshot => SnapshotTaken(s, s')
    case ReleaseSnapshot(snapshot) => SnapshotReleased(s, snapshot, s')
    case Crash => s' == s.(process := Down)
    case Open(chunks, files, next, log) => RecoveryOpened(s, chunks, files, next, log, s')
    case OpenCommit => OpenCommitted(s, s')
  }

  /** The manifest NewDB writes. */
  function Created(): State {
    State(Disk(map[], map[], Manifest(EmptyVersion(), 0, 2, 0)), Down, [], 0, 0, 0)
  }

  // ---- the invariant: what versions hold ----

  ghost predicate LiveTables(v: Version, tables: map<nat, FileMetaData>, nextFile: nat) {
    forall level, f :: In(v, level, f) ==> f.number < nextFile && f.number in tables && tables[f.number] == f
  }

  /** A version holds the first `n` entries written, for reads at the horizon or later, and its tables are
      on disk with numbers below `nextFile`. */
  datatype Claim = Claim(version: Version, n: int, horizon: SequenceNumber, nextFile: nat)

  ghost predicate Kept(written: seq<Entry>, tables: map<nat, FileMetaData>, c: Claim) {
    0 <= c.n && Holds(c.version, written, c.n, c.horizon) && LiveTables(c.version, tables, c.nextFile)
  }

  /** The entries in memory, oldest first. */
  function Unflushed(m: Memory): seq<Entry> {
    Entries(m.imm) + m.mem + Entries(m.logged)
  }

  /** How many entries the version in use holds. */
  function Base(s: State, m: Memory): int {
    |s.written| - |Entries(m.imm)| - |m.mem| - |Entries(m.logged)|
  }

  /** How many entries the version of an edit holds. */
  function Target(s: State, m: Memory, e: Edit): int {
    if e.flush then Base(s, m) + |Entries(m.imm)| else Base(s, m)
  }

  function Claims(s: State): set<Claim> {
    {Claim(s.disk.manifest.version, s.held, s.horizon, s.disk.manifest.nextFile)} +
    match s.process
    case Down => {}
    case Opening(next, _, nextFile, _) => {Claim(next, |s.written|, s.horizon, nextFile)}
    case Up(m) =>
      {Claim(m.version, Base(s, m), s.horizon, m.nextFile)} +
      if m.job.Ready? then
        {Claim(m.job.edit.next, Target(s, m, m.job.edit), Later(s.horizon, m.job.edit.smallest), m.nextFile)}
      else {}
  }

  ghost predicate AllKept(written: seq<Entry>, tables: map<nat, FileMetaData>, claims: set<Claim>) {
    forall c :: c in claims ==> Kept(written, tables, c)
  }

  ghost predicate ClaimsHold(s: State) {
    AllKept(s.written, s.disk.tables, Claims(s))
  }

  // ---- the invariant: logs and counters ----

  /** A restart finds in the logs from the log number on exactly the entries the manifest's version does
      not hold. */
  ghost predicate DiskInv(s: State) {
    var d, mf := s.disk, s.disk.manifest;
    && Sequenced(s.written) && |s.written| <= MAX_SEQUENCE_NUMBER
    && s.held <= mf.lastSequence <= |s.written| && s.horizon <= |s.written|
    && mf.logNumber < mf.nextFile && mf.logNumber <= s.newestLog
    && (forall n :: n in d.logs ==> n <= s.newestLog)
    && (s.newestLog in d.logs || s.newestLog == mf.logNumber)
    && Tail(d.logs, mf.logNumber, s.newestLog + 1) == s.written[s.held..]
  }

  ghost predicate Counters(s: State, m: Memory) {
    && m.lastSequence + |Entries(m.logged)| == |s.written|
    && m.logfile == s.newestLog && m.logfile in s.disk.logs && m.logfile < m.nextFile
    && s.disk.manifest.nextFile <= m.nextFile && s.disk.manifest.lastSequence <= m.lastSequence
    && s.horizon <= m.lastSequence
  }

  ghost predicate SnapshotsFrom(m: Memory, oldest: SequenceNumber) {
    oldest <= m.lastSequence && forall snapshot :: snapshot in m.snapshots ==> oldest <= snapshot <= m.lastSequence
  }

  ghost predicate MemoryInv(s: State, m: Memory) {
    && Counters(s, m) && SnapshotsFrom(m, s.horizon)
    && 0 <= Base(s, m) && s.written[Base(s, m)..] == Unflushed(m)
    && Joined(s.disk.logs[m.logfile]) == m.mem + Entries(m.logged)
    && (m.job.Idle? ==> Agrees(s, m))
    && (m.job.Ready? ==> Agrees(s, m) && EditInv(m, m.job.edit) && SnapshotsFrom(m, m.job.edit.smallest))
    && (m.job.Committed? ==> EditInv(m, m.job.edit) && InManifest(s, m, m.job.edit))
  }

  /** Memory and manifest agree on the version, and the immutable memtable is what older logs hold. */
  ghost predicate Agrees(s: State, m: Memory) {
    && m.version == s.disk.manifest.version && m.logNumber == s.disk.manifest.logNumber
    && s.held == Base(s, m) && OlderLogs(s, m)
  }

  ghost predicate OlderLogs(s: State, m: Memory) {
    m.logNumber <= m.logfile && Tail(s.disk.logs, m.logNumber, m.logfile) == Entries(m.imm)
  }

  /** The current log cannot change while the immutable memtable is there, so the log number of a flush
      stays the number of the log of the current memtable. */
  ghost predicate EditInv(m: Memory, e: Edit) {
    && (e.flush ==> m.imm.Some? && e.logNumber == m.logfile)
    && (!e.flush ==> e.logNumber == m.logNumber)
  }

  ghost predicate InManifest(s: State, m: Memory, e: Edit) {
    && s.disk.manifest.version == e.next && s.disk.manifest.logNumber == e.logNumber
    && s.held == Target(s, m, e) && (!e.flush ==> OlderLogs(s, m))
  }

  ghost predicate OpeningInv(s: State, log: nat, nextFile: nat, lastSequence: SequenceNumber) {
    && log == s.newestLog && log in s.disk.logs && s.disk.logs[log] == [] && log < nextFile
    && s.disk.manifest.nextFile <= nextFile && lastSequence == |s.written|
  }

  ghost predicate LogsInv(s: State) {
    && DiskInv(s)
    && match s.process
       case Down => true
       case Opening(_, log, nextFile, lastSequence) => OpeningInv(s, log, nextFile, lastSequence)
       case Up(m) => MemoryInv(s, m)
  }

  ghost predicate StateInv(s: State) {
    LogsInv(s) && ClaimsHold(s)
  }

  // ---- facts about logs ----

  lemma SequencedExtends(written: seq<Entry>, record: Record)
    requires Sequenced(written) && Continues(record, |written|)
    ensures Sequenced(written + record)
  {
  }

  lemma TailGrows(logs: map<nat, seq<Record>>, from: nat, last: nat, record: Record)
    requires from <= last && last in logs
    ensures var logs' := logs[last := logs[last] + [record]];
      && Tail(logs', from, last) == Tail(logs, from, last)
      && Tail(logs', from, last + 1) == Tail(logs, from, last + 1) + record
  {
    var logs' := logs[last := logs[last] + [record]];
    JoinedAppend(logs[last], record);
    TailSame(logs, logs', from, last);
    var older, newest := Tail(logs, from, last), Joined(logs[last]);
    assert Tail(logs', from, last + 1) == older + (newest + record);
    assert older + (newest + record) == (older + newest) + record;
  }

  lemma TailOfLast(logs: map<nat, seq<Record>>, last: nat)
    requires last in logs
    ensures Tail(logs, last, last + 1) == Joined(logs[last])
  {
    assert Tail(logs, last, last) == [];
  }

  lemma NewLogIsEmpty(logs: map<nat, seq<Record>>, from: nat, to: nat, log: nat)
    requires to <= log && forall n :: n in logs ==> n < to
    ensures Tail(logs[log := []], from, log + 1) == Tail(logs, from, to)
  {
    TailBeyond(logs, from, to, log);
    TailSame(logs, logs[log := []], from, log);
    assert Joined(logs[log := []][log]) == [];
  }

  lemma UnflushedGrows(m: Memory, record: Record)
    requires m.logged.None?
    ensures Unflushed(m.(logged := Some(record))) == Unflushed(m) + record
  {
  }

  lemma SuffixGrows(written: seq<Entry>, n: nat, record: Record)
    requires n <= |written|
    ensures (written + record)[n..] == written[n..] + record
  {
  }

  lemma ImmIsNext(s: State, m: Memory)
    requires 0 <= Base(s, m) && s.written[Base(s, m)..] == Unflushed(m)
    ensures var to := Base(s, m) + |Entries(m.imm)|;
      to <= |s.written| && s.written[Base(s, m)..to] == Entries(m.imm) && s.written[to..] == m.mem + Entries(m.logged)
  {
    var to := Base(s, m) + |Entries(m.imm)|;
    assert s.written[Base(s, m)..to] == Unflushed(m)[..|Entries(m.imm)|];
    assert s.written[to..] == Unflushed(m)[|Entries(m.imm)|..];
  }

  // ---- every step keeps the logs and counters right ----

  lemma AppendKeepsDisk(s: State, record: Record, s': State)
    requires DiskInv(s) && s.process.Up? && Counters(s, s.process.memory) && Appended(s, record, s')
    ensures DiskInv(s')
  {
    var m := s.process.memory;
    TailGrows(s.disk.logs, s.disk.manifest.logNumber, m.logfile, record);
    SequencedExtends(s.written, record);
    SuffixGrows(s.written, s.held, record);
  }

  lemma AppendKeepsMemory(s: State, record: Record, s': State)
    requires LogsInv(s) && Appended(s, record, s')
    ensures MemoryInv(s', s'.process.memory)
  {
    var m, m' := s.process.memory, s'.process.memory;
    UnflushedGrows(m, record);
    SuffixGrows(s.written, Base(s, m), record);
    JoinedAppend(s.disk.logs[m.logfile], record);
    assert Base(s', m') == Base(s, m);
    if m.logNumber <= m.logfile {
      TailGrows(s.disk.logs, m.logNumber, m.logfile, record);
      assert OlderLogs(s, m) ==> OlderLogs(s', m');
    }
  }

  lemma ApplyKeepsLogs(s: State, s': State)
    requires LogsInv(s) && Applied(s, s')
    ensures LogsInv(s')
  {
    var m, m' := s.process.memory, s'.process.memory;
    assert Unflushed(m') == Unflushed(m);
    assert m'.mem + Entries(m'.logged) == m.mem + Entries(m.logged);
  }

  lemma SwitchKeepsDisk(s: State, s': State)
    requires LogsInv(s) && Switched(s, s')
    ensures DiskInv(s')
  {
    var m := s.process.memory;
    NewLogIsEmpty(s.disk.logs, s.disk.manifest.logNumber, m.logfile + 1, m.nextFile);
  }

  lemma SwitchKeepsMemory(s: State, s': State)
    requires LogsInv(s) && Switched(s, s')
    ensures MemoryInv(s', s'.process.memory)
  {
    var m := s.process.memory;
    TailBeyond(s.disk.logs, m.logNumber, m.logfile + 1, m.nextFile);
    TailSame(s.disk.logs, s'.disk.logs, m.logNumber, m.nextFile);
    assert Unflushed(s'.process.memory) == Unflushed(m);
  }

  lemma BuiltKeepsLogs(s: State, tables: map<nat, FileMetaData>, nextFile: nat, e: Edit)
    requires LogsInv(s) && s.process.Up? && s.process.memory.job.Idle?
    requires s.process.memory.nextFile <= nextFile
    requires EditInv(s.process.memory, e) && SnapshotsFrom(s.process.memory, e.smallest)
    ensures LogsInv(Built(s, tables, nextFile, e))
  {
    assert Unflushed(Built(s, tables, nextFile, e).process.memory) == Unflushed(s.process.memory);
  }

  lemma CommitKeepsDisk(s: State, s': State)
    requires LogsInv(s) && CommittedTo(s, s')
    ensures DiskInv(s')
  {
    var m := s.process.memory;
    ImmIsNext(s, m);
    if m.job.edit.flush {
      TailOfLast(s.disk.logs, m.logfile);
      assert s'.written[s'.held..] == m.mem + Entries(m.logged);
    }
  }

  lemma CommitKeepsMemory(s: State, s': State)
    requires LogsInv(s) && CommittedTo(s, s')
    ensures MemoryInv(s', s'.process.memory)
  {
    assert Unflushed(s'.process.memory) == Unflushed(s.process.memory);
  }

  lemma InstallKeepsMemory(s: State, s': State)
    requires LogsInv(s) && Installed(s, s')
    ensures MemoryInv(s', s'.process.memory)
  {
    var m, m' := s.process.memory, s'.process.memory;
    if m.job.edit.flush {
      ImmIsNext(s, m);
      assert Entries(m'.imm) + m'.mem == m.mem;
      assert Base(s', m') == s.held;
    } else {
      assert Unflushed(m') == Unflushed(m) && Base(s', m') == Base(s, m);
    }
  }

  lemma DeleteKeepsLogs(s: State, logs: set<nat>, tables: set<nat>, s': State)
    requires LogsInv(s) && Deleted(s, logs, tables, s')
    ensures LogsInv(s')
  {
    var m := s.process.memory;
    TailSame(s.disk.logs, s'.disk.logs, m.logNumber, m.logfile);
    TailSame(s.disk.logs, s'.disk.logs, m.logNumber, m.logfile + 1);
    assert Unflushed(s'.process.memory) == Unflushed(m);
  }

  lemma {:induction false} MaxOfSuffix(written: seq<Entry>, n: nat, least: SequenceNumber)
    requires Sequenced(written) && n <= |written| <= MAX_SEQUENCE_NUMBER && least <= |written| && n <= least
    ensures MaxSequence(written[n..], least) == |written|
    decreases |written|
  {
    if n < |written| {
      var front := written[..|written| - 1];
      assert written[n..][..|written| - n - 1] == front[n..];
      if least < |written| {
        MaxOfSuffix(front, n, least);
      } else {
        MaxIsLeast(front, n, least);
      }
    }
  }

  lemma {:induction false} MaxIsLeast(written: seq<Entry>, n: nat, least: SequenceNumber)
    requires Sequenced(written) && n <= |written| <= least
    ensures MaxSequence(written[n..], least) == least
    decreases |written|
  {
    if n < |written| {
      var front := written[..|written| - 1];
      assert written[n..][..|written| - n - 1] == front[n..];
      MaxIsLeast(front, n, least);
    }
  }

  lemma OpenKeepsLogs(s: State, chunks: seq<Record>, files: seq<FileMetaData>, next: Version, log: nat, s': State)
    requires LogsInv(s) && RecoveryOpened(s, chunks, files, next, log, s')
    ensures LogsInv(s')
  {
    var mf := s.disk.manifest;
    MaxOfSuffix(s.written, s.held, mf.lastSequence);
    NewLogIsEmpty(s.disk.logs, mf.logNumber, s.newestLog + 1, log);
  }

  lemma OpenCommitKeepsLogs(s: State, s': State)
    requires LogsInv(s) && OpenCommitted(s, s')
    ensures LogsInv(s')
  {
    var p := s.process;
    TailOfLast(s.disk.logs, p.log);
    assert Unflushed(s'.process.memory) == [];
  }

  // ---- every step keeps what versions hold ----

  lemma KeptExtends(written: seq<Entry>, tables: map<nat, FileMetaData>, c: Claim, more: seq<Entry>)
    requires Kept(written, tables, c)
    ensures Kept(written + more, tables, c)
  {
    assert (written + more)[..c.n] == written[..c.n];
  }

  lemma AppendKeepsClaims(s: State, record: Record, s': State)
    requires ClaimsHold(s) && Appended(s, record, s')
    ensures ClaimsHold(s')
  {
    assert Claims(s') == Claims(s);
    forall c | c in Claims(s) ensures Kept(s'.written, s.disk.tables, c) {
      KeptExtends(s.written, s.disk.tables, c, record);
    }
  }

  /** A version still holds what it held when other tables come and go, file numbers are handed out, or
      older snapshots are given up. */
  lemma KeptWeakens(written: seq<Entry>, tables: map<nat, FileMetaData>, c: Claim, tables': map<nat, FileMetaData>,
                    c': Claim)
    requires Kept(written, tables, c) && c' == c.(horizon := c'.horizon, nextFile := c'.nextFile)
    requires c.horizon <= c'.horizon && c.nextFile <= c'.nextFile
    requires forall n :: n in tables && n < c.nextFile && Live(c.version, n) ==> n in tables' && tables'[n] == tables[n]
    ensures Kept(written, tables', c')
  {
    forall user, snapshot: SequenceNumber
      ensures SameRead(SetOf(written[..c.n]), AllEntries(c.version), c'.horizon, user, snapshot)
    {
      assert SameRead(SetOf(written[..c.n]), AllEntries(c.version), c.horizon, user, snapshot);
    }
  }

  ghost predicate Weakens(c: Claim, c': Claim) {
    c' == c.(horizon := c'.horizon, nextFile := c'.nextFile) && c.horizon <= c'.horizon && c.nextFile <= c'.nextFile
  }

  /** The claims of a state follow from those of the state before, on the same tables as far as they go. */
  lemma ClaimsFollow(s: State, s': State, bound: nat)
    requires ClaimsHold(s) && s'.written == s.written
    requires forall c' :: c' in Claims(s') ==> exists c :: c in Claims(s) && Weakens(c, c')
    requires forall c :: c in Claims(s) ==> c.nextFile <= bound
    requires forall n :: n in s.disk.tables && n < bound ==>
      n in s'.disk.tables && s'.disk.tables[n] == s.disk.tables[n]
    ensures ClaimsHold(s')
  {
    forall c' | c' in Claims(s') ensures Kept(s'.written, s'.disk.tables, c') {
      var c :| c in Claims(s) && Weakens(c, c');
      KeptWeakens(s.written, s.disk.tables, c, s'.disk.tables, c');
    }
  }

  lemma ApplyKeepsClaims(s: State, s': State)
    requires ClaimsHold(s) && Applied(s, s')
    ensures ClaimsHold(s')
  {
    assert Base(s', s'.process.memory) == Base(s, s.process.memory);
    assert Claims(s') == Claims(s);
  }

  lemma SwitchKeepsClaims(s: State, s': State)
    requires LogsInv(s) && ClaimsHold(s) && Switched(s, s')
    ensures ClaimsHold(s')
  {
    var m := s.process.memory;
    forall c' | c' in Claims(s') ensures exists c :: c in Claims(s) && Weakens(c, c') {
      assert Weakens(c', c');
      assert c' in Claims(s) || Weakens(c'.(nextFile := m.nextFile), c');
    }
    ClaimsFollow(s, s', m.nextFile);
  }

  lemma StrayKeepsClaims(s: State, number: nat, junk: FileMetaData, s': State)
    requires LogsInv(s) && ClaimsHold(s) && Strayed(s, number, junk, s')
    ensures ClaimsHold(s')
  {
    var mf := s.disk.manifest;
    var c0 := Claim(mf.version, s.held, s.horizon, mf.nextFile);
    assert c0 in Claims(s);
    forall c | c in Claims(s') ensures Kept(s.written, s'.disk.tables, c) {
      assert c in Claims(s) && Weakens(c0, c);
      KeptWeakens(s.written, s.disk.tables, c0, s'.disk.tables, c);
    }
  }

  /** A finished job adds the claim of its own version. */
  lemma BuiltKeepsClaims(s: State, tables: map<nat, FileMetaData>, nextFile: nat, e: Edit)
    requires LogsInv(s) && ClaimsHold(s) && s.process.Up? && s.process.memory.job.Idle?
    requires s.process.memory.nextFile <= nextFile
    requires forall n :: n in s.disk.tables && n < s.process.memory.nextFile ==>
      n in tables && tables[n] == s.disk.tables[n]
    requires AllKept(s.written, tables,
      {Claim(e.next, Target(s, s.process.memory, e), Later(s.horizon, e.smallest), nextFile)})
    ensures ClaimsHold(Built(s, tables, nextFile, e))
  {
    var m, s', target := s.process.memory, Built(s, tables, nextFile, e),
      Claim(e.next, Target(s, s.process.memory, e), Later(s.horizon, e.smallest), nextFile);
    var c0, c1 := Claim(s.disk.manifest.version, s.held, s.horizon, s.disk.manifest.nextFile),
      Claim(m.version, Base(s, m), s.horizon, m.nextFile);
    assert Claims(s) == {c0, c1} && Claims(s') == {c0, c1.(nextFile := nextFile), target};
    forall c | c in Claims(s') && c != target ensures Kept(s.written, tables, c) {
      KeptWeakens(s.written, s.disk.tables, if c == c0 then c0 else c1, tables, c);
    }
  }

  /** The claim of the version in use. */
  lemma InUse(s: State) returns (c: Claim)
    requires ClaimsHold(s) && s.process.Up?
    ensures c == Claim(s.process.memory.version, Base(s, s.process.memory), s.horizon, s.process.memory.nextFile)
    ensures Kept(s.written, s.disk.tables, c)
  {
    c := Claim(s.process.memory.version, Base(s, s.process.memory), s.horizon, s.process.memory.nextFile);
    assert c in Claims(s);
  }

  lemma FlushIsKept(written: seq<Entry>, tables: map<nat, FileMetaData>, c: Claim, imm: seq<Entry>, level: nat,
                    f: FileMetaData, next: Version)
    requires Sequenced(written) && Kept(written, tables, c)
    requires c.n + |imm| <= |written| && written[c.n..c.n + |imm|] == imm
    requires FlushTable(c.version, imm, c.nextFile, level, f, next)
    ensures Kept(written, tables[c.nextFile := f], Claim(next, c.n + |imm|, c.horizon, c.nextFile + 1))
  {
    FlushInstalls(c.version, level, f, next);
    assert NewNumber(c.version, f.number);
    FlushHolds(c.version, written, c.n, c.horizon, c.n + |imm|, level, f, next);
    assert forall l, g :: In(next, l, g) ==> In(c.version, l, g) || g == f;
  }

  lemma FlushTargetKept(s: State, level: nat, table: Option<FileMetaData>, next: Version, s': State)
    requires LogsInv(s) && ClaimsHold(s) && FlushBuilt(s, level, table, next, s')
    ensures var m, e := s.process.memory, s'.process.memory.job.edit;
      AllKept(s.written, s'.disk.tables,
        {Claim(e.next, Target(s, m, e), Later(s.horizon, e.smallest), s'.process.memory.nextFile)})
  {
    var m := s.process.memory;
    var c := InUse(s);
    ImmIsNext(s, m);
    if table.Some? {
      FlushIsKept(s.written, s.disk.tables, c, m.imm.value, level, table.value, next);
    } else {
      KeptWeakens(s.written, s.disk.tables, c, s'.disk.tables, c.(nextFile := m.nextFile + 1));
    }
  }

  lemma FlushDelivers(s: State, level: nat, table: Option<FileMetaData>, next: Version, s': State)
    requires LogsInv(s) && ClaimsHold(s) && FlushBuilt(s, level, table, next, s')
    ensures Delivered(s, s'.process.memory.job.edit, s')
  {
    FlushTargetKept(s, level, table, next, s');
  }

  lemma {:induction false} PutTablesAt(tables: map<nat, FileMetaData>, files: seq<FileMetaData>)
    requires forall i, j :: 0 <= i < j < |files| ==> files[i].number < files[j].number
    ensures forall i :: 0 <= i < |files| ==>
      files[i].number in PutTables(tables, files) && PutTables(tables, files)[files[i].number] == files[i]
    ensures forall n :: n in tables && (forall f :: f in files ==> f.number != n) ==>
      n in PutTables(tables, files) && PutTables(tables, files)[n] == tables[n]
  {
    if files != [] {
      var front, last := files[..|files| - 1], files[|files| - 1];
      PutTablesAt(tables, front);
      forall i | 0 <= i < |front|
        ensures PutTables(tables, front)[files[i].number] == files[i] && files[i].number != last.number
      {
        assert front[i] == files[i];
      }
      assert forall f :: f in front ==> f in files;
    }
  }

  lemma CompactionIsKept(written: seq<Entry>, tables: map<nat, FileMetaData>, claim: Claim, c: Compaction,
                         input: seq<Entry>, smallest: SequenceNumber, outputs: seq<FileMetaData>, first: nat,
                         nextFile: nat, next: Version)
    requires Sequenced(written) && Kept(written, tables, claim)
    requires GoodCompaction(claim.version, c, input, smallest, outputs, first, next)
    requires Harmless(claim.version, c, smallest)
    requires claim.nextFile <= first <= nextFile && forall o :: o in outputs ==> first <= o.number < nextFile
    ensures Kept(written, PutTables(tables, outputs), Claim(next, claim.n, Later(claim.horizon, smallest), nextFile))
  {
    CompactionHolds(claim.version, written, claim.n, claim.horizon, c, input, smallest, outputs, first, next);
    CompactionInstalls(claim.version, c, outputs, next);
    PutTablesAt(tables, outputs);
    assert forall l, g :: In(next, l, g) ==> In(claim.version, l, g) || g in outputs;
  }

  lemma CompactionDelivers(s: State, c: Compaction, input: seq<Entry>, smallest: SequenceNumber,
                           outputs: seq<FileMetaData>, first: nat, nextFile: nat, next: Version, s': State)
    requires LogsInv(s) && ClaimsHold(s) && CompactionBuilt(s, c, input, smallest, outputs, first, nextFile, next, s')
    requires Harmless(s.process.memory.version, c, smallest)
    ensures Delivered(s, s'.process.memory.job.edit, s')
  {
    var claim := InUse(s);
    CompactionIsKept(s.written, s.disk.tables, claim, c, input, smallest, outputs, first, nextFile, next);
    PutTablesAt(s.disk.tables, outputs);
  }

  lemma MoveIsKept(written: seq<Entry>, tables: map<nat, FileMetaData>, claim: Claim, c: Compaction,
                   maxGrandparentBytes: nat, next: Version)
    requires Kept(written, tables, claim) && GoodPick(claim.version, c) && IsTrivialMove(c, maxGrandparentBytes)
    requires Installs(claim.version, CompactionEdit(c, c.inputs0), next)
    ensures Kept(written, tables, claim.(version := next))
  {
    MoveHolds(claim.version, written, claim.n, claim.horizon, c, maxGrandparentBytes, next);
    CompactionInstalls(claim.version, c, c.inputs0, next);
    InputsAreInVersion(claim.version, c);
    forall l: nat, g | In(next, l, g) ensures g.number < claim.nextFile && g.number in tables && tables[g.number] == g {
      assert In(claim.version, if Remains(claim.version, c, l, g) then l else c.level, g);
    }
  }

  lemma MoveDelivers(s: State, c: Compaction, maxGrandparentBytes: nat, next: Version, s': State)
    requires LogsInv(s) && ClaimsHold(s) && MoveBuilt(s, c, maxGrandparentBytes, next, s')
    ensures Delivered(s, s'.process.memory.job.edit, s')
  {
    var claim := InUse(s);
    MoveIsKept(s.written, s.disk.tables, claim, c, maxGrandparentBytes, next);
  }

  /** What every background job hands over. */
  ghost predicate Delivered(s: State, e: Edit, s': State) {
    s.process.Up? && s'.process.Up? &&
    var m, nextFile, tables := s.process.memory, s'.process.memory.nextFile, s'.disk.tables;
    && m.job.Idle? && s' == Built(s, tables, nextFile, e) && m.nextFile <= nextFile
    && (forall n :: n in s.disk.tables && n < m.nextFile ==> n in tables && tables[n] == s.disk.tables[n])
    && AllKept(s.written, tables, {Claim(e.next, Target(s, m, e), Later(s.horizon, e.smallest), nextFile)})
    && EditInv(m, e) && SnapshotsFrom(m, e.smallest)
  }

  lemma DeliveredKeeps(s: State, e: Edit, s': State)
    requires LogsInv(s) && ClaimsHold(s) && Delivered(s, e, s')
    ensures LogsInv(s') && ClaimsHold(s')
  {
    BuiltKeepsLogs(s, s'.disk.tables, s'.process.memory.nextFile, e);
    BuiltKeepsClaims(s, s'.disk.tables, s'.process.memory.nextFile, e);
  }

  ghost predicate SnapshotsChange(s: State, s': State) {
    s.process.Up? && s'.process.Up? &&
    var m, snapshots := s.process.memory, s'.process.memory.snapshots;
    && s' == s.(process := Up(m.(snapshots := snapshots)))
    && forall snapshot :: snapshot in snapshots ==> snapshot in m.snapshots || snapshot == m.lastSequence
  }

  lemma SnapshotsKeepLogs(s: State, s': State)
    requires LogsInv(s) && SnapshotsChange(s, s')
    ensures LogsInv(s')
  {
    assert Unflushed(s'.process.memory) == Unflushed(s.process.memory);
  }

  lemma SnapshotsKeepClaims(s: State, s': State)
    requires ClaimsHold(s) && SnapshotsChange(s, s')
    ensures ClaimsHold(s')
  {
    assert Claims(s') == Claims(s);
  }

  lemma CrashKeeps(s: State, s': State)
    requires LogsInv(s) && ClaimsHold(s) && s' == s.(process := Down)
    ensures LogsInv(s') && ClaimsHold(s')
  {
    assert Claims(s') <= Claims(s);
  }

  lemma CommitKeepsClaims(s: State, s': State)
    requires LogsInv(s) && ClaimsHold(s) && CommittedTo(s, s')
    ensures ClaimsHold(s')
  {
    var m := s.process.memory;
    var c := InUse(s);
    var target := Claim(m.job.edit.next, s'.held, s'.horizon, m.nextFile);
    assert target in Claims(s) && Claims(s') == {target, c.(horizon := s'.horizon)};
    KeptWeakens(s.written, s.disk.tables, c, s.disk.tables, c.(horizon := s'.horizon));
  }

  lemma InstallKeepsClaims(s: State, s': State)
    requires LogsInv(s) && ClaimsHold(s) && Installed(s, s')
    ensures ClaimsHold(s')
  {
    var m, m' := s.process.memory, s'.process.memory;
    assert Base(s', m') == s.held;
    var c := Claim(s.disk.manifest.version, s.held, s.horizon, s.disk.manifest.nextFile);
    assert c in Claims(s) && Claims(s') == {c, c.(nextFile := m.nextFile)};
    KeptWeakens(s.written, s.disk.tables, c, s.disk.tables, c.(nextFile := m.nextFile));
  }

  lemma DeleteKeepsClaims(s: State, logs: set<nat>, tables: set<nat>, s': State)
    requires LogsInv(s) && ClaimsHold(s) && Deleted(s, logs, tables, s')
    ensures ClaimsHold(s')
  {
    assert Claims(s') == Claims(s);
    forall c | c in Claims(s) ensures Kept(s.written, s'.disk.tables, c) {
      assert c.version == s.process.memory.version;
      KeptWeakens(s.written, s.disk.tables, c, s'.disk.tables, c);
    }
  }

  // -- recovery --

  function AddTable(v: Version, f: FileMetaData): Version
    requires |v.files| == NUM_LEVELS
  {
    Version(v.files[0 := InsertFile(v.files[0], f)])
  }

  function AddTables(v: Version, files: seq<FileMetaData>): (r: Version)
    requires |v.files| == NUM_LEVELS
    ensures |r.files| == NUM_LEVELS
  {
    if files == [] then v else AddTable(AddTables(v, files[..|files| - 1]), files[|files| - 1])
  }

  /** One table of a replayed log is one flush to level 0. */
  lemma AddTableIsFlush(v: Version, f: FileMetaData)
    requires WellFormed(v) && NewNumber(v, f.number)
    ensures FlushedTo(v, 0, f, AddTable(v, f))
  {
    var next := AddTable(v, f);
    InsertFileMembers(v.files[0], f);
    InsertFileSorted(v.files[0], f);
    if g :| g in v.files[0] && g.number == f.number {
      assert In(v, 0, g);
    }
    forall l: nat, g ensures In(next, l, g) <==> In(v, l, g) || (l == 0 && g == f) {
    }
  }

  /** The edit of a whole recovery adds its tables one after the other. */
  lemma {:induction false} AddTablesMembers(v: Version, files: seq<FileMetaData>)
    requires WellFormed(v) && forall f :: f in files ==> NewNumber(v, f.number)
    requires forall i, j :: 0 <= i < j < |files| ==> files[i].number < files[j].number
    ensures SortedFiles(AddTables(v, files).files[0])
    ensures forall i :: 0 < i < NUM_LEVELS ==> AddTables(v, files).files[i] == v.files[i]
    ensures forall g :: g in AddTables(v, files).files[0] <==> g in v.files[0] || g in files
  {
    if files != [] {
      var front, last := files[..|files| - 1], files[|files| - 1];
      assert files == front + [last];
      AddTablesMembers(v, front);
      var before := AddTables(v, front).files[0];
      InsertFileMembers(before, last);
      InsertFileSorted(before, last);
      if h :| h in before && h.number == last.number {
        assert h in v.files[0] ==> In(v, 0, h);
      }
    }
  }

  /** The version recovery installs is the one that takes the tables one by one. */
  lemma RecoveryInstalls(v: Version, files: seq<FileMetaData>, next: Version)
    requires WellFormed(v) && forall f :: f in files ==> NewNumber(v, f.number)
    requires forall i, j :: 0 <= i < j < |files| ==> files[i].number < files[j].number
    requires Installs(v, AddedToLevel0(files), next)
    ensures next == AddTables(v, files)
  {
    var edit, r := AddedToLevel0(files), AddTables(v, files);
    AddTablesMembers(v, files);
    forall l | 0 <= l < NUM_LEVELS ensures next.files[l] == r.files[l] {
      forall g ensures g in next.files[l] <==> g in r.files[l] {
        assert g in next.files[l] <==> g in EditLevel(FileSet(v.files[l]), edit, l);
        if g in files {
          var i :| 0 <= i < |files| && files[i] == g;
          assert edit.added[i] in edit.added;
        }
      }
      SortedListsAgree(next.files[l], r.files[l]);
    }
  }

  lemma Halves(written: seq<Entry>, n: nat, a: seq<Entry>, b: seq<Entry>)
    requires n + |a| + |b| <= |written| && written[n..n + |a| + |b|] == a + b
    ensures written[n..n + |a|] == a && written[n + |a|..n + |a| + |b|] == b
  {
    assert written[n..n + |a|] == (a + b)[..|a|];
    assert written[n + |a|..n + |a| + |b|] == (a + b)[|a|..];
  }

  lemma ReplayStep(v: Version, written: seq<Entry>, n: nat, horizon: SequenceNumber, to: nat, f: FileMetaData)
    requires Holds(v, written, n, horizon) && Sequenced(written) && n <= to <= |written|
    requires ValidFile(f) && SetOf(f.entries) == SetOf(written[n..to]) && NewNumber(v, f.number)
    ensures Holds(AddTable(v, f), written, to, horizon)
  {
    AddTableIsFlush(v, f);
    FlushHolds(v, written, n, horizon, to, 0, f, AddTable(v, f));
  }

  ghost predicate ReplayTables(v: Version, written: seq<Entry>, n: nat, to: int, chunks: seq<Record>,
                               files: seq<FileMetaData>) {
    && TablesOfChunks(chunks, files) && (forall f :: f in files ==> NewNumber(v, f.number))
    && to == n + |Joined(chunks)| <= |written| && written[n..to] == Joined(chunks)
  }

  lemma ReplayFront(v: Version, written: seq<Entry>, n: nat, to: nat, chunks: seq<Record>, files: seq<FileMetaData>)
    returns (start: nat)
    requires WellFormed(v) && ReplayTables(v, written, n, to, chunks, files) && files != []
    ensures var k := |files| - 1;
      && ReplayTables(v, written, n, start, chunks[..k], files[..k])
      && start <= to && ValidFile(files[k]) && SetOf(files[k].entries) == SetOf(written[start..to])
      && NewNumber(AddTables(v, files[..k]), files[k].number)
      && AddTables(v, files) == AddTable(AddTables(v, files[..k]), files[k])
  {
    var k := |files| - 1;
    start := n + |Joined(chunks[..k])|;
    Halves(written, n, Joined(chunks[..k]), chunks[k]);
    AddTablesAreNew(v, files[..k], files[k].number);
  }

  lemma {:induction false} ReplayHolds(v: Version, written: seq<Entry>, n: nat, horizon: SequenceNumber, to: nat,
                                       chunks: seq<Record>, files: seq<FileMetaData>)
    requires Holds(v, written, n, horizon) && Sequenced(written) && ReplayTables(v, written, n, to, chunks, files)
    ensures Holds(AddTables(v, files), written, to, horizon)
  {
    if files == [] {
      assert Joined(chunks) == [];
    } else {
      var k := |files| - 1;
      var start := ReplayFront(v, written, n, to, chunks, files);
      ReplayHolds(v, written, n, horizon, start, chunks[..k], files[..k]);
      ReplayStep(AddTables(v, files[..k]), written, start, horizon, to, files[k]);
    }
  }

  lemma AddTablesAreNew(v: Version, files: seq<FileMetaData>, number: nat)
    requires WellFormed(v) && (forall f :: f in files ==> NewNumber(v, f.number)) && NewNumber(v, number)
    requires forall i, j :: 0 <= i < j < |files| ==> files[i].number < files[j].number
    requires forall f :: f in files ==> f.number < number
    ensures NewNumber(AddTables(v, files), number)
  {
    AddTablesMembers(v, files);
    var r := AddTables(v, files);
    forall l: nat, g | In(r, l, g) ensures g.number < number {
      assert In(v, l, g) || g in files;
    }
  }

  lemma RecoveryIsKept(written: seq<Entry>, tables: map<nat, FileMetaData>, c: Claim, chunks: seq<Record>,
                       files: seq<FileMetaData>, next: Version, nextFile: nat)
    requires Sequenced(written) && Kept(written, tables, c) && written[c.n..] == Joined(chunks)
    requires TablesOfChunks(chunks, files) && forall f :: f in files ==> c.nextFile < f.number < nextFile
    requires c.nextFile <= nextFile && Installs(c.version, AddedToLevel0(files), next)
    ensures Kept(written, PutTables(tables, files), Claim(next, |written|, c.horizon, nextFile))
  {
    forall f | f in files ensures NewNumber(c.version, f.number) {
    }
    RecoveryInstalls(c.version, files, next);
    assert written[c.n..|written|] == written[c.n..];
    ReplayHolds(c.version, written, c.n, c.horizon, |written|, chunks, files);
    AddTablesMembers(c.version, files);
    PutTablesAt(tables, files);
    forall l: nat, g | In(next, l, g) ensures In(c.version, l, g) || g in files {
    }
  }

  lemma OpenKeepsClaims(s: State, chunks: seq<Record>, files: seq<FileMetaData>, next: Version, log: nat, s': State)
    requires LogsInv(s) && ClaimsHold(s) && RecoveryOpened(s, chunks, files, next, log, s')
    ensures ClaimsHold(s')
  {
    var mf := s.disk.manifest;
    var c := Claim(mf.version, s.held, s.horizon, mf.nextFile);
    assert c in Claims(s);
    RecoveryIsKept(s.written, s.disk.tables, c, chunks, files, next, log + 1);
    PutTablesAt(s.disk.tables, files);
    KeptWeakens(s.written, s.disk.tables, c, s'.disk.tables, c);
    assert Claims(s') == {c, Claim(next, |s.written|, s.horizon, log + 1)};
  }

  lemma OpenCommitKeepsClaims(s: State, s': State)
    requires LogsInv(s) && ClaimsHold(s) && OpenCommitted(s, s')
    ensures ClaimsHold(s')
  {
    var p := s.process;
    assert Claims(s') == {Claim(p.next, |s.written|, s.horizon, p.nextFile)};
    assert Claims(s') <= Claims(s);
  }

  // ---- whole runs ----

  lemma WriterStepKeeps(s: State, step: Step, s': State)
    requires LogsInv(s) && ClaimsHold(s) && Next(s, step, s')
    requires step.Append? || step.Apply? || step.SwitchLog?
    ensures LogsInv(s') && ClaimsHold(s')
  {
    match step
    case Append(record) =>
      AppendKeepsDisk(s, record, s');
      AppendKeepsMemory(s, record, s');
      AppendKeepsClaims(s, record, s');
    case Apply =>
      ApplyKeepsLogs(s, s');
      ApplyKeepsClaims(s, s');
    case SwitchLog =>
      SwitchKeepsDisk(s, s');
      SwitchKeepsMemory(s, s');
      SwitchKeepsClaims(s, s');
  }

  lemma BuildStepKeeps(s: State, step: Step, s': State)
    requires LogsInv(s) && ClaimsHold(s) && Next(s, step, s') && HarmlessStep(s, step)
    requires step.BuildFlush? || step.BuildCompaction? || step.BuildMove?
    ensures LogsInv(s') && ClaimsHold(s')
  {
    assert s'.process.Up? && Delivered(s, s'.process.memory.job.edit, s') by {
      match step
      case BuildFlush(level, table, next) =>
        FlushDelivers(s, level, table, next, s');
      case BuildCompaction(c, input, smallest, outputs, first, nextFile, next) =>
        CompactionDelivers(s, c, input, smallest, outputs, first, nextFile, next, s');
      case BuildMove(c, maxBytes, next) =>
        MoveDelivers(s, c, maxBytes, next, s');
    }
    DeliveredKeeps(s, s'.process.memory.job.edit, s');
  }

  lemma ManifestStepKeeps(s: State, step: Step, s': State)
    requires LogsInv(s) && ClaimsHold(s) && Next(s, step, s')
    requires step.Commit? || step.InstallCommitted? || step.DeleteObsolete? || step.StrayTable?
    ensures LogsInv(s') && ClaimsHold(s')
  {
    match step
    case Commit =>
      CommitKeepsDisk(s, s');
      CommitKeepsMemory(s, s');
      CommitKeepsClaims(s, s');
    case InstallCommitted =>
      InstallKeepsMemory(s, s');
      InstallKeepsClaims(s, s');
    case DeleteObsolete(logs, tables) =>
      DeleteKeepsLogs(s, logs, tables, s');
      DeleteKeepsClaims(s, logs, tables, s');
    case StrayTable(number, junk) =>
      StrayKeepsClaims(s, number, junk, s');
  }

  lemma RestartStepKeeps(s: State, step: Step, s': State)
    requires LogsInv(s) && ClaimsHold(s) && Next(s, step, s')
    requires step.Crash? || step.Open? || step.OpenCommit?
    ensures LogsInv(s') && ClaimsHold(s')
  {
    match step
    case Crash =>
      CrashKeeps(s, s');
    case Open(chunks, files, next, log) =>
      OpenKeepsLogs(s, chunks, files, next, log, s');
      OpenKeepsClaims(s, chunks, files, next, log, s');
    case OpenCommit =>
      OpenCommitKeepsLogs(s, s');
      OpenCommitKeepsClaims(s, s');
  }

  lemma StepKeepsInv(s: State, step: Step, s': State)
    requires LogsInv(s) && ClaimsHold(s) && Next(s, step, s') && HarmlessStep(s, step)
    ensures LogsInv(s') && ClaimsHold(s')
  {
    if step.Append? || step.Apply? || step.SwitchLog? {
      WriterStepKeeps(s, step, s');
    } else if step.BuildFlush? || step.BuildCompaction? || step.BuildMove? {
      BuildStepKeeps(s, step, s');
    } else if step.Commit? || step.InstallCommitted? || step.DeleteObsolete? || step.StrayTable? {
      ManifestStepKeeps(s, step, s');
    } else if step.TakeSnapshot? || step.ReleaseSnapshot? {
      SnapshotsKeepLogs(s, s');
      SnapshotsKeepClaims(s, s');
    } else {
      RestartStepKeeps(s, step, s');
    }
  }

  ghost predicate Run(states: seq<State>, steps: seq<Step>) {
    && |states| == |steps| + 1 && states[0] == Created()
    && forall i :: 0 <= i < |steps| ==> RunStep(states, steps, i)
  }

  ghost predicate RunStep(states: seq<State>, steps: seq<Step>, i: nat)
    requires i < |steps| < |states|
  {
    Next(states[i], steps[i], states[i + 1])
  }

  /** A compaction does not bring deleted values back. */
  ghost predicate HarmlessStep(s: State, step: Step) {
    step.BuildCompaction? && s.process.Up? ==> Harmless(s.process.memory.version, step.compaction, step.smallest)
  }

  /** The condition on the first n steps of a run that the picker of inputs does not establish. */
  ghost predicate HarmlessUpTo(states: seq<State>, steps: seq<Step>, n: nat)
    requires Run(states, steps) && n <= |steps|
  {
    forall i :: 0 <= i < n ==> HarmlessStep(states[i], steps[i])
  }

  lemma EmptyHolds()
    ensures LogsInv(Created()) && ClaimsHold(Created())
  {
    var v := EmptyVersion();
    assert AllEntries(v) == {} == SetOf([]);
    assert Inv(v);
    forall user, snapshot: SequenceNumber ensures SameRead(SetOf([]), AllEntries(v), 0, user, snapshot) {
    }
  }

  /** Whatever steps come in whatever order and wherever the process stops, as long as every compaction is
      harmless. */
  lemma {:induction false} RunKeepsInv(states: seq<State>, steps: seq<Step>, n: nat)
    requires Run(states, steps) && n <= |steps| && HarmlessUpTo(states, steps, n)
    ensures LogsInv(states[n]) && ClaimsHold(states[n])
  {
    if n == 0 {
      EmptyHolds();
    } else {
      RunKeepsInv(states, steps, n - 1);
      assert RunStep(states, steps, n - 1) && HarmlessStep(states[n - 1], steps[n - 1]);
      StepKeepsInv(states[n - 1], steps[n - 1], states[n]);
    }
  }

  /** The entries a reader of the running database looks at. */
  ghost function Store(m: Memory): set<Entry> {
    SetOf(m.mem) + (SetOf(Entries(m.imm)) + AllEntries(m.version))
  }

  /** A running database, its compactions so far having been harmless, answers every read, at the latest sequence
      number or at a live snapshot, with the last write at or before it. */
  lemma RunServesReads(states: seq<State>, steps: seq<Step>, n: nat, user: UserKey, snapshot: SequenceNumber)
    requires Run(states, steps) && n <= |steps| && HarmlessUpTo(states, steps, n) && states[n].process.Up?
    requires snapshot == states[n].process.memory.lastSequence || snapshot in states[n].process.memory.snapshots
    ensures snapshot <= |states[n].written|
    ensures Lookup(Store(states[n].process.memory), user, snapshot) == LastWrite(states[n].written[..snapshot], user)
  {
    RunKeepsInv(states, steps, n);
    StateServesReads(states[n], user, snapshot);
  }

  lemma StateServesReads(s: State, user: UserKey, snapshot: SequenceNumber)
    requires LogsInv(s) && ClaimsHold(s) && s.process.Up?
    requires snapshot == s.process.memory.lastSequence || snapshot in s.process.memory.snapshots
    ensures snapshot <= |s.written|
    ensures Lookup(Store(s.process.memory), user, snapshot) == LastWrite(s.written[..snapshot], user)
  {
    var m := s.process.memory;
    var c := InUse(s);
    var to := c.n + |Entries(m.imm)| + |m.mem|;
    assert s.written[c.n..to] == Entries(m.imm) + m.mem by {
      assert s.written[c.n..to] == Unflushed(m)[..|Entries(m.imm)| + |m.mem|];
    }
    HoldsWithNewer(c.version, s.written, c.n, c.horizon, to);
    assert SetOf(Entries(m.imm) + m.mem) + AllEntries(m.version) == Store(m);
    assert SameRead(SetOf(s.written[..to]), Store(m), c.horizon, user, snapshot);
    LookupIsLastWrite(s.written, to, user, snapshot);
  }

  /** What readers rely on: the memtables are newer than the tables, which are all on disk. */
  lemma StateIsReadable(s: State)
    requires LogsInv(s) && ClaimsHold(s) && s.process.Up?
    ensures var m := s.process.memory;
      && Inv(m.version) && LiveTables(m.version, s.disk.tables, m.nextFile)
      && NewerSets(SetOf(m.mem), SetOf(Entries(m.imm)) + AllEntries(m.version)) &&
         NewerSets(SetOf(Entries(m.imm)), AllEntries(m.version))
      && UniqueSequences(Store(m))
  {
    var m := s.process.memory;
    var c := InUse(s);
    ImmIsNext(s, m);
    var mid := c.n + |Entries(m.imm)|;
    var to := mid + |m.mem|;
    assert s.written[mid..to] == m.mem by {
      assert s.written[mid..to] == s.written[mid..][..|m.mem|];
    }
    LaterIsNewer(s.written, c.n, mid, AllEntries(m.version));
    LaterIsNewer(s.written, c.n, mid, SetOf(s.written[..c.n]));
    LaterIsNewer(s.written, mid, to, SetOf(Entries(m.imm)) + AllEntries(m.version));
  }

  /** Every compaction's inputs of the next level end between user keys. */
  ghost predicate EveryCutBetweenUsers(states: seq<State>, steps: seq<Step>, n: nat)
    requires Run(states, steps) && n <= |steps|
  {
    forall i :: 0 <= i < n ==> CutAt(states[i], steps[i])
  }

  ghost predicate CutAt(s: State, step: Step) {
    step.BuildCompaction? && s.process.Up? ==>
      NextInputsEndBetweenUsers(s.process.memory.version, step.compaction)
  }

  lemma CutStepIsHarmless(s: State, step: Step, s': State)
    requires LogsInv(s) && ClaimsHold(s) && Next(s, step, s') && CutAt(s, step)
    ensures HarmlessStep(s, step)
  {
    if step.BuildCompaction? && s.process.Up? {
      StateIsReadable(s);
      UniqueSubset(AllEntries(s.process.memory.version), Store(s.process.memory));
      CutBetweenUsersIsHarmless(s.process.memory.version, step.compaction, step.smallest);
    }
  }

  lemma CutAtIsHarmless(states: seq<State>, steps: seq<Step>, i: nat)
    requires Run(states, steps) && i < |steps| && HarmlessUpTo(states, steps, i) && CutAt(states[i], steps[i])
    ensures HarmlessStep(states[i], steps[i])
  {
    RunKeepsInv(states, steps, i);
    assert RunStep(states, steps, i);
    CutStepIsHarmless(states[i], steps[i], states[i + 1]);
  }

  lemma OneMoreHarmless(states: seq<State>, steps: seq<Step>, n: nat)
    requires Run(states, steps) && n < |steps| && HarmlessUpTo(states, steps, n) && HarmlessStep(states[n], steps[n])
    ensures HarmlessUpTo(states, steps, n + 1)
  {
    forall i | 0 <= i < n + 1 ensures HarmlessStep(states[i], steps[i]) {
      if i == n {
        assert HarmlessStep(states[n], steps[n]);
      } else {
        assert HarmlessStep(states[i], steps[i]);
      }
    }
  }

  /** Such runs are harmless, so reads in them need no further condition. */
  lemma {:induction false} CutsAreHarmless(states: seq<State>, steps: seq<Step>, n: nat)
    requires Run(states, steps) && n <= |steps| && EveryCutBetweenUsers(states, steps, n)
    ensures HarmlessUpTo(states, steps, n)
  {
    if n > 0 {
      CutsAreHarmless(states, steps, n - 1);
      CutAtIsHarmless(states, steps, n - 1);
      OneMoreHarmless(states, steps, n - 1);
    }
  }

  lemma StepKeepsWritten(s: State, step: Step, s': State)
    requires Next(s, step, s')
    ensures s.written <= s'.written
  {
  }

  lemma {:induction false} WrittenGrows(states: seq<State>, steps: seq<Step>, i: nat, j: nat)
    requires Run(states, steps) && i <= j <= |steps|
    ensures states[i].written <= states[j].written
  {
    if i < j {
      WrittenGrows(states, steps, i, j - 1);
      assert RunStep(states, steps, j - 1);
      StepKeepsWritten(states[j - 1], steps[j - 1], states[j]);
    }
  }

  /** Whatever was acknowledged before a crash is there after the next recovery, compactions so far having been
      harmless: the recovered database has every entry ever logged in its tables, the acknowledged ones at their
      places among them. */
  lemma RestartLosesNothing(states: seq<State>, steps: seq<Step>, i: nat, j: nat)
    requires Run(states, steps) && i < j < |steps| && HarmlessUpTo(states, steps, j + 1)
    requires states[i].process.Up? && steps[j].OpenCommit?
    ensures states[j + 1].process.Up?
    ensures var before, after := states[i].process.memory, states[j + 1].process.memory;
      && before.lastSequence <= |states[i].written| && states[i].written <= states[j + 1].written
      && after.lastSequence == |states[j + 1].written|
      && forall user ::
           Lookup(AllEntries(after.version), user, after.lastSequence) == LastWrite(states[j + 1].written, user)
  {
    RunKeepsInv(states, steps, i);
    RunKeepsInv(states, steps, j + 1);
    WrittenGrows(states, steps, i, j + 1);
    assert RunStep(states, steps, j);
    var s := states[j + 1];
    var m := s.process.memory;
    assert LogsInv(states[j]) by {
      RunKeepsInv(states, steps, j);
    }
    assert s.written[..m.lastSequence] == s.written;
    assert Store(m) == AllEntries(m.version);
    forall user ensures Lookup(AllEntries(m.version), user, m.lastSequence) == LastWrite(s.written, user) {
      StateServesReads(s, user, m.lastSequence);
    }
  }
}
