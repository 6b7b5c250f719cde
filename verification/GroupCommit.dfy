/** Group commit: the queue of writers of DBImpl::Write and BuildBatchGroup (db/db_impl.cc), with the
    sequence numbers that db/write_batch.cc hands out. */
module GroupCommit {
  import opened Basics
  import opened InternalKeys

  const HEADER: nat := 12
  const MAX_GROUP_BYTES: nat := 0x10_0000
  const SMALL_WRITE_BYTES: nat := 0x2_0000

  /** One record of a batch; `bytes` is its encoded length. */
  datatype Op = Op(user: UserKey, kind: ValueType, value: Value, bytes: nat)

  type Batch = seq<Op>

  /** A call of Write in the queue. No batch asks only for a new memtable. */
  datatype Writer = Writer(id: nat, batch: Option<Batch>, sync: bool)

  function Bytes(ops: seq<Op>): nat {
    if ops == [] then 0 else Bytes(ops[..|ops| - 1]) + ops[|ops| - 1].bytes
  }

  function ByteSize(batch: Batch): nat {
    HEADER + Bytes(batch)
  }

  /** InsertInto: the operations of a batch get consecutive sequence numbers. */
  function EntriesFrom(ops: seq<Op>, first: nat): (es: seq<Entry>)
    requires first + |ops| <= MAX_SEQUENCE_NUMBER + 1
    ensures |es| == |ops|
  {
    seq(|ops|, i requires 0 <= i < |ops| => Entry(InternalKey(ops[i].user, first + i, ops[i].kind), ops[i].value))
  }

  // ---- building a group ----

  function BatchOf(w: Writer): Batch {
    if w.batch.Some? then w.batch.value else []
  }

  function SizeOf(w: Writer): nat {
    if w.batch.Some? then ByteSize(w.batch.value) else 0
  }

  /** The operations of the writers, in queue order. */
  function Ops(writers: seq<Writer>): seq<Op> {
    if writers == [] then [] else Ops(writers[..|writers| - 1]) + BatchOf(writers[|writers| - 1])
  }

  function TotalSize(writers: seq<Writer>): nat {
    if writers == [] then 0 else TotalSize(writers[..|writers| - 1]) + SizeOf(writers[|writers| - 1])
  }

  function MaxSize(first: nat): nat {
    if first <= SMALL_WRITE_BYTES then first + SMALL_WRITE_BYTES else MAX_GROUP_BYTES
  }

  /** The first `count` writers are the longest run that may share one log record. */
  ghost predicate Groups(queue: seq<Writer>, count: nat) {
    && 1 <= count <= |queue| && queue[0].batch.Some?
    && NoSyncLed(queue[0], queue[..count])
    && (TotalSize(queue[..count]) <= MaxSize(SizeOf(queue[0])) || forall i :: 0 < i < count ==> queue[i].batch.None?)
    && (count < |queue| ==>
          || (queue[count].sync && !queue[0].sync)
          || (queue[count].batch.Some? && TotalSize(queue[..count + 1]) > MaxSize(SizeOf(queue[0]))))
  }

  /** A leader that does not sync leads no writer that asked for it. */
  ghost predicate NoSyncLed(leader: Writer, writers: seq<Writer>) {
    forall w :: w in writers && w.sync ==> leader.sync
  }

  lemma OpsSnoc(queue: seq<Writer>, n: nat)
    requires n < |queue|
    ensures Ops(queue[..n + 1]) == Ops(queue[..n]) + BatchOf(queue[n])
    ensures TotalSize(queue[..n + 1]) == TotalSize(queue[..n]) + SizeOf(queue[n])
  {
    assert queue[..n + 1][..n] == queue[..n];
  }

  /** The first `count` writers fit into one record so far. */
  ghost predicate FitsSoFar(queue: seq<Writer>, count: nat, ops: seq<Op>, size: nat) {
    && 1 <= count <= |queue| && ops == Ops(queue[..count]) && size == TotalSize(queue[..count])
    && NoSyncLed(queue[0], queue[..count])
    && (size <= MaxSize(SizeOf(queue[0])) || forall i :: 0 < i < count ==> queue[i].batch.None?)
  }

  lemma FirstFits(queue: seq<Writer>)
    requires queue != [] && queue[0].batch.Some?
    ensures FitsSoFar(queue, 1, queue[0].batch.value, SizeOf(queue[0]))
  {
    OpsSnoc(queue, 0);
    assert Ops(queue[..1]) == [] + BatchOf(queue[0]);
  }

  lemma NextFits(queue: seq<Writer>, count: nat, ops: seq<Op>, size: nat)
    requires FitsSoFar(queue, count, ops, size) && count < |queue|
    requires queue[count].sync ==> queue[0].sync
    requires queue[count].batch.Some? ==> size + SizeOf(queue[count]) <= MaxSize(SizeOf(queue[0]))
    ensures FitsSoFar(queue, count + 1, ops + BatchOf(queue[count]), size + SizeOf(queue[count]))
  {
    OpsSnoc(queue, count);
    assert queue[..count + 1] == queue[..count] + [queue[count]];
  }

  /** The group ends with the queue, before a writer that asks for a sync, or before one that does not fit. */
  lemma GroupEnds(queue: seq<Writer>, count: nat, ops: seq<Op>, size: nat)
    requires FitsSoFar(queue, count, ops, size) && queue[0].batch.Some?
    requires count < |queue| ==>
      || (queue[count].sync && !queue[0].sync)
      || (queue[count].batch.Some? && size + SizeOf(queue[count]) > MaxSize(SizeOf(queue[0])))
    ensures Groups(queue, count) && ops == Ops(queue[..count])
  {
    if count < |queue| {
      OpsSnoc(queue, count);
    }
  }

  class BatchBuilder {
    /** Scratch for groups of more than one batch. */
    var tmpBatch: Batch

    constructor ()
      ensures tmpBatch == []
    {
      tmpBatch := [];
    }

    /** The longest run of writers from the front on that may share one log record. */
    method BuildBatchGroup(queue: seq<Writer>) returns (count: nat, result: Batch)
      requires queue != [] && queue[0].batch.Some? && tmpBatch == []
      modifies this
      ensures Groups(queue, count) && result == Ops(queue[..count])
      ensures tmpBatch == [] || tmpBatch == result
    {
      var first := queue[0];
      result := first.batch.value;
      var shared := false;
      var size: nat := ByteSize(first.batch.value);
      var maxSize := if size <= SMALL_WRITE_BYTES then size + SMALL_WRITE_BYTES else MAX_GROUP_BYTES;
      count := 1;
      FirstFits(queue);
      while count < |queue|
        invariant FitsSoFar(queue, count, result, size)
        invariant tmpBatch == if shared then result else []
        invariant !shared ==> result == first.batch.value
        decreases |queue| - count
      {
        var w := queue[count];
        if w.sync && !first.sync {
          break;
        }
        if w.batch.Some? {
          if size + ByteSize(w.batch.value) > maxSize {
            break;
          }
          NextFits(queue, count, result, size);
          size := size + ByteSize(w.batch.value);
          if !shared {
            shared := true;
            tmpBatch := tmpBatch + first.batch.value;
            assert tmpBatch == result;
          }
          tmpBatch := tmpBatch + w.batch.value;
          result := tmpBatch;
        } else {
          NextFits(queue, count, result, size);
          assert result + [] == result;
        }
        count := count + 1;
      }
      GroupEnds(queue, count, result, size);
    }
  }

  // ---- the writers as a state machine ----

  /** Where a writer is: in the queue; at its front making room; logging, inserting and publishing the
      group it leads; or done. */
  datatype Stage =
    | Waiting
    | MakingRoom
    | Logging(count: nat, entries: seq<Entry>)
    | Inserting(count: nat, entries: seq<Entry>, inserted: nat)
    | Failing(count: nat, entries: seq<Entry>, written: bool)
    | Done(ok: bool)

  /** A finished group: who was in it, what it wrote from which sequence number on, whether that reached
      the log and whether it was applied. */
  datatype Group = Group(writers: seq<Writer>, first: nat, entries: seq<Entry>, logged: bool, ok: bool)

  /** The queue, the stage of every writer seen so far, the log, the memtable in insertion order and the
      last sequence number; for the proofs, all writers in order of arrival and the finished groups. */
  datatype State = State(
    queue: seq<Writer>, stages: map<nat, Stage>, log: seq<seq<Entry>>, mem: seq<Entry>, lastSequence: nat,
    arrived: seq<Writer>, groups: seq<Group>)

  datatype Step =
    | Arrive(w: Writer)
    | Lead(id: nat)
    | LeaveFront(id: nat, ok: bool)
    | Build(id: nat, count: nat)
    | AppendLog(id: nat, written: bool, ok: bool)
    | InsertOne(id: nat)
    | Publish(id: nat)

  predicate Leading(stage: Stage) {
    !stage.Waiting? && !stage.Done?
  }

  /** A new call joins the back of the queue. */
  ghost predicate Arrives(s: State, w: Writer, s': State) {
    && w.id !in s.stages
    && s' == s.(queue := s.queue + [w], stages := s.stages[w.id := Waiting], arrived := s.arrived + [w])
  }

  /** A waiting writer goes on once it finds itself at the front. */
  ghost predicate Leads(s: State, id: nat, s': State) {
    && id in s.stages && s.stages[id].Waiting? && s.queue != [] && s.queue[0].id == id
    && s' == s.(stages := s.stages[id := MakingRoom])
  }

  /** Without a batch, or when no room can be made, the front writer leaves alone. */
  ghost predicate LeavesFront(s: State, id: nat, ok: bool, s': State) {
    && id in s.stages && s.stages[id].MakingRoom? && s.queue != [] && (ok ==> s.queue[0].batch.None?)
    && s' == s.(
      queue := s.queue[1..], stages := s.stages[id := Done(ok)],
      groups := s.groups + [Group([s.queue[0]], s.lastSequence + 1, [], false, ok)])
  }

  ghost predicate Builds(s: State, id: nat, count: nat, s': State) {
    && id in s.stages && s.stages[id].MakingRoom? && Groups(s.queue, count)
    && s.lastSequence + |Ops(s.queue[..count])| <= MAX_SEQUENCE_NUMBER
    && s' == s.(stages := s.stages[id := Logging(count, EntriesFrom(Ops(s.queue[..count]), s.lastSequence + 1))])
  }

  /** One record for the group. When appending or syncing fails the record may still have got there. */
  ghost predicate AppendsLog(s: State, id: nat, written: bool, ok: bool, s': State) {
    && id in s.stages && s.stages[id].Logging? && (ok ==> written)
    && var stage := s.stages[id];
    s' == s.(
      log := if written then s.log + [stage.entries] else s.log,
      stages := s.stages[id :=
        if ok then Inserting(stage.count, stage.entries, 0) else Failing(stage.count, stage.entries, written)])
  }

  /** Entries enter the memtable one at a time, without the mutex. */
  ghost predicate InsertsOne(s: State, id: nat, s': State) {
    && id in s.stages && s.stages[id].Inserting? && s.stages[id].inserted < |s.stages[id].entries|
    && var stage := s.stages[id];
    s' == s.(
      mem := s.mem + [stage.entries[stage.inserted]],
      stages := s.stages[id := stage.(inserted := stage.inserted + 1)])
  }

  function AllDone(stages: map<nat, Stage>, writers: seq<Writer>, ok: bool): map<nat, Stage> {
    map id | id in stages :: if exists w :: w in writers && w.id == id then Done(ok) else stages[id]
  }

  /** With the mutex held again: the sequence number moves past the group and the group leaves the queue. */
  ghost predicate Publishes(s: State, id: nat, s': State) {
    && id in s.stages
    && var stage := s.stages[id];
    && (stage.Failing? || (stage.Inserting? && stage.inserted == |stage.entries|))
    && stage.count <= |s.queue|
    && s' == s.(
      lastSequence := s.lastSequence + |stage.entries|,
      queue := s.queue[stage.count..],
      stages := AllDone(s.stages, s.queue[..stage.count], stage.Inserting?),
      groups := s.groups + [Group(s.queue[..stage.count], s.lastSequence + 1, stage.entries,
                                  stage.Inserting? || stage.written, stage.Inserting?)])
  }

  ghost predicate Next(s: State, step: Step, s': State) {
    match step
    case Arrive(w) => Arrives(s, w, s')
    case Lead(id) => Leads(s, id, s')
    case LeaveFront(id, ok) => LeavesFront(s, id, ok, s')
    case Build(id, count) => Builds(s, id, count, s')
    case AppendLog(id, written, ok) => AppendsLog(s, id, written, ok, s')
    case InsertOne(id) => InsertsOne(s, id, s')
    case Publish(id) => Publishes(s, id, s')
  }

  function Start(lastSequence: nat): State {
    State([], map[], [], [], lastSequence, [], [])
  }

  // ---- the invariant ----

  function WritersOf(groups: seq<Group>): seq<Writer> {
    if groups == [] then [] else WritersOf(groups[..|groups| - 1]) + groups[|groups| - 1].writers
  }

  /** What the applied groups put into the memtable. */
  function Applied(groups: seq<Group>): seq<Entry> {
    if groups == [] then []
    else
      var last := groups[|groups| - 1];
      Applied(groups[..|groups| - 1]) + if last.ok then last.entries else []
  }

  /** Groups get consecutive ranges of sequence numbers; the next one starts at the result. */
  function NextFirst(start: nat, groups: seq<Group>): nat {
    if groups == [] then start else NextFirst(start, groups[..|groups| - 1]) + |groups[|groups| - 1].entries|
  }

  /** The log records of the groups. */
  function Records(groups: seq<Group>): seq<seq<Entry>> {
    if groups == [] then []
    else
      var last := groups[|groups| - 1];
      Records(groups[..|groups| - 1]) + if last.logged then [last.entries] else []
  }

  /** The entries are the operations of the writers, numbered from `first` on. */
  ghost predicate Numbered(writers: seq<Writer>, first: nat, entries: seq<Entry>) {
    first + |Ops(writers)| <= MAX_SEQUENCE_NUMBER + 1 && entries == EntriesFrom(Ops(writers), first)
  }

  /** A group starts where those before it end, writes what its members asked for, in order, is logged if
      it is applied, and has no member whose sync its leader ignores. */
  ghost predicate GoodGroup(start: nat, groups: seq<Group>, i: int) {
    0 <= i < |groups| &&
    var g := groups[i];
    && g.writers != [] && g.first == NextFirst(start, groups[..i])
    && (g.entries != [] || g.logged ==> Numbered(g.writers, g.first, g.entries) && NoSyncLed(g.writers[0], g.writers))
    && (g.ok ==> g.entries != [] || Ops(g.writers) == [])
    && (g.ok && g.entries != [] ==> g.logged)
  }

  ghost predicate GoodGroups(start: nat, groups: seq<Group>) {
    forall i {:trigger GoodGroup(start, groups, i)} :: 0 <= i < |groups| ==> GoodGroup(start, groups, i)
  }

  ghost predicate DistinctIds(writers: seq<Writer>) {
    forall i, j :: 0 <= i < j < |writers| ==> writers[i].id != writers[j].id
  }

  function FrontStage(s: State): Stage {
    if s.queue == [] || s.queue[0].id !in s.stages then Waiting else s.stages[s.queue[0].id]
  }

  /** Only the front of the queue leads. */
  ghost predicate OnlyFrontLeads(s: State) {
    forall id :: id in s.stages && Leading(s.stages[id]) ==> s.queue != [] && s.queue[0].id == id
  }

  /** What the group in the making is: a prefix of the queue, from the next sequence number on. */
  ghost predicate InMaking(s: State, count: nat, entries: seq<Entry>) {
    && 1 <= count <= |s.queue| && NoSyncLed(s.queue[0], s.queue[..count])
    && Numbered(s.queue[..count], s.lastSequence + 1, entries)
  }

  ghost predicate StageInv(s: State, stage: Stage) {
    match stage
    case Logging(count, entries) => InMaking(s, count, entries)
    case Inserting(count, entries, inserted) => InMaking(s, count, entries) && inserted <= |entries|
    case Failing(count, entries, _) => InMaking(s, count, entries)
    case _ => true
  }

  /** The entries of the group in the making that readers may already come across. */
  function Inserted(stage: Stage): seq<Entry> {
    if stage.Inserting? && stage.inserted <= |stage.entries| then stage.entries[..stage.inserted] else []
  }

  /** The log record of the group in the making, once it is there. */
  function InLog(stage: Stage): seq<seq<Entry>> {
    if stage.Inserting? || (stage.Failing? && stage.written) then [stage.entries] else []
  }

  ghost function Ids(writers: seq<Writer>): set<nat> {
    set w | w in writers :: w.id
  }

  /** Everyone who arrived is in a finished group or still in the queue, once and in order. */
  ghost predicate QueueInv(s: State) {
    && DistinctIds(s.arrived)
    && s.stages.Keys == Ids(s.arrived)
    && (forall w :: w in s.queue ==> w.id in s.stages && !s.stages[w.id].Done?)
    && s.arrived == WritersOf(s.groups) + s.queue
  }

  ghost predicate GroupsInv(s: State, start: nat) {
    && GoodGroups(start, s.groups) && s.lastSequence + 1 == NextFirst(start, s.groups)
    && s.mem == Applied(s.groups) + Inserted(FrontStage(s))
    && s.log == Records(s.groups) + InLog(FrontStage(s))
  }

  ghost predicate StateInv(s: State, start: nat) {
    QueueInv(s) && OnlyFrontLeads(s) && StageInv(s, FrontStage(s)) && GroupsInv(s, start)
  }

  // ---- every step keeps the invariant ----

  /** A new stage for the writer at the front leaves the queue as it is. */
  lemma FrontMoves(s: State, id: nat, stage: Stage, s': State)
    requires QueueInv(s) && OnlyFrontLeads(s) && id in s.stages && s.queue != [] && s.queue[0].id == id && !stage.Done?
    requires s' == s.(stages := s.stages[id := stage], log := s'.log, mem := s'.mem)
    ensures QueueInv(s') && OnlyFrontLeads(s') && FrontStage(s') == stage
  {
    assert s'.stages.Keys == s.stages.Keys;
  }

  /** A new writer at the back leaves the front as it is. */
  lemma ArriveKeepsQueue(s: State, w: Writer, s': State)
    requires QueueInv(s) && OnlyFrontLeads(s) && Arrives(s, w, s')
    ensures QueueInv(s') && OnlyFrontLeads(s') && FrontStage(s') == FrontStage(s)
  {
    assert forall v :: v in s.arrived ==> v.id in Ids(s.arrived);
    assert s'.arrived == WritersOf(s'.groups) + s'.queue;
    assert Ids(s'.arrived) == Ids(s.arrived) + {w.id};
    forall v | v in s'.queue ensures v.id in s'.stages && !s'.stages[v.id].Done? {
      assert v in s.queue || v == w;
    }
    if s.queue != [] {
      assert s'.queue[0] == s.queue[0] && s.queue[0] in s.queue;
    }
  }

  lemma ArriveKeepsStage(s: State, w: Writer, s': State, stage: Stage)
    requires StageInv(s, stage) && s'.queue == s.queue + [w] && s'.lastSequence == s.lastSequence
    ensures StageInv(s', stage)
  {
    if stage.Logging? || stage.Inserting? || stage.Failing? {
      assert s'.queue[..stage.count] == s.queue[..stage.count];
    }
  }

  lemma ArriveKeeps(s: State, w: Writer, s': State, start: nat)
    requires StateInv(s, start) && Arrives(s, w, s')
    ensures StateInv(s', start)
  {
    ArriveKeepsQueue(s, w, s');
    ArriveKeepsStage(s, w, s', FrontStage(s));
  }

  lemma LeadKeeps(s: State, id: nat, s': State, start: nat)
    requires StateInv(s, start) && Leads(s, id, s')
    ensures StateInv(s', start)
  {
    FrontMoves(s, id, MakingRoom, s');
  }

  lemma BuildKeeps(s: State, id: nat, count: nat, s': State, start: nat)
    requires StateInv(s, start) && Builds(s, id, count, s')
    ensures StateInv(s', start)
  {
    FrontMoves(s, id, s'.stages[id], s');
  }

  lemma AppendKeepsGroups(s: State, stage: Stage, s': State, next: Stage, start: nat)
    requires GroupsInv(s, start) && StageInv(s, stage) && FrontStage(s) == stage && stage.Logging?
    requires s' == s.(log := s'.log, stages := s'.stages) && FrontStage(s') == next
    requires next == Inserting(stage.count, stage.entries, 0) ||
             (next.Failing? && next.count == stage.count && next.entries == stage.entries)
    requires s'.log == s.log + InLog(next)
    ensures GroupsInv(s', start) && StageInv(s', next)
  {
    assert stage.entries[..0] == [];
  }

  lemma AppendLogKeeps(s: State, id: nat, written: bool, ok: bool, s': State, start: nat)
    requires StateInv(s, start) && AppendsLog(s, id, written, ok, s')
    ensures StateInv(s', start)
  {
    FrontMoves(s, id, s'.stages[id], s');
    AppendKeepsGroups(s, s.stages[id], s', s'.stages[id], start);
  }

  lemma InsertOneKeeps(s: State, id: nat, s': State, start: nat)
    requires StateInv(s, start) && InsertsOne(s, id, s')
    ensures StateInv(s', start)
  {
    FrontMoves(s, id, s'.stages[id], s');
    var stage := s.stages[id];
    assert stage.entries[..stage.inserted + 1] == stage.entries[..stage.inserted] + [stage.entries[stage.inserted]];
    assert s'.mem == Applied(s.groups) + Inserted(s'.stages[id]);
  }

  /** The first `count` writers leave the queue as one group. */
  lemma GroupLeaves(s: State, count: nat, g: Group, stages: map<nat, Stage>, s': State)
    requires QueueInv(s) && OnlyFrontLeads(s) && 1 <= count <= |s.queue| && g.writers == s.queue[..count]
    requires s'.arrived == s.arrived && s'.queue == s.queue[count..] && s'.groups == s.groups + [g]
    requires s'.stages == stages
    requires stages.Keys == s.stages.Keys
    requires forall id :: id in stages ==> if id in Ids(g.writers) then stages[id].Done? else stages[id] == s.stages[id]
    ensures QueueInv(s') && OnlyFrontLeads(s') && FrontStage(s').Waiting?
  {
    WritersSnoc(s.groups, g);
    QueueSplits(WritersOf(s.groups), s.queue, count);
    FrontIsGone(s, count, g, stages);
    LaterWait(s, count, g, stages);
  }

  lemma QueueSplits(gone: seq<Writer>, queue: seq<Writer>, count: nat)
    requires count <= |queue|
    ensures gone + queue == (gone + queue[..count]) + queue[count..]
  {
  }

  lemma LaterWait(s: State, count: nat, g: Group, stages: map<nat, Stage>)
    requires QueueInv(s) && OnlyFrontLeads(s) && 1 <= count <= |s.queue| && g.writers == s.queue[..count]
    requires stages.Keys == s.stages.Keys
    requires forall id :: id in stages ==> if id in Ids(g.writers) then stages[id].Done? else stages[id] == s.stages[id]
    ensures forall w :: w in s.queue[count..] ==> w.id in stages && stages[w.id].Waiting?
  {
    FrontIsGone(s, count, g, stages);
    forall w | w in s.queue[count..] ensures w.id in stages && stages[w.id].Waiting? {
      LaterIdIsNew(s, count, w);
      assert w in s.queue;
    }
  }

  /** With the front gone nobody leads. */
  lemma FrontIsGone(s: State, count: nat, g: Group, stages: map<nat, Stage>)
    requires QueueInv(s) && OnlyFrontLeads(s) && 1 <= count <= |s.queue| && g.writers == s.queue[..count]
    requires stages.Keys == s.stages.Keys
    requires forall id :: id in stages ==> if id in Ids(g.writers) then stages[id].Done? else stages[id] == s.stages[id]
    ensures forall id :: id in stages ==> !Leading(stages[id])
  {
    assert g.writers[0] == s.queue[0] && g.writers[0] in g.writers;
    assert s.queue[0].id in Ids(g.writers);
  }

  lemma WritersSnoc(groups: seq<Group>, g: Group)
    ensures WritersOf(groups + [g]) == WritersOf(groups) + g.writers
    ensures Applied(groups + [g]) == Applied(groups) + if g.ok then g.entries else []
    ensures Records(groups + [g]) == Records(groups) + if g.logged then [g.entries] else []
    ensures forall start :: NextFirst(start, groups + [g]) == NextFirst(start, groups) + |g.entries|
  {
    assert (groups + [g])[..|groups|] == groups;
  }

  lemma LaterIdIsNew(s: State, count: nat, w: Writer)
    requires QueueInv(s) && count <= |s.queue| && w in s.queue[count..]
    ensures w.id !in Ids(s.queue[..count])
  {
    var n := |WritersOf(s.groups)|;
    var j :| 0 <= j < |s.queue| - count && s.queue[count..][j] == w;
    forall v | v in s.queue[..count] ensures v.id != w.id {
      var i :| 0 <= i < count && s.queue[..count][i] == v;
      assert s.arrived[n + i] == v && s.arrived[n + count + j] == w;
    }
  }

  lemma GroupJoins(start: nat, groups: seq<Group>, g: Group)
    requires GoodGroups(start, groups) && GoodGroup(start, groups + [g], |groups|)
    ensures GoodGroups(start, groups + [g])
  {
    var all := groups + [g];
    forall i | 0 <= i < |all| ensures GoodGroup(start, all, i) {
      if i < |groups| {
        assert GoodGroup(start, groups, i) && all[..i] == groups[..i];
      }
    }
  }

  lemma LeaveFrontKeeps(s: State, id: nat, ok: bool, s': State, start: nat)
    requires StateInv(s, start) && LeavesFront(s, id, ok, s')
    ensures StateInv(s', start)
  {
    var g := Group([s.queue[0]], s.lastSequence + 1, [], false, ok);
    assert [s.queue[0]] == s.queue[..1];
    assert s.queue[0].id == id;
    assert Ids(g.writers) == {id};
    GroupLeaves(s, 1, g, s'.stages, s');
    WritersSnoc(s.groups, g);
    assert ok ==> Ops(g.writers) == [] + BatchOf(s.queue[0]);
    assert (s.groups + [g])[..|s.groups|] == s.groups;
    GroupJoins(start, s.groups, g);
  }

  lemma PublishKeepsGroups(s: State, stage: Stage, g: Group, start: nat)
    requires GroupsInv(s, start) && s.queue != [] && FrontStage(s) == stage && StageInv(s, stage)
    requires stage.Failing? || (stage.Inserting? && stage.inserted == |stage.entries|)
    requires g == Group(s.queue[..stage.count], s.lastSequence + 1, stage.entries,
                           stage.Inserting? || stage.written, stage.Inserting?)
    ensures GoodGroups(start, s.groups + [g])
    ensures s.lastSequence + |stage.entries| + 1 == NextFirst(start, s.groups + [g])
    ensures s.mem == Applied(s.groups + [g]) && s.log == Records(s.groups + [g])
  {
    WritersSnoc(s.groups, g);
    assert g.writers[0] == s.queue[0];
    assert (s.groups + [g])[..|s.groups|] == s.groups;
    GroupJoins(start, s.groups, g);
    assert stage.Inserting? ==> Inserted(stage) == stage.entries;
  }

  lemma PublishKeeps(s: State, id: nat, s': State, start: nat)
    requires StateInv(s, start) && Publishes(s, id, s')
    ensures StateInv(s', start)
  {
    var stage := s.stages[id];
    var g := s'.groups[|s.groups|];
    assert s.queue[0].id == id && FrontStage(s) == stage;
    GroupLeaves(s, stage.count, g, s'.stages, s');
    PublishKeepsGroups(s, stage, g, start);
  }

  lemma StepKeepsInv(s: State, step: Step, s': State, start: nat)
    requires StateInv(s, start) && Next(s, step, s')
    ensures StateInv(s', start)
  {
    match step
    case Arrive(w) => ArriveKeeps(s, w, s', start);
    case Lead(id) => LeadKeeps(s, id, s', start);
    case LeaveFront(id, ok) => LeaveFrontKeeps(s, id, ok, s', start);
    case Build(id, count) => BuildKeeps(s, id, count, s', start);
    case AppendLog(id, written, ok) => AppendLogKeeps(s, id, written, ok, s', start);
    case InsertOne(id) => InsertOneKeeps(s, id, s', start);
    case Publish(id) => PublishKeeps(s, id, s', start);
  }

  // ---- whole runs ----

  ghost predicate Run(states: seq<State>, steps: seq<Step>, lastSequence: nat) {
    && |states| == |steps| + 1 && states[0] == Start(lastSequence)
    && forall i :: 0 <= i < |steps| ==> RunStep(states, steps, i)
  }

  ghost predicate RunStep(states: seq<State>, steps: seq<Step>, i: nat)
    requires i < |steps| < |states|
  {
    Next(states[i], steps[i], states[i + 1])
  }

  /** The invariant; only looked into for opened states. */
  ghost predicate Kept(s: State, start: nat) {
    forall x: State {:trigger Opened(x)} :: Opened(x) && x == s ==> StateInv(x, start)
  }

  lemma StepKeeps(s: State, step: Step, s': State, start: nat)
    requires Kept(s, start) && Next(s, step, s')
    ensures Kept(s', start)
  {
    assert Opened(s);
    StepKeepsInv(s, step, s', start);
  }

  lemma {:induction false} RunKeeps(states: seq<State>, steps: seq<Step>, lastSequence: nat, n: nat)
    requires Run(states, steps, lastSequence) && n <= |steps|
    ensures Kept(states[n], lastSequence + 1)
  {
    if n > 0 {
      RunKeeps(states, steps, lastSequence, n - 1);
      assert RunStep(states, steps, n - 1);
      StepKeeps(states[n - 1], steps[n - 1], states[n], lastSequence + 1);
    }
  }

  lemma RunKeepsInv(states: seq<State>, steps: seq<Step>, lastSequence: nat, n: nat)
    requires Run(states, steps, lastSequence) && n <= |steps|
    ensures StateInv(states[n], lastSequence + 1)
  {
    RunKeeps(states, steps, lastSequence, n);
    assert Opened(states[n]);
  }

  /** At every moment of every run: at most one writer leads, the one at the front, and the finished
      groups followed by the queue are all writers in order of arrival. */
  lemma FirstComeFirstServed(states: seq<State>, steps: seq<Step>, lastSequence: nat, n: nat)
    requires Run(states, steps, lastSequence) && n <= |steps|
    ensures var s := states[n];
      && (forall id, other ::
            id in s.stages && other in s.stages && Leading(s.stages[id]) && Leading(s.stages[other]) ==> id == other)
      && (forall id :: id in s.stages && Leading(s.stages[id]) ==> s.queue != [] && s.queue[0].id == id)
      && s.arrived == WritersOf(s.groups) + s.queue && DistinctIds(s.arrived)
  {
    RunKeepsInv(states, steps, lastSequence, n);
  }

  /** Different groups write disjoint ranges of sequence numbers, the earlier group the smaller ones. */
  lemma {:induction false} RangesFollow(start: nat, groups: seq<Group>, i: nat, j: nat)
    requires GoodGroups(start, groups) && i < j <= |groups|
    ensures groups[i].first + |groups[i].entries| <= NextFirst(start, groups[..j])
  {
    assert GoodGroup(start, groups, i);
    assert groups[..j][..j - 1] == groups[..j - 1];
    if i < j - 1 {
      RangesFollow(start, groups, i, j - 1);
    }
  }

  lemma GroupRangesAreDisjoint(states: seq<State>, steps: seq<Step>, lastSequence: nat, n: nat, i: nat, j: nat)
    requires Run(states, steps, lastSequence) && n <= |steps| && i < j < |states[n].groups|
    ensures var gi, gj := states[n].groups[i], states[n].groups[j];
      && gi.first + |gi.entries| <= gj.first
      && (gj.entries != [] ==> Numbered(gj.writers, gj.first, gj.entries) && NoSyncLed(gj.writers[0], gj.writers))
  {
    RunKeepsInv(states, steps, lastSequence, n);
    RangesFollow(lastSequence + 1, states[n].groups, i, j);
    assert GoodGroup(lastSequence + 1, states[n].groups, j);
  }

  /** A reader at the last sequence number sees exactly the entries of whole applied groups, whatever part
      of the next group is already in the memtable. */
  lemma SnapshotSeesWholeGroups(states: seq<State>, steps: seq<Step>, lastSequence: nat, n: nat, e: Entry)
    requires Run(states, steps, lastSequence) && n <= |steps|
    ensures var s := states[n]; e in s.mem && e.key.sequence <= s.lastSequence <==> e in Applied(s.groups)
  {
    RunKeepsInv(states, steps, lastSequence, n);
    var s := states[n];
    AppliedIsOld(lastSequence + 1, s.groups, |s.groups|);
    assert s.groups[..|s.groups|] == s.groups;
    var stage := FrontStage(s);
    if e in Inserted(stage) {
      var i :| 0 <= i < |Inserted(stage)| && Inserted(stage)[i] == e;
      assert stage.entries[i] == e;
    }
  }

  lemma {:induction false} AppliedIsOld(start: nat, groups: seq<Group>, n: nat)
    requires GoodGroups(start, groups) && n <= |groups|
    ensures forall e :: e in Applied(groups[..n]) ==> e.key.sequence < NextFirst(start, groups[..n])
  {
    if n > 0 {
      AppliedIsOld(start, groups, n - 1);
      assert groups[..n][..n - 1] == groups[..n - 1];
      assert GoodGroup(start, groups, n - 1);
      var g := groups[n - 1];
      forall e | e in g.entries ensures e.key.sequence < g.first + |g.entries| {
        var i :| 0 <= i < |g.entries| && g.entries[i] == e;
      }
    }
  }

  /** What is in the log and what is in the memtable: every group once, in order; nothing is applied that
      is not logged first. */
  lemma LoggedAndAppliedOnce(states: seq<State>, steps: seq<Step>, lastSequence: nat, n: nat)
    requires Run(states, steps, lastSequence) && n <= |steps|
    ensures var s := states[n];
      && s.log == Records(s.groups) + InLog(FrontStage(s))
      && s.mem == Applied(s.groups) + Inserted(FrontStage(s))
      && (Inserted(FrontStage(s)) != [] ==> InLog(FrontStage(s)) != [])
      && forall i :: 0 <= i < |s.groups| && s.groups[i].ok && s.groups[i].entries != [] ==> s.groups[i].logged
  {
    RunKeepsInv(states, steps, lastSequence, n);
    forall i | 0 <= i < |states[n].groups| && states[n].groups[i].ok && states[n].groups[i].entries != []
      ensures states[n].groups[i].logged
    {
      assert GoodGroup(lastSequence + 1, states[n].groups, i);
    }
  }
}
