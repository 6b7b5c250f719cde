/** What readers get while groups are committed (DBImpl::Write of db/db_impl.cc with WriteBatch of
    db/write_batch.cc), against a plain map: a value sets its user key and a deletion removes it, writer after
    writer in order of arrival. */
module GroupReads {
  import opened Basics
  import opened InternalKeys
  import opened GroupCommit

  // ---- the plain map ----

  function AfterOp(m: map<UserKey, Value>, op: Op): map<UserKey, Value> {
    match op.kind
    case Put => m[op.user := op.value]
    case Deletion => m - {op.user}
  }

  function AfterOps(m: map<UserKey, Value>, ops: seq<Op>): map<UserKey, Value> {
    if ops == [] then m else AfterOp(AfterOps(m, ops[..|ops| - 1]), ops[|ops| - 1])
  }

  function AfterWriters(m: map<UserKey, Value>, writers: seq<Writer>): map<UserKey, Value> {
    if writers == [] then m
    else
      var before, last := AfterWriters(m, writers[..|writers| - 1]), writers[|writers| - 1];
      if last.batch.Some? then AfterOps(before, last.batch.value) else before
  }

  /** Groups that were not applied change nothing. */
  function AfterGroups(m: map<UserKey, Value>, groups: seq<Group>): map<UserKey, Value> {
    if groups == [] then m
    else
      var before, last := AfterGroups(m, groups[..|groups| - 1]), groups[|groups| - 1];
      if last.ok then AfterWriters(before, last.writers) else before
  }

  function Get(m: map<UserKey, Value>, user: UserKey): Option<Value> {
    if user in m then Some(m[user]) else None
  }

  // ---- entries against the map ----

  function LastOf(es: seq<Entry>, user: UserKey): Option<Value> {
    if es == [] then None
    else
      var last := es[|es| - 1];
      if last.key.user == user then Outcome(last) else LastOf(es[..|es| - 1], user)
  }

  ghost predicate Agree(es: seq<Entry>, m: map<UserKey, Value>) {
    forall user :: LastOf(es, user) == Get(m, user)
  }

  lemma OneMoreAgrees(es: seq<Entry>, m: map<UserKey, Value>, e: Entry, op: Op)
    requires Agree(es, m) && e.key.user == op.user && e.key.kind == op.kind && e.value == op.value
    ensures Agree(es + [e], AfterOp(m, op))
  {
    assert (es + [e])[..|es|] == es;
    forall user ensures LastOf(es + [e], user) == Get(AfterOp(m, op), user) {
      assert LastOf(es, user) == Get(m, user);
    }
  }

  lemma {:induction false} OpsAgree(es: seq<Entry>, m: map<UserKey, Value>, ops: seq<Op>, first: nat, n: nat)
    requires Agree(es, m) && first + |ops| <= MAX_SEQUENCE_NUMBER + 1 && n <= |ops|
    ensures Agree(es + EntriesFrom(ops, first)[..n], AfterOps(m, ops[..n]))
  {
    if n == 0 {
      assert es + EntriesFrom(ops, first)[..0] == es;
    } else {
      OpsAgree(es, m, ops, first, n - 1);
      var e := EntriesFrom(ops, first)[n - 1];
      OneMoreAgrees(es + EntriesFrom(ops, first)[..n - 1], AfterOps(m, ops[..n - 1]), e, ops[n - 1]);
      assert ops[..n][..n - 1] == ops[..n - 1];
      assert es + EntriesFrom(ops, first)[..n] == es + EntriesFrom(ops, first)[..n - 1] + [e];
    }
  }

  lemma {:induction false} OpsJoin(m: map<UserKey, Value>, a: seq<Op>, b: seq<Op>)
    ensures AfterOps(m, a + b) == AfterOps(AfterOps(m, a), b)
  {
    if b == [] {
      assert a + b == a;
    } else {
      assert (a + b)[..|a + b| - 1] == a + b[..|b| - 1];
      OpsJoin(m, a, b[..|b| - 1]);
    }
  }

  lemma {:induction false} WritersAreOps(m: map<UserKey, Value>, writers: seq<Writer>)
    ensures AfterOps(m, Ops(writers)) == AfterWriters(m, writers)
  {
    if writers != [] {
      var front, last := writers[..|writers| - 1], writers[|writers| - 1];
      WritersAreOps(m, front);
      OpsJoin(m, Ops(front), BatchOf(last));
    }
  }

  lemma {:induction false} AppliedAgree(start: nat, groups: seq<Group>, n: nat)
    requires GoodGroups(start, groups) && n <= |groups|
    ensures Agree(Applied(groups[..n]), AfterGroups(map[], groups[..n]))
  {
    if n > 0 {
      AppliedAgree(start, groups, n - 1);
      var g := groups[n - 1];
      assert groups[..n][..n - 1] == groups[..n - 1];
      assert GoodGroup(start, groups, n - 1);
      var es, m := Applied(groups[..n - 1]), AfterGroups(map[], groups[..n - 1]);
      WritersAreOps(m, g.writers);
      if g.ok && g.entries != [] {
        var ops := Ops(g.writers);
        OpsAgree(es, m, ops, g.first, |ops|);
        assert EntriesFrom(ops, g.first)[..|ops|] == g.entries && ops[..|ops|] == ops;
      } else {
        assert es + [] == es;
      }
    }
  }

  // ---- reads of the memtable ----

  ghost predicate Rising(es: seq<Entry>, below: nat) {
    && (forall i, j :: 0 <= i < j < |es| ==> es[i].key.sequence < es[j].key.sequence)
    && forall i :: 0 <= i < |es| ==> es[i].key.sequence < below
  }

  lemma RisingJoin(a: seq<Entry>, b: seq<Entry>, middle: nat, below: nat)
    requires Rising(a, middle) && Rising(b, below) && middle <= below
    requires forall i :: 0 <= i < |b| ==> middle <= b[i].key.sequence
    ensures Rising(a + b, below)
  {
  }

  lemma {:induction false} AppliedRise(start: nat, groups: seq<Group>, n: nat)
    requires GoodGroups(start, groups) && n <= |groups|
    ensures Rising(Applied(groups[..n]), NextFirst(start, groups[..n]))
  {
    if n > 0 {
      AppliedRise(start, groups, n - 1);
      assert groups[..n][..n - 1] == groups[..n - 1];
      assert GoodGroup(start, groups, n - 1);
      var g := groups[n - 1];
      RisingJoin(Applied(groups[..n - 1]), if g.ok then g.entries else [], g.first, g.first + |g.entries|);
    }
  }

  /** Newer entries that the reader does not see do not matter. */
  lemma {:induction false} LookupIsLastOf(es: seq<Entry>, newer: seq<Entry>, user: UserKey, snapshot: SequenceNumber,
                                          below: nat)
    requires Rising(es + newer, below) && (forall e :: e in es ==> e.key.sequence <= snapshot)
    requires forall e :: e in newer ==> e.key.sequence > snapshot
    ensures Lookup(SetOf(es + newer), user, snapshot) == LastOf(es, user)
  {
    var all := SetOf(es + newer);
    var i := LastAt(es, user);
    if i < 0 {
      LookupNothing(all, user, snapshot);
    } else {
      assert (es + newer)[i] == es[i] && es[i] in all;
      forall e | e in all && VisibleTo(e, user, snapshot) ensures e.key.sequence <= es[i].key.sequence {
        var j :| 0 <= j < |es + newer| && (es + newer)[j] == e;
      }
      LookupIsNewest(all, user, snapshot, es[i]);
    }
  }

  lemma {:induction false} LastAt(es: seq<Entry>, user: UserKey) returns (i: int)
    ensures -1 <= i < |es|
    ensures forall j :: i < j < |es| ==> es[j].key.user != user
    ensures if i < 0 then LastOf(es, user) == None else es[i].key.user == user && LastOf(es, user) == Outcome(es[i])
  {
    if es == [] {
      i := -1;
    } else if es[|es| - 1].key.user == user {
      i := |es| - 1;
    } else {
      i := LastAt(es[..|es| - 1], user);
    }
  }

  lemma {:induction false} SequencesFit(start: nat, groups: seq<Group>, n: nat)
    requires GoodGroups(start, groups) && n <= |groups| && start <= MAX_SEQUENCE_NUMBER + 1
    ensures NextFirst(start, groups[..n]) <= MAX_SEQUENCE_NUMBER + 1
  {
    if n > 0 {
      SequencesFit(start, groups, n - 1);
      assert groups[..n][..n - 1] == groups[..n - 1];
      assert GoodGroup(start, groups, n - 1);
    }
  }

  lemma StateReads(s: State, start: nat, user: UserKey)
    requires StateInv(s, start) && start <= MAX_SEQUENCE_NUMBER + 1
    ensures s.lastSequence <= MAX_SEQUENCE_NUMBER
    ensures Lookup(SetOf(s.mem), user, s.lastSequence) == Get(AfterGroups(map[], s.groups), user)
  {
    var n := |s.groups|;
    assert s.groups[..n] == s.groups;
    SequencesFit(start, s.groups, n);
    AppliedAgree(start, s.groups, n);
    AppliedRise(start, s.groups, n);
    var newer, stage := Inserted(FrontStage(s)), FrontStage(s);
    forall i | 0 <= i < |newer| ensures newer[i].key.sequence == s.lastSequence + 1 + i {
      assert newer[i] == stage.entries[i];
    }
    RisingJoin(Applied(s.groups), newer, s.lastSequence + 1, s.lastSequence + 1 + |newer|);
    LookupIsLastOf(Applied(s.groups), newer, user, s.lastSequence, s.lastSequence + 1 + |newer|);
  }

  /** At every moment of every run, whatever part of the next group is in the memtable already: a read at the last
      sequence number is a read of the map that the applied writers leave, one after the other in order of arrival,
      each with its operations in order. */
  lemma ReadsAreAppliedWrites(states: seq<State>, steps: seq<Step>, lastSequence: nat, n: nat, user: UserKey)
    requires Run(states, steps, lastSequence) && n <= |steps| && lastSequence <= MAX_SEQUENCE_NUMBER
    ensures states[n].lastSequence <= MAX_SEQUENCE_NUMBER
    ensures Lookup(SetOf(states[n].mem), user, states[n].lastSequence)
      == Get(AfterGroups(map[], states[n].groups), user)
    ensures WritersOf(states[n].groups) <= states[n].arrived
  {
    RunKeepsInv(states, steps, lastSequence, n);
    StateReads(states[n], lastSequence + 1, user);
  }
}
