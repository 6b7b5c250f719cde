/** Replaying the logs at startup (Recover and RecoverLogFile of db/db_impl.cc): whatever the memtable
    limit, the tables it gives hold what the logs hold, in order. */
module LogReplay {
  import opened InternalKeys
  import opened Durability
  import opened Flattening

  lemma JoinedSnoc(records: seq<Record>, n: nat)
    requires n < |records|
    ensures Joined(records[..n + 1]) == Joined(records[..n]) + records[n]
  {
    assert records[..n + 1][..n] == records[..n];
  }

  /** Numbers without a log add nothing. */
  lemma {:induction false} TailGap(logs: map<nat, seq<Record>>, from: nat, a: nat, b: nat)
    requires a <= b && forall n :: a <= n < b && from <= n ==> n !in logs
    ensures Tail(logs, from, b) == Tail(logs, from, a)
  {
    if a < b {
      TailGap(logs, from, a, b - 1);
    }
  }

  lemma {:induction false} MaxSequenceJoin(a: seq<Entry>, b: seq<Entry>, least: SequenceNumber)
    ensures MaxSequence(a + b, least) == MaxSequence(b, MaxSequence(a, least))
  {
    if b == [] {
      assert a + b == a;
    } else {
      assert (a + b)[..|a + b| - 1] == a + b[..|b| - 1];
      MaxSequenceJoin(a, b[..|b| - 1], least);
    }
  }

  /** An empty memtable gives no table. */
  function Flushed(chunks: seq<Record>, mem: seq<Entry>): (r: seq<Record>)
    ensures Joined(r) == Joined(chunks) + mem
  {
    JoinedAppend(chunks, mem);
    if mem == [] then chunks else chunks + [mem]
  }

  /** The memtable is not full after any of these records. */
  ghost predicate NeverFull(run: seq<Record>, usage: seq<Entry> -> nat, limit: nat) {
    forall m :: 0 < m <= |run| ==> usage(Joined(run[..m])) <= limit
  }

  /** It is full after the last of them, and not before. */
  ghost predicate JustFull(run: seq<Record>, usage: seq<Entry> -> nat, limit: nat) {
    run != [] && NeverFull(run[..|run| - 1], usage, limit) && usage(Joined(run)) > limit
  }

  lemma OneMoreRecord(run: seq<Record>, record: Record, usage: seq<Entry> -> nat, limit: nat)
    requires NeverFull(run, usage, limit)
    ensures Joined(run + [record]) == Joined(run) + record
    ensures if usage(Joined(run) + record) > limit then JustFull(run + [record], usage, limit)
            else NeverFull(run + [record], usage, limit)
  {
    JoinedAppend(run, record);
    var more := run + [record];
    assert more[..|run|] == run;
    if usage(Joined(more)) <= limit {
      forall m | 0 < m <= |more| ensures usage(Joined(more[..m])) <= limit {
        assert more[..m] == if m == |more| then more else run[..m];
      }
    }
  }

  /** The tables for these runs of records, behind those that were there. */
  function TablesOf(chunks: seq<Record>, runs: seq<seq<Record>>): seq<Record> {
    if runs == [] then chunks
    else Flushed(TablesOf(chunks, runs[..|runs| - 1]), Joined(runs[|runs| - 1]))
  }

  /** The first records, in runs that each fill a memtable, and the rest, which does not. */
  ghost predicate Divides(records: seq<Record>, usage: seq<Entry> -> nat, limit: nat, runs: seq<seq<Record>>,
                          rest: seq<Record>) {
    && Flatten(runs) + rest == records && NeverFull(rest, usage, limit)
    && forall run :: run in runs ==> JustFull(run, usage, limit)
  }

  /** The tables are those of the runs that fill a memtable each, and one for the rest. */
  ghost predicate TablesWhenFull(records: seq<Record>, usage: seq<Entry> -> nat, limit: nat, chunks: seq<Record>,
                                 tables: seq<Record>) {
    exists runs, rest :: Divides(records, usage, limit, runs, rest) && tables == TablesOf(chunks, runs + [rest])
  }

  lemma NextRecord(records: seq<Record>, i: nat, usage: seq<Entry> -> nat, limit: nat, runs: seq<seq<Record>>,
                   rest: seq<Record>)
    requires i < |records| && Divides(records[..i], usage, limit, runs, rest)
    ensures Joined(rest + [records[i]]) == Joined(rest) + records[i]
    ensures if usage(Joined(rest) + records[i]) > limit
            then Divides(records[..i + 1], usage, limit, runs + [rest + [records[i]]], [])
            else Divides(records[..i + 1], usage, limit, runs, rest + [records[i]])
  {
    var more := rest + [records[i]];
    OneMoreRecord(rest, records[i], usage, limit);
    assert Flatten(runs) + more == records[..i + 1];
    assert Flatten(runs + [more]) + [] == Flatten(runs) + more by {
      assert (runs + [more])[..|runs|] == runs;
    }
  }

  lemma OneMoreTable(chunks: seq<Record>, runs: seq<seq<Record>>, run: seq<Record>)
    ensures TablesOf(chunks, runs + [run]) == Flushed(TablesOf(chunks, runs), Joined(run))
  {
    assert (runs + [run])[..|runs|] == runs;
  }

  lemma {:induction false} JoinedJoin(a: seq<Record>, b: seq<Record>)
    ensures Joined(a + b) == Joined(a) + Joined(b)
  {
    if b == [] {
      assert a + b == a;
    } else {
      assert (a + b)[..|a + b| - 1] == a + b[..|b| - 1];
      JoinedJoin(a, b[..|b| - 1]);
      assert Joined(a) + (Joined(b[..|b| - 1]) + b[|b| - 1]) == (Joined(a) + Joined(b[..|b| - 1])) + b[|b| - 1];
    }
  }

  /** Nothing is lost between the tables. */
  lemma {:induction false} TablesHoldRuns(chunks: seq<Record>, runs: seq<seq<Record>>)
    ensures Joined(TablesOf(chunks, runs)) == Joined(chunks) + Joined(Flatten(runs))
  {
    if runs == [] {
      assert Joined(chunks) + [] == Joined(chunks);
    } else {
      var front, run := runs[..|runs| - 1], runs[|runs| - 1];
      TablesHoldRuns(chunks, front);
      JoinedJoin(Flatten(front), run);
      JoinsOn(Joined(chunks), Joined(Flatten(front)), Joined(run));
    }
  }

  lemma JoinsOn(a: seq<Entry>, b: seq<Entry>, c: seq<Entry>)
    ensures a + (b + c) == (a + b) + c
  {
  }

  lemma {:induction false} NoTableIsEmpty(chunks: seq<Record>, runs: seq<seq<Record>>)
    requires forall c :: c in chunks ==> c != []
    ensures forall c :: c in TablesOf(chunks, runs) ==> c != []
  {
    if runs != [] {
      NoTableIsEmpty(chunks, runs[..|runs| - 1]);
    }
  }

  lemma DividedIsWhole(records: seq<Record>, usage: seq<Entry> -> nat, limit: nat, chunks: seq<Record>,
                       runs: seq<seq<Record>>, rest: seq<Record>)
    requires Divides(records, usage, limit, runs, rest) && forall c :: c in chunks ==> c != []
    ensures var tables := TablesOf(chunks, runs + [rest]);
      && TablesWhenFull(records, usage, limit, chunks, tables)
      && Joined(tables) == Joined(chunks) + Joined(records) && forall c :: c in tables ==> c != []
  {
    TablesHoldRuns(chunks, runs + [rest]);
    NoTableIsEmpty(chunks, runs + [rest]);
    assert (runs + [rest])[..|runs|] == runs;
  }

  /** One log file: its records go to a memtable that is made a table whenever it is full, and at the end. */
  method RecoverLogFile(records: seq<Record>, usage: seq<Entry> -> nat, writeBufferSize: nat, chunks: seq<Record>,
                        maxSequence: SequenceNumber)
    returns (newChunks: seq<Record>, newMax: SequenceNumber)
    requires forall c :: c in chunks ==> c != []
    ensures Joined(newChunks) == Joined(chunks) + Joined(records)
    ensures forall c :: c in newChunks ==> c != []
    ensures newMax == MaxSequence(Joined(records), maxSequence)
    ensures TablesWhenFull(records, usage, writeBufferSize, chunks, newChunks)
  {
    newChunks, newMax := chunks, maxSequence;
    var mem: seq<Entry> := [];
    ghost var runs: seq<seq<Record>>, rest: seq<Record> := [], [];
    for i := 0 to |records|
      invariant newMax == MaxSequence(Joined(records[..i]), maxSequence)
      invariant Divides(records[..i], usage, writeBufferSize, runs, rest)
      invariant newChunks == TablesOf(chunks, runs) && mem == Joined(rest)
    {
      JoinedSnoc(records, i);
      MaxSequenceJoin(Joined(records[..i]), records[i], maxSequence);
      NextRecord(records, i, usage, writeBufferSize, runs, rest);
      OneMoreTable(chunks, runs, rest + [records[i]]);
      mem, rest := mem + records[i], rest + [records[i]];
      newMax := MaxSequence(records[i], newMax);
      if usage(mem) > writeBufferSize {
        newChunks := Flushed(newChunks, mem);
        mem := [];
        runs, rest := runs + [rest], [];
      }
    }
    assert records[..|records|] == records;
    OneMoreTable(chunks, runs, rest);
    DividedIsWhole(records, usage, writeBufferSize, chunks, runs, rest);
    newChunks := Flushed(newChunks, mem);
  }

  /** The tables for the logs from one number up to another. */
  ghost predicate Replayed(logs: map<nat, seq<Record>>, from: nat, next: nat, chunks: seq<Record>,
                           least: SequenceNumber, maxSequence: SequenceNumber) {
    && from <= next && Joined(chunks) == Tail(logs, from, next) && maxSequence == MaxSequence(Joined(chunks), least)
    && forall c :: c in chunks ==> c != []
  }

  /** The numbers from position i on are those of the logs not yet replayed. */
  ghost predicate LogsLeft(logs: map<nat, seq<Record>>, numbers: seq<nat>, i: nat, from: nat, next: nat) {
    && i <= |numbers| && (forall j :: i <= j < |numbers| ==> next <= numbers[j])
    && forall n :: n in logs && from <= n ==> n < next || n in numbers[i..]
  }

  lemma OneLogLess(logs: map<nat, seq<Record>>, numbers: seq<nat>, i: nat, from: nat, next: nat)
    requires forall i, j :: 0 <= i < j < |numbers| ==> numbers[i] < numbers[j]
    requires LogsLeft(logs, numbers, i, from, next) && i < |numbers|
    ensures next <= numbers[i] && forall k :: next <= k < numbers[i] && from <= k ==> k !in logs
    ensures LogsLeft(logs, numbers, i + 1, from, numbers[i] + 1)
  {
    assert numbers[i..] == [numbers[i]] + numbers[i + 1..];
    var left := numbers[i + 1..];
    forall k | k in left ensures numbers[i] < k {
    }
  }

  lemma NextLog(logs: map<nat, seq<Record>>, from: nat, next: nat, n: nat, chunks: seq<Record>, least: SequenceNumber,
                maxSequence: SequenceNumber)
    requires Replayed(logs, from, next, chunks, least, maxSequence) && next <= n && n in logs
    requires forall k :: next <= k < n && from <= k ==> k !in logs
    ensures Tail(logs, from, n + 1) == Joined(chunks) + Joined(logs[n])
    ensures MaxSequence(Joined(logs[n]), maxSequence) == MaxSequence(Joined(chunks) + Joined(logs[n]), least)
  {
    TailGap(logs, from, next, n);
    MaxSequenceJoin(Joined(chunks), Joined(logs[n]), least);
  }

  lemma NoLogLeft(logs: map<nat, seq<Record>>, numbers: seq<nat>, from: nat, next: nat, chunks: seq<Record>,
                  least: SequenceNumber, maxSequence: SequenceNumber)
    requires Replayed(logs, from, next, chunks, least, maxSequence) && LogsLeft(logs, numbers, |numbers|, from, next)
    ensures forall to: nat :: (forall n :: n in logs ==> n < to) ==> Joined(chunks) == Tail(logs, from, to)
  {
    forall to: nat | forall n :: n in logs ==> n < to ensures Joined(chunks) == Tail(logs, from, to) {
      if next <= to {
        TailGap(logs, from, next, to);
      } else {
        TailGap(logs, from, to, next);
      }
    }
  }

  lemma AllLogsLeft(logs: map<nat, seq<Record>>, numbers: seq<nat>, from: nat)
    requires forall n :: n in numbers <==> n in logs && from <= n
    ensures LogsLeft(logs, numbers, 0, from, from)
  {
    forall j | 0 <= j < |numbers| ensures from <= numbers[j] {
      assert numbers[j] in numbers;
    }
  }

  /** One more log, the next one that is there. */
  method RecoverNextLog(logs: map<nat, seq<Record>>, n: nat, usage: seq<Entry> -> nat, writeBufferSize: nat,
                        chunks: seq<Record>, maxSequence: SequenceNumber, ghost from: nat, ghost next: nat,
                        ghost least: SequenceNumber)
    returns (newChunks: seq<Record>, newMax: SequenceNumber)
    requires Replayed(logs, from, next, chunks, least, maxSequence) && next <= n && n in logs
    requires forall k :: next <= k < n && from <= k ==> k !in logs
    ensures Replayed(logs, from, n + 1, newChunks, least, newMax)
  {
    NextLog(logs, from, next, n, chunks, least, maxSequence);
    newChunks, newMax := RecoverLogFile(logs[n], usage, writeBufferSize, chunks, maxSequence);
  }

  /** All logs from `from` on, in the order of their numbers. */
  method RecoverLogs(logs: map<nat, seq<Record>>, numbers: seq<nat>, from: nat, usage: seq<Entry> -> nat,
                     writeBufferSize: nat, lastSequence: SequenceNumber)
    returns (chunks: seq<Record>, maxSequence: SequenceNumber)
    requires forall i, j :: 0 <= i < j < |numbers| ==> numbers[i] < numbers[j]
    requires forall n :: n in numbers <==> n in logs && from <= n
    ensures forall to: nat :: (forall n :: n in logs ==> n < to) ==> Joined(chunks) == Tail(logs, from, to)
    ensures forall c :: c in chunks ==> c != []
    ensures maxSequence == MaxSequence(Joined(chunks), lastSequence)
  {
    chunks, maxSequence := [], lastSequence;
    ghost var next: nat := from;
    AllLogsLeft(logs, numbers, from);
    for i := 0 to |numbers|
      invariant Replayed(logs, from, next, chunks, lastSequence, maxSequence)
      invariant LogsLeft(logs, numbers, i, from, next)
    {
      var n := numbers[i];
      assert n in numbers;
      OneLogLess(logs, numbers, i, from, next);
      chunks, maxSequence := RecoverNextLog(logs, n, usage, writeBufferSize, chunks, maxSequence, from, next,
        lastSequence);
      next := n + 1;
    }
    NoLogLeft(logs, numbers, from, next, chunks, lastSequence, maxSequence);
  }
}
