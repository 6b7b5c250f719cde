/** Where a compaction cuts its output into tables (ShouldStopBefore of db/version_set.cc and DoCompactionWork of
    db/db_impl.cc): before an input entry at which the current table would overlap too many bytes two levels down,
    and after an entry with which it is large enough. */
module OutputCuts {
  import opened InternalKeys
  import opened Versions
  import opened Picking

  /** What the cuts depend on: the input, the files two levels down with the limit on overlap, and the table
      builder's size estimate with the limit on size. */
  datatype CutRule = CutRule(input: seq<Entry>, grandparents: seq<FileMetaData>, maxOverlap: nat,
                             sizeOf: seq<Entry> -> nat, maxSize: nat)

  // ---- overlap two levels down ----

  /** The first file from `index` on that does not end before the key. */
  function Passed(files: seq<FileMetaData>, index: nat, key: InternalKey): (r: nat)
    requires index <= |files|
    ensures index <= r <= |files|
    decreases |files| - index
  {
    if index < |files| && Less(files[index].largest, key) then Passed(files, index + 1, key) else index
  }

  lemma {:induction false} PassedIs(files: seq<FileMetaData>, index: nat, key: InternalKey, r: nat)
    requires index <= r <= |files|
    requires forall g :: index <= g < r ==> Less(files[g].largest, key)
    requires r < |files| ==> !Less(files[r].largest, key)
    ensures Passed(files, index, key) == r
    decreases |files| - index
  {
    if index < r {
      PassedIs(files, index + 1, key, r);
    }
  }

  /** The files passed and the bytes counted, before the decision on an entry. */
  datatype Watch = Watch(index: nat, overlapped: nat)

  function WatchBefore(r: CutRule, m: nat): (w: Watch)
    requires m <= |r.input|
    ensures w.index <= |r.grandparents|
    decreases m, 0
  {
    if m == 0 then Watch(0, 0)
    else
      Watch(Passed(r.grandparents, WatchBefore(r, m - 1).index, r.input[m - 1].key),
            if StopsAt(r, m - 1) then 0 else OverlapAt(r, m - 1))
  }

  /** The bytes that the table being built, without entry m, is taken to overlap: those of the files passed since
      the last stop, not counting the ones before the first entry. */
  function OverlapAt(r: CutRule, m: nat): nat
    requires m < |r.input|
    decreases m, 1
  {
    var w := WatchBefore(r, m);
    w.overlapped +
      if m == 0 then 0 else TotalFileSize(r.grandparents[w.index..Passed(r.grandparents, w.index, r.input[m].key)])
  }

  predicate StopsAt(r: CutRule, m: nat)
    requires m < |r.input|
    decreases m, 2
  {
    OverlapAt(r, m) > r.maxOverlap
  }

  /** What is known after looking at entry m. */
  lemma WatchGoesOn(r: CutRule, m: nat, index: nat, overlapped: nat, stop: bool)
    requires m < |r.input| && WatchBefore(r, m).index <= index <= |r.grandparents|
    requires forall g :: WatchBefore(r, m).index <= g < index ==> Less(r.grandparents[g].largest, r.input[m].key)
    requires index < |r.grandparents| ==> !Less(r.grandparents[index].largest, r.input[m].key)
    requires var w := WatchBefore(r, m);
      var overlap := w.overlapped + if m > 0 then TotalFileSize(r.grandparents[w.index..index]) else 0;
      stop == (overlap > r.maxOverlap) && overlapped == if stop then 0 else overlap
    ensures stop == StopsAt(r, m) && WatchBefore(r, m + 1) == Watch(index, overlapped)
  {
    PassedIs(r.grandparents, WatchBefore(r, m).index, r.input[m].key, index);
  }

  /** Without files two levels down the loop is never asked to stop. */
  lemma {:induction false} NoGrandparentsNoStop(r: CutRule, m: nat)
    requires r.grandparents == [] && m < |r.input|
    ensures WatchBefore(r, m) == Watch(0, 0) && !StopsAt(r, m)
  {
    if m > 0 {
      NoGrandparentsNoStop(r, m - 1);
    }
  }

  // ---- cuts ----

  /** One of the first n entries at which to stop lies after one key and not after the other. */
  ghost predicate StopsBetween(r: CutRule, n: nat, before: InternalKey, after: InternalKey)
    requires n <= |r.input|
  {
    exists m :: 0 <= m < n && StopsAt(r, m) && Less(before, r.input[m].key) && !Less(after, r.input[m].key)
  }

  ghost predicate SmallUntilLast(r: CutRule, es: seq<Entry>) {
    forall k :: 0 < k < |es| ==> r.sizeOf(es[..k]) < r.maxSize
  }

  predicate Full(r: CutRule, es: seq<Entry>) {
    r.sizeOf(es) >= r.maxSize
  }

  /** No table goes on past a stop or past its size, and each but the last ends at one. */
  ghost predicate CutsExactly(r: CutRule, outputs: seq<FileMetaData>) {
    WholeTables(r, |r.input|, outputs) && CausedCuts(r, |r.input|, outputs)
  }

  ghost predicate WholeTables(r: CutRule, n: nat, outputs: seq<FileMetaData>)
    requires n <= |r.input|
  {
    forall t :: t in outputs ==> !StopsBetween(r, n, t.smallest, t.largest) && SmallUntilLast(r, t.entries)
  }

  ghost predicate CausedCuts(r: CutRule, n: nat, outputs: seq<FileMetaData>)
    requires n <= |r.input|
  {
    forall i :: 0 <= i < |outputs| - 1 ==>
      Full(r, outputs[i].entries) || StopsBetween(r, n, outputs[i].largest, outputs[i + 1].smallest)
  }

  /** The table is full, or a stop comes after it. */
  ghost predicate Ended(r: CutRule, n: nat, t: FileMetaData)
    requires n <= |r.input|
  {
    Full(r, t.entries) || exists m :: 0 <= m < n && StopsAt(r, m) && Less(t.largest, r.input[m].key)
  }

  /** The cuts after n entries, with a table being built. */
  ghost predicate Cutting(r: CutRule, n: nat, outputs: seq<FileMetaData>, building: seq<Entry>)
    requires n <= |r.input|
  {
    && WholeTables(r, n, outputs) && CausedCuts(r, n, outputs)
    && (forall t, j :: t in outputs && n <= j < |r.input| ==> Less(t.largest, r.input[j].key))
    && (forall e, j :: e in building && n <= j < |r.input| ==> Less(e.key, r.input[j].key))
    && (outputs != [] ==> Ended(r, n, outputs[|outputs| - 1]))
    && (building != [] ==> OpenTable(r, n, outputs, building))
  }

  ghost predicate OpenTable(r: CutRule, n: nat, outputs: seq<FileMetaData>, building: seq<Entry>)
    requires n <= |r.input| && building != []
  {
    && SmallUntilLast(r, building) && !Full(r, building)
    && (forall m :: 0 <= m < n && StopsAt(r, m) ==> !Less(building[0].key, r.input[m].key))
    && (outputs != [] ==>
         Full(r, outputs[|outputs| - 1].entries) ||
         StopsBetween(r, n, outputs[|outputs| - 1].largest, building[0].key))
  }

  // ---- the loop keeps them ----

  ghost predicate IsTable(t: FileMetaData, es: seq<Entry>) {
    es != [] && t.entries == es && t.smallest == es[0].key && t.largest == es[|es| - 1].key
  }

  lemma KeysAscend(input: seq<Entry>, i: nat, j: nat)
    requires SortedKeys(input) && i <= j < |input|
    ensures !Less(input[j].key, input[i].key)
  {
    if i < j {
      assert Less(input[i].key, input[j].key);
    }
  }

  /** A stop at entry n concerns only what is still being built. */
  lemma WholeAtNext(r: CutRule, n: nat, outputs: seq<FileMetaData>)
    requires n < |r.input| && WholeTables(r, n, outputs) && CausedCuts(r, n, outputs)
    requires forall t :: t in outputs ==> Less(t.largest, r.input[n].key)
    ensures WholeTables(r, n + 1, outputs) && CausedCuts(r, n + 1, outputs)
  {
    forall t | t in outputs ensures !StopsBetween(r, n + 1, t.smallest, t.largest) {
      assert !StopsBetween(r, n, t.smallest, t.largest);
    }
    forall i | 0 <= i < |outputs| - 1 && !Full(r, outputs[i].entries)
      ensures StopsBetween(r, n + 1, outputs[i].largest, outputs[i + 1].smallest)
    {
      assert StopsBetween(r, n, outputs[i].largest, outputs[i + 1].smallest);
    }
  }

  lemma OneMoreTable(r: CutRule, n: nat, outputs: seq<FileMetaData>, t: FileMetaData)
    requires n <= |r.input| && WholeTables(r, n, outputs) && CausedCuts(r, n, outputs)
    requires !StopsBetween(r, n, t.smallest, t.largest) && SmallUntilLast(r, t.entries)
    requires outputs != [] ==>
      Full(r, outputs[|outputs| - 1].entries) || StopsBetween(r, n, outputs[|outputs| - 1].largest, t.smallest)
    ensures WholeTables(r, n, outputs + [t]) && CausedCuts(r, n, outputs + [t])
  {
    var all := outputs + [t];
    forall i | 0 <= i < |all| - 1
      ensures Full(r, all[i].entries) || StopsBetween(r, n, all[i].largest, all[i + 1].smallest)
    {
      assert all[i] == outputs[i];
      if i < |outputs| - 1 {
        assert all[i + 1] == outputs[i + 1];
      }
    }
  }

  lemma NothingCut(r: CutRule)
    ensures Cutting(r, 0, [], [])
  {
  }

  lemma Skipped(r: CutRule, n: nat, outputs: seq<FileMetaData>, building: seq<Entry>)
    requires n < |r.input| && SortedKeys(r.input) && Cutting(r, n, outputs, building)
    requires StopsAt(r, n) ==> building == []
    ensures Cutting(r, n + 1, outputs, building)
  {
    WholeAtNext(r, n, outputs);
    if building != [] && outputs != [] && !Full(r, outputs[|outputs| - 1].entries) {
      assert StopsBetween(r, n, outputs[|outputs| - 1].largest, building[0].key);
    }
  }

  lemma Stopped(r: CutRule, n: nat, outputs: seq<FileMetaData>, building: seq<Entry>, t: FileMetaData)
    requires n < |r.input| && SortedKeys(r.input) && Cutting(r, n, outputs, building)
    requires StopsAt(r, n) && IsTable(t, building)
    ensures Cutting(r, n + 1, outputs + [t], [])
  {
    WholeAtNext(r, n, outputs);
    assert building[|building| - 1] in building;
    if outputs != [] && !Full(r, outputs[|outputs| - 1].entries) {
      assert StopsBetween(r, n, outputs[|outputs| - 1].largest, building[0].key);
    }
    OneMoreTable(r, n + 1, outputs, t);
  }

  /** The first entry of a table comes after the stop that has ended the table before. */
  lemma FirstEntry(r: CutRule, n: nat, outputs: seq<FileMetaData>, e: Entry)
    requires 0 < n <= |r.input| && SortedKeys(r.input) && e == r.input[n - 1]
    requires outputs != [] ==> Ended(r, n, outputs[|outputs| - 1])
    ensures forall m :: 0 <= m < n ==> !Less(e.key, r.input[m].key)
    ensures outputs != [] ==>
      Full(r, outputs[|outputs| - 1].entries) || StopsBetween(r, n, outputs[|outputs| - 1].largest, e.key)
  {
    forall m | 0 <= m < n ensures !Less(e.key, r.input[m].key) {
      KeysAscend(r.input, m, n - 1);
    }
  }

  lemma MoreEntries(r: CutRule, n: nat, outputs: seq<FileMetaData>, building: seq<Entry>, e: Entry)
    requires 0 < n <= |r.input| && SortedKeys(r.input) && e == r.input[n - 1] && Cutting(r, n, outputs, building)
    ensures SmallUntilLast(r, building + [e])
    ensures forall m :: 0 <= m < n && StopsAt(r, m) ==> !Less((building + [e])[0].key, r.input[m].key)
    ensures outputs != [] ==>
      || Full(r, outputs[|outputs| - 1].entries)
      || StopsBetween(r, n, outputs[|outputs| - 1].largest, (building + [e])[0].key)
    ensures forall j :: n <= j < |r.input| ==> Less(e.key, r.input[j].key)
  {
    FirstEntry(r, n, outputs, e);
    var es := building + [e];
    forall k | 0 < k < |es| ensures r.sizeOf(es[..k]) < r.maxSize {
      assert es[..k] == building[..k];
      assert building[..|building|] == building;
    }
  }

  lemma Added(r: CutRule, n: nat, outputs: seq<FileMetaData>, building: seq<Entry>, e: Entry)
    requires 0 < n <= |r.input| && SortedKeys(r.input) && e == r.input[n - 1] && Cutting(r, n, outputs, building)
    requires !Full(r, building + [e])
    ensures Cutting(r, n, outputs, building + [e])
  {
    MoreEntries(r, n, outputs, building, e);
  }

  lemma Filled(r: CutRule, n: nat, outputs: seq<FileMetaData>, building: seq<Entry>, e: Entry, t: FileMetaData)
    requires 0 < n <= |r.input| && SortedKeys(r.input) && e == r.input[n - 1] && Cutting(r, n, outputs, building)
    requires Full(r, building + [e]) && IsTable(t, building + [e])
    ensures Cutting(r, n, outputs + [t], [])
  {
    MoreEntries(r, n, outputs, building, e);
    OneMoreTable(r, n, outputs, t);
  }

  /** The table being built when the input ends. */
  lemma Finished(r: CutRule, outputs: seq<FileMetaData>, building: seq<Entry>, t: FileMetaData)
    requires Cutting(r, |r.input|, outputs, building) && IsTable(t, building)
    ensures CutsExactly(r, outputs + [t])
  {
    OneMoreTable(r, |r.input|, outputs, t);
  }
}
