/** Table blocks: what the builder writes (table/block_builder.cc). Entries share a prefix with the key before
    them except at restart points, and the offsets of the restart points end the block. */
module BlockFormat {
  import opened Basics
  import opened Coding


  datatype Pair = Pair(key: Key, value: seq<Byte>)

  type Order = (Key, Key) -> bool

  ghost predicate StrictOrder(less: Order) {
    && (forall a, b :: less(a, b) ==> !less(b, a))
    && (forall a, b, c :: less(a, b) && less(b, c) ==> less(a, c))
  }

  ghost predicate Ascending(less: Order, es: seq<Pair>) {
    forall i, j :: 0 <= i < j < |es| ==> less(es[i].key, es[j].key)
  }

  function CommonPrefix(a: Key, b: Key): (n: nat)
    ensures n <= |a| && n <= |b| && a[..n] == b[..n]
    ensures n < |a| && n < |b| ==> a[n] != b[n]
  {
    if a == [] || b == [] || a[0] != b[0] then 0
    else
      var n := 1 + CommonPrefix(a[1..], b[1..]);
      assert a[..n] == [a[0]] + a[1..][..n - 1] && b[..n] == [b[0]] + b[1..][..n - 1];
      n
  }

  /** The entries of a block, and which of them are restart points. */
  datatype Layout = Layout(entries: seq<Pair>, starts: seq<nat>)

  ghost predicate Increasing(ns: seq<nat>) {
    forall q, r :: 0 <= q < r < |ns| ==> ns[q] < ns[r]
  }

  lemma IncreasingAppend(ns: seq<nat>, n: nat)
    requires Increasing(ns) && ns != [] && ns[|ns| - 1] < n
    ensures Increasing(ns + [n])
  {
  }

  ghost predicate WellLaid(l: Layout) {
    && l.starts != [] && l.starts[0] == 0 && Increasing(l.starts)
    && (l.starts[|l.starts| - 1] < |l.entries| || l.starts == [0])
  }

  lemma StartInside(l: Layout, r: nat)
    requires WellLaid(l) && r < |l.starts|
    ensures l.starts[r] <= |l.entries| && (l.entries != [] ==> l.starts[r] < |l.entries|)
  {
    if r < |l.starts| - 1 {
      assert l.starts[r] < l.starts[|l.starts| - 1];
    }
  }

  function Shared(l: Layout, i: nat): (n: nat)
    requires i < |l.entries|
    ensures n <= |l.entries[i].key|
  {
    if i in l.starts || i == 0 then 0 else CommonPrefix(l.entries[i - 1].key, l.entries[i].key)
  }

  lemma SharedWithLast(l: Layout, i: nat)
    requires 0 < i < |l.entries|
    ensures Shared(l, i) <= |l.entries[i - 1].key|
    ensures l.entries[i - 1].key[..Shared(l, i)] == l.entries[i].key[..Shared(l, i)]
  {
  }

  function EntryBytes(shared: nat, e: Pair): (bytes: seq<Byte>)
    requires shared <= |e.key|
  {
    Varint(shared) + (Varint(|e.key| - shared) + (Varint(|e.value|) + (e.key[shared..] + e.value)))
  }

  /** The bytes of the first i entries. */
  function Data(l: Layout, i: nat): (bytes: seq<Byte>)
    requires i <= |l.entries|
  {
    if i == 0 then [] else Data(l, i - 1) + EntryBytes(Shared(l, i - 1), l.entries[i - 1])
  }

  function WholeData(l: Layout): seq<Byte> {
    Data(l, |l.entries|)
  }

  function Offset(l: Layout, i: nat): nat
    requires i <= |l.entries|
  {
    |Data(l, i)|
  }

  lemma {:induction false} DataIsPrefix(l: Layout, i: nat, j: nat)
    requires i <= j <= |l.entries|
    ensures Data(l, i) <= Data(l, j)
    ensures i < j ==> Offset(l, i) + 3 <= Offset(l, j)
  {
    if i < j {
      DataIsPrefix(l, i, j - 1);
    }
  }

  lemma SharedKeeps(l: Layout, more: Layout, i: nat)
    requires i < |l.entries| < |more.entries| && more.entries[..|l.entries|] == l.entries
    requires more.starts == l.starts || more.starts == l.starts + [|l.entries|]
    ensures more.entries[i] == l.entries[i] && Shared(more, i) == Shared(l, i)
  {
    assert more.entries[i] == l.entries[i];
    if i > 0 {
      assert more.entries[i - 1] == l.entries[i - 1];
    }
    assert i in more.starts <==> i in l.starts;
  }

  /** Adding an entry, at a restart point or not, leaves the bytes of the ones before it. */
  lemma {:induction false} DataKeeps(l: Layout, more: Layout, i: nat)
    requires i <= |l.entries| < |more.entries| && more.entries[..|l.entries|] == l.entries
    requires more.starts == l.starts || more.starts == l.starts + [|l.entries|]
    ensures Data(more, i) == Data(l, i)
  {
    if i > 0 {
      DataKeeps(l, more, i - 1);
      SharedKeeps(l, more, i - 1);
    }
  }

  /** Positions fit in 32 bits. */
  ghost predicate Small32(l: Layout) {
    Offset(l, |l.entries|) < 0x1_0000_0000 && |l.starts| < 0x1_0000_0000
  }

  lemma OffsetsFit(l: Layout, i: nat)
    requires Small32(l) && i <= |l.entries|
    ensures Offset(l, i) < 0x1_0000_0000
  {
    DataIsPrefix(l, i, |l.entries|);
  }

  ghost function Restarts(l: Layout): (ns: seq<Word>)
    requires WellLaid(l) && Small32(l)
    ensures |ns| == |l.starts|
  {
    forall r | 0 <= r < |l.starts| ensures l.starts[r] <= |l.entries| && Offset(l, l.starts[r]) < 0x1_0000_0000 {
      StartInside(l, r);
      OffsetsFit(l, l.starts[r]);
    }
    seq(|l.starts|, r requires 0 <= r < |l.starts| => Offset(l, l.starts[r]))
  }

  lemma RestartAt(l: Layout, r: nat)
    requires WellLaid(l) && Small32(l) && r < |l.starts|
    ensures l.starts[r] <= |l.entries| && Restarts(l)[r] == Offset(l, l.starts[r])
  {
    StartInside(l, r);
  }

  ghost function BlockBytes(l: Layout): seq<Byte>
    requires WellLaid(l) && Small32(l)
  {
    WholeData(l) + Fixed32s(Restarts(l)) + Fixed32(|l.starts|)
  }

  /** Data, restart array and its length. */
  ghost function BlockSize(l: Layout): nat {
    |WholeData(l)| + 4 * |l.starts| + 4
  }

  // ---- the builder ----

  datatype Fields = Fields(layout: Layout, restarts: seq<nat>, counter: nat, lastKey: Key)

  /** How the fields of a builder stand for a layout. */
  ghost predicate Builds(interval: nat, f: Fields) {
    && interval >= 1 && WellLaid(f.layout) && EveryInterval(interval, f.layout.starts)
    && AreOffsets(f.layout, f.restarts)
    && f.lastKey == (if f.layout.entries == [] then [] else f.layout.entries[|f.layout.entries| - 1].key)
    && |f.layout.entries| == f.layout.starts[|f.layout.starts| - 1] + f.counter && f.counter <= interval
  }

  /** The fields of a builder that nothing was added to. */
  const EMPTY: Fields := Fields(Layout([], [0]), [0], 0, [])

  /** The same, only looked into for opened fields. */
  ghost predicate Building(interval: nat, f: Fields) {
    forall x: Fields {:trigger Opened(x)} :: Opened(x) && x == f ==> Builds(interval, x)
  }

  ghost predicate AreOffsets(l: Layout, restarts: seq<nat>) {
    && |restarts| == |l.starts|
    && (forall r :: 0 <= r < |restarts| ==> l.starts[r] <= |l.entries| && restarts[r] == Offset(l, l.starts[r]))
  }

  ghost predicate EveryInterval(interval: nat, starts: seq<nat>) {
    forall q, r :: 0 <= q < r < |starts| && r == q + 1 ==> starts[r] == starts[q] + interval
  }

  lemma IntervalAppend(interval: nat, starts: seq<nat>)
    requires EveryInterval(interval, starts) && starts != []
    ensures EveryInterval(interval, starts + [starts[|starts| - 1] + interval])
  {
  }

  lemma {:induction false} IsCommonPrefix(a: Key, b: Key, n: nat)
    requires n <= |a| && n <= |b| && a[..n] == b[..n] && (n == |a| || n == |b| || a[n] != b[n])
    ensures CommonPrefix(a, b) == n
  {
    var m := CommonPrefix(a, b);
    SameUpTo(a, b, n);
    SameUpTo(a, b, m);
  }

  lemma SameUpTo(a: Key, b: Key, n: nat)
    requires n <= |a| && n <= |b| && a[..n] == b[..n]
    ensures forall k :: 0 <= k < n ==> a[k] == b[k]
  {
    assert forall k :: 0 <= k < n ==> a[..n][k] == a[k] && b[..n][k] == b[k];
  }

  /** The layout with one more entry, at a restart point once the interval is full. */
  ghost function Extended(l: Layout, e: Pair, restart: bool): Layout {
    Layout(l.entries + [e], if restart then l.starts + [|l.entries|] else l.starts)
  }

  ghost function Next(interval: nat, f: Fields, e: Pair): Fields {
    var restart := f.counter == interval;
    Fields(Extended(f.layout, e, restart),
           if restart then f.restarts + [Offset(f.layout, |f.layout.entries|)] else f.restarts,
           if restart then 1 else f.counter + 1, e.key)
  }

  lemma ExtendedLaid(interval: nat, f: Fields, e: Pair)
    requires Builds(interval, f)
    ensures WellLaid(Next(interval, f, e).layout) && EveryInterval(interval, Next(interval, f, e).layout.starts)
  {
    if f.counter == interval {
      IncreasingAppend(f.layout.starts, |f.layout.entries|);
      IntervalAppend(interval, f.layout.starts);
    }
  }

  lemma ExtendedOffsets(l: Layout, restarts: seq<nat>, e: Pair, restart: bool)
    requires WellLaid(l) && AreOffsets(l, restarts)
    ensures AreOffsets(Extended(l, e, restart), if restart then restarts + [Offset(l, |l.entries|)] else restarts)
  {
    var more := Extended(l, e, restart);
    OffsetsKeep(l, more);
    forall r | 0 <= r < |l.starts| ensures restarts[r] == Offset(more, more.starts[r]) {
      assert more.starts[r] == l.starts[r];
    }
  }

  lemma NextBuilds(interval: nat, f: Fields, e: Pair)
    requires Builds(interval, f)
    ensures Building(interval, Next(interval, f, e))
  {
    ExtendedLaid(interval, f, e);
    ExtendedOffsets(f.layout, f.restarts, e, f.counter == interval);
  }

  lemma OffsetsKeep(l: Layout, more: Layout)
    requires |l.entries| < |more.entries| && more.entries[..|l.entries|] == l.entries
    requires more.starts == l.starts || more.starts == l.starts + [|l.entries|]
    ensures forall i :: 0 <= i <= |l.entries| ==> Offset(more, i) == Offset(l, i)
  {
    forall i | 0 <= i <= |l.entries| ensures Data(more, i) == Data(l, i) {
      DataKeeps(l, more, i);
    }
  }

  lemma SharedOfNew(l: Layout, e: Pair, restart: bool)
    requires WellLaid(l)
    ensures Shared(Extended(l, e, restart), |l.entries|)
      == if restart || l.entries == [] then 0 else CommonPrefix(l.entries[|l.entries| - 1].key, e.key)
  {
    var n := |l.entries|;
    if !restart && n > 0 && n in l.starts {
      var r :| 0 <= r < |l.starts| && l.starts[r] == n;
      StartInside(l, r);
    }
  }

  lemma NextData(interval: nat, f: Fields, e: Pair)
    requires Builds(interval, f)
    ensures var shared := if f.counter == interval then 0 else CommonPrefix(f.lastKey, e.key);
      WholeData(Next(interval, f, e).layout) == WholeData(f.layout) + EntryBytes(shared, e)
  {
    var more := Next(interval, f, e).layout;
    DataKeeps(f.layout, more, |f.layout.entries|);
    SharedOfNew(f.layout, e, f.counter == interval);
  }

  lemma EntryLength(shared: nat, e: Pair)
    requires shared <= |e.key| < 0x1_0000_0000 && |e.value| < 0x1_0000_0000
    ensures |EntryBytes(shared, e)| <= 15 + |e.key| + |e.value|
  {
    WordPowers();
    VarintLength(shared, 5);
    VarintLength(|e.key| - shared, 5);
    VarintLength(|e.value|, 5);
  }

  lemma NextSize(interval: nat, f: Fields, e: Pair)
    requires Building(interval, f) && |e.key| < 0x1_0000_0000 && |e.value| < 0x1_0000_0000
    ensures BlockSize(Next(interval, f, e).layout) <= BlockSize(f.layout) + |e.key| + |e.value| + 19
  {
    NextEntry(interval, f, e);
    EntryLength(if f.counter < interval then CommonPrefix(f.lastKey, e.key) else 0, e);
  }

  lemma NextEntry(interval: nat, f: Fields, e: Pair)
    requires Building(interval, f)
    ensures Building(interval, Next(interval, f, e)) && f.counter <= interval
    ensures var shared := if f.counter < interval then CommonPrefix(f.lastKey, e.key) else 0;
      WholeData(Next(interval, f, e).layout) == WholeData(f.layout) + EntryBytes(shared, e)
  {
    assert Opened(f) && Builds(interval, f);
    NextBuilds(interval, f, e);
    NextData(interval, f, e);
  }

  lemma FieldsOfEntries(interval: nat, f: Fields)
    requires Building(interval, f)
    ensures WholeData(f.layout) == [] <==> f.layout.entries == []
    ensures |f.restarts| == |f.layout.starts|
    ensures f.layout.entries != [] ==> f.lastKey == f.layout.entries[|f.layout.entries| - 1].key
  {
    assert Opened(f) && Builds(interval, f);
    DataIsPrefix(f.layout, 0, |f.layout.entries|);
  }

  class BlockBuilder {
    const restartInterval: nat
    const less: Order
    var buffer: seq<Byte>
    var restarts: seq<nat>
    var counter: nat
    var finished: bool
    var lastKey: Key
    ghost var layout: Layout

    ghost function State(): Fields
      reads this
    {
      Fields(layout, restarts, counter, lastKey)
    }

    ghost predicate Valid()
      reads this
    {
      && Building(restartInterval, State())
      && (!finished ==> buffer == WholeData(layout))
    }

    constructor (restartInterval: nat, less: Order)
      requires restartInterval >= 1
      ensures Valid() && !finished && State() == EMPTY
      ensures this.restartInterval == restartInterval && this.less == less
    {
      this.restartInterval, this.less := restartInterval, less;
      buffer, restarts, counter, finished, lastKey := [], [0], 0, false, [];
      layout := Layout([], [0]);
    }

    method Reset()
      requires Valid()
      modifies this
      ensures Valid() && !finished && State() == EMPTY
    {
      assert Opened(State()) && Builds(restartInterval, State());
      buffer, restarts, counter, finished, lastKey := [], [0], 0, false, [];
      layout := Layout([], [0]);
    }

    predicate Empty()
      reads this
    {
      buffer == []
    }

    lemma EmptyHasNoEntries()
      requires Valid() && !finished
      ensures Empty() <==> layout.entries == []
      ensures CurrentSizeEstimate() == BlockSize(layout)
      ensures layout.entries != [] ==> lastKey == layout.entries[|layout.entries| - 1].key
    {
      FieldsOfEntries(restartInterval, State());
    }

    function CurrentSizeEstimate(): (n: nat)
      reads this
    {
      |buffer| + 4 * |restarts| + 4
    }

    method Add(key: Key, value: seq<Byte>)
      requires Valid() && !finished && |key| < 0x1_0000_0000 && |value| < 0x1_0000_0000
      requires layout.entries == [] || less(lastKey, key)
      modifies this
      ensures Valid() && !finished
      ensures State() == Next(restartInterval, old(State()), Pair(key, value))
    {
      ghost var next := Next(restartInterval, State(), Pair(key, value));
      NextEntry(restartInterval, State(), Pair(key, value));
      var shared := 0;
      if counter < restartInterval {
        shared := SharedLength(lastKey, key);
      } else {
        restarts := restarts + [|buffer|];
        counter := 0;
      }
      buffer := AppendEntry(buffer, shared, key, value);
      lastKey := Spliced(lastKey, shared, key);
      counter := counter + 1;
      layout := next.layout;
      assert State() == next;
    }

    method Finish() returns (block: seq<Byte>)
      requires Valid() && !finished && Small32(layout)
      modifies this
      ensures Valid() && finished && layout == old(layout)
      ensures WellLaid(layout) && block == BlockBytes(layout) && |block| == old(CurrentSizeEstimate())
    {
      assert Opened(State()) && Builds(restartInterval, State());
      OffsetsAreRestarts(layout, restarts);
      buffer := PutFixed32s(buffer, restarts);
      buffer := buffer + Fixed32(|restarts|);
      finished := true;
      return buffer;
    }
  }

  lemma OffsetsAreRestarts(l: Layout, restarts: seq<nat>)
    requires WellLaid(l) && Small32(l) && AreOffsets(l, restarts)
    ensures restarts == Restarts(l)
  {
    forall r | 0 <= r < |restarts| ensures restarts[r] == Restarts(l)[r] {
      RestartAt(l, r);
    }
  }

  /** How much of the key is shared with the one before it. */
  method SharedLength(lastKey: Key, key: Key) returns (shared: nat)
    ensures shared == CommonPrefix(lastKey, key)
  {
    var minLength := if |lastKey| < |key| then |lastKey| else |key|;
    shared := 0;
    while shared < minLength && lastKey[shared] == key[shared]
      invariant shared <= minLength && lastKey[..shared] == key[..shared]
    {
      shared := shared + 1;
    }
    IsCommonPrefix(lastKey, key, shared);
  }

  /** The last key cut back to the shared part, and the rest of the new key behind it. */
  method Spliced(lastKey: Key, shared: nat, key: Key) returns (r: Key)
    requires shared <= CommonPrefix(lastKey, key)
    ensures r == key
  {
    SameUpTo(lastKey, key, CommonPrefix(lastKey, key));
    r := lastKey[..shared] + key[shared..];
  }

  method AppendEntry(buffer: seq<Byte>, shared: nat, key: Key, value: seq<Byte>) returns (r: seq<Byte>)
    requires shared <= |key| < 0x1_0000_0000 && |value| < 0x1_0000_0000
    ensures r == buffer + EntryBytes(shared, Pair(key, value))
  {
    var nonShared := |key| - shared;
    r := PutVarint32(buffer, shared);
    r := PutVarint32(r, nonShared);
    r := PutVarint32(r, |value|);
    r := r + key[shared..] + value;
    Appended(buffer, Varint(shared), Varint(nonShared), Varint(|value|), key[shared..], value);
  }

  lemma Appended(buffer: seq<Byte>, a: seq<Byte>, b: seq<Byte>, c: seq<Byte>, d: seq<Byte>, e: seq<Byte>)
    ensures buffer + a + b + c + d + e == buffer + (a + (b + (c + (d + e))))
  {
    Associate(buffer + a + b + c, d, e);
    Associate(buffer + a + b, c, d + e);
    Associate(buffer + a, b, c + (d + e));
    Associate(buffer, a, b + (c + (d + e)));
  }
}
