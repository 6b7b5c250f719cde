/** Reading a table through its index: the two-level iterator (table/two_level_iterator.cc) over the blocks of a
    file (table/table.cc). */
module Tables {
  import opened Basics
  import opened Checksums
  import opened Flattening
  import opened BlockFormat
  import opened Coding
  import opened BlockReader
  import opened BlockIterators
  import opened TableFormat

  /** A file, and what is in its index block and its data blocks. */
  datatype Table = Table(file: seq<Byte>, verify: bool, crc: Checksum, index: Layout, blocks: seq<Layout>)

  ghost function Parts(t: Table): (parts: seq<seq<Pair>>)
    ensures |parts| == |t.blocks| && forall b :: 0 <= b < |parts| ==> parts[b] == t.blocks[b].entries
  {
    seq(|t.blocks|, b requires 0 <= b < |t.blocks| => t.blocks[b].entries)
  }

  /** What a table holds, in order. */
  ghost function Entries(t: Table): seq<Pair> {
    Flatten(Parts(t))
  }

  function ContentsAt(file: seq<Byte>, verify: bool, crc: Checksum, handle: seq<Byte>): Option<seq<Byte>> {
    match ParseHandle(handle)
    case Malformed => None
    case Parsed(h, _) => BlockAt(file, verify, crc, h.0, h.1)
  }

  ghost predicate BlockHeld(t: Table, b: nat)
    requires b < |t.blocks| == |t.index.entries|
  {
    match ContentsAt(t.file, t.verify, t.crc, t.index.entries[b].value)
    case None => false
    case Some(contents) => IsBlock(contents, t.blocks[b])
  }

  /** Every entry of the index leads to its block, and to no other. */
  ghost predicate Held(t: Table) {
    && |t.index.entries| == |t.blocks|
    && (forall b :: 0 <= b < |t.blocks| ==> BlockHeld(t, b))
    && (forall a, b :: 0 <= a < |t.blocks| && 0 <= b < |t.blocks| ==>
        (t.index.entries[a].value == t.index.entries[b].value ==> t.blocks[a] == t.blocks[b]))
  }

  /** The same, only looked into for opened tables. */
  ghost predicate IsTable(t: Table) {
    |t.index.entries| == |t.blocks| && forall x: Table {:trigger Opened(x)} :: Opened(x) && x == t ==> Held(x)
  }

  lemma HeldAt(t: Table, b: nat)
    requires IsTable(t) && b < |t.blocks|
    ensures BlockHeld(t, b)
  {
    assert Opened(t) && Held(t);
  }

  lemma SameBlock(t: Table, a: nat, b: nat)
    requires IsTable(t) && a < |t.blocks| && b < |t.blocks| && t.index.entries[a].value == t.index.entries[b].value
    ensures t.blocks[a] == t.blocks[b]
  {
    assert Opened(t) && Held(t);
  }

  // ---- separators ----

  predicate NotAfter(less: Order, a: Key, b: Key) {
    a == b || less(a, b)
  }

  /** An index key is not before any key of its block, and before every key of the blocks behind it. */
  ghost predicate Separated(less: Order, index: seq<Pair>, parts: seq<seq<Pair>>) {
    && |index| == |parts| && Ascending(less, index)
    && (forall b :: 0 <= b < |parts| ==> Ascending(less, parts[b]))
    && (forall b, i :: 0 <= b < |parts| && 0 <= i < |parts[b]| ==> NotAfter(less, parts[b][i].key, index[b].key))
    && (forall b, c, i :: 0 <= b < c < |parts| && 0 <= i < |parts[c]| ==> less(index[b].key, parts[c][i].key))
  }

  ghost predicate SeekIn(less: Order, parts: seq<seq<Pair>>, target: Key, b: nat, j: nat) {
    && b <= |parts|
    && if b < |parts| then IsSeekPos(less, parts[b], target, j) else j == 0
  }

  /** Seeking in the index and then in the block is seeking in the whole table. */
  lemma TwoLevelSeek(less: Order, index: seq<Pair>, parts: seq<seq<Pair>>, target: Key, b: nat, j: nat)
    requires StrictOrder(less) && Separated(less, index, parts)
    requires IsSeekPos(less, index, target, b) && SeekIn(less, parts, target, b, j)
    ensures IsSeekPos(less, Flatten(parts), target, StartOf(parts, b) + j)
  {
    var es, g := Flatten(parts), StartOf(parts, b) + j;
    PartsRise(parts, b, |parts|);
    if b < |parts| {
      NextStart(parts, b);
    }
    forall m | 0 <= m < |es| ensures less(es[m].key, target) <==> m < g {
      var c, i := Locate(parts, m);
      if c < b {
        NextStart(parts, c);
        PartsRise(parts, c + 1, b);
        assert less(index[c].key, target) && NotAfter(less, parts[c][i].key, index[c].key);
      } else if c > b {
        NextStart(parts, b);
        PartsRise(parts, b + 1, c);
        assert !less(index[b].key, target) && less(index[b].key, parts[c][i].key);
      }
    }
  }

  // ---- the iterator ----

  /** The handle is that of a block with the layout. */
  ghost predicate LeadsTo(t: Table, handle: seq<Byte>, l: Layout) {
    |t.index.entries| == |t.blocks| &&
    exists b :: 0 <= b < |t.blocks| && t.index.entries[b].value == handle && t.blocks[b] == l
  }

  lemma LeadsToBlock(t: Table, handle: seq<Byte>, l: Layout, b: nat)
    requires IsTable(t) && LeadsTo(t, handle, l) && b < |t.blocks| && t.index.entries[b].value == handle
    ensures l == t.blocks[b]
  {
    var a :| 0 <= a < |t.blocks| && t.index.entries[a].value == handle && t.blocks[a] == l;
    SameBlock(t, a, b);
  }

  /** Block::NewIterator. */
  method NewIterator(contents: seq<Byte>, less: Order, ghost l: Layout) returns (iter: BlockIter)
    requires IsBlock(contents, l)
    ensures fresh(iter) && iter.layout == l && iter.less == less && iter.At(|l.entries|)
  {
    var parts := OpenBlock(contents, l);
    iter := new BlockIter(contents, parts.value.0, parts.value.1, less, l);
  }

  /** Table::BlockReader. */
  method ReadDataBlock(file: seq<Byte>, verify: bool, crc: Checksum, less: Order, handle: seq<Byte>, ghost t: Table,
                       ghost b: nat)
    returns (iter: BlockIter)
    requires IsTable(t) && b < |t.blocks| && handle == t.index.entries[b].value
    requires file == t.file && verify == t.verify && crc == t.crc
    ensures fresh(iter) && iter.layout == t.blocks[b] && iter.less == less && iter.At(|t.blocks[b].entries|)
  {
    HeldAt(t, b);
    var h := DecodeHandle(handle);
    var contents := ReadBlock(file, verify, crc, h.value.0, h.value.1);
    iter := NewIterator(contents.value, less, t.blocks[b]);
  }

  class TwoLevelIterator {
    const file: seq<Byte>
    const verify: bool
    const crc: Checksum
    const less: Order
    const indexIter: BlockIter
    var dataIter: BlockIter?
    var dataBlockHandle: seq<Byte>
    ghost const t: Table
    /** Where the two iterators stand. */
    ghost var block: nat
    ghost var pos: nat

    ghost predicate OfTable() {
      && IsTable(t) && file == t.file && verify == t.verify && crc == t.crc
      && indexIter.layout == t.index && indexIter.less == less
    }

    ghost predicate Usable()
      reads this, indexIter, dataIter
    {
      && OfTable() && indexIter.OfBlock() && !indexIter.corrupt
      && (dataIter != null ==>
            && dataIter != indexIter && dataIter.less == less && dataIter.OfBlock() && !dataIter.corrupt
            && LeadsTo(t, dataBlockHandle, dataIter.layout))
    }

    /** At the g-th entry of the table, or past the last one. */
    ghost predicate At(g: nat)
      reads this, indexIter, dataIter
    {
      && Usable() && indexIter.At(block) && block <= |t.blocks|
      && (if block < |t.blocks| then
            && dataIter != null && dataIter.layout == t.blocks[block] && dataIter.At(pos)
            && pos < |t.blocks[block].entries| && g == StartOf(Parts(t), block) + pos
          else dataIter == null && g == |Entries(t)|)
    }

    predicate Valid()
      reads this, dataIter
    {
      dataIter != null && dataIter.Valid()
    }

    /** What the iterator shows is the entry of the table it stands at. */
    lemma Shows(g: nat)
      requires At(g)
      ensures g <= |Entries(t)| && (Valid() <==> g < |Entries(t)|)
      ensures Valid() ==>
        && dataIter.valueStart <= dataIter.valueEnd <= |dataIter.contents|
        && Pair(dataIter.key, dataIter.Value()) == Entries(t)[g]
    {
      if block < |t.blocks| {
        dataIter.Shows(pos);
        ElementAt(Parts(t), block, pos);
      }
    }

    constructor (file: seq<Byte>, verify: bool, crc: Checksum, less: Order, indexContents: seq<Byte>, ghost t: Table)
      requires IsTable(t) && file == t.file && verify == t.verify && crc == t.crc && IsBlock(indexContents, t.index)
      ensures Usable() && fresh(indexIter) && dataIter == null && this.t == t && this.less == less
    {
      this.file, this.verify, this.crc, this.less, this.t := file, verify, crc, less, t;
      var iter := NewIterator(indexContents, less, t.index);
      indexIter := iter;
      dataIter, dataBlockHandle, block, pos := null, [], 0, 0;
    }

    /** Opens the block that the index iterator stands at, unless it is open already. */
    method InitDataBlock(ghost b: nat)
      requires Usable() && indexIter.At(b)
      modifies this`dataIter, this`dataBlockHandle
      ensures Usable() && indexIter.At(b) && (dataIter == null <==> b == |t.blocks|)
      ensures dataIter != null ==> dataIter.layout == t.blocks[b] && (dataIter == old(dataIter) || fresh(dataIter))
    {
      indexIter.Shows(b);
      if !indexIter.Valid() {
        dataIter := null;
      } else {
        var handle := indexIter.Value();
        if dataIter != null && handle == dataBlockHandle {
          LeadsToBlock(t, handle, dataIter.layout, b);
        } else {
          var iter := ReadDataBlock(file, verify, crc, less, handle, t, b);
          dataBlockHandle := handle;
          dataIter := iter;
        }
      }
    }

    /** The index iterator stands at block b, and the data iterator at its i-th entry or past its last one. */
    ghost predicate Between(b: nat, i: nat)
      reads this, indexIter, dataIter
    {
      && Usable() && indexIter.At(b) && b <= |t.blocks|
      && (if b < |t.blocks| then
            && dataIter != null && dataIter.layout == t.blocks[b] && dataIter.At(i) && i <= |t.blocks[b].entries|
          else dataIter == null && i == 0)
    }

    ghost method Settle(b: nat, i: nat)
      requires Between(b, i) && (b < |t.blocks| ==> i < |t.blocks[b].entries|)
      modifies this`block, this`pos
      ensures At(StartOf(Parts(t), b) + i)
    {
      block, pos := b, i;
      NothingBehind(Parts(t));
    }

    method OpenAtFirst(ghost b: nat)
      requires Usable() && indexIter.At(b) && b <= |t.blocks|
      modifies this`dataIter, this`dataBlockHandle, dataIter
      ensures Between(b, 0)
      ensures dataIter != null ==> dataIter == old(dataIter) || fresh(dataIter)
    {
      InitDataBlock(b);
      if dataIter != null {
        dataIter.SeekToFirst();
      }
    }

    method OpenAtLast(ghost b: nat)
      requires Usable() && indexIter.At(b) && b <= |t.blocks|
      modifies this`dataIter, this`dataBlockHandle, dataIter
      ensures Between(b, LastOf(Parts(t), b))
      ensures dataIter != null ==> dataIter == old(dataIter) || fresh(dataIter)
    {
      InitDataBlock(b);
      if dataIter != null {
        dataIter.SeekToLast();
      }
    }

    /** From past the last entry of block b to the first one of the next block, if there is a block. */
    method NextBlock(ghost b: nat, ghost i: nat) returns (more: bool)
      requires Between(b, i) && (b < |t.blocks| ==> i == |t.blocks[b].entries|)
      modifies this`dataIter, this`dataBlockHandle, indexIter, dataIter
      ensures more == (b < |t.blocks|)
      ensures if more then Between(b + 1, 0) else Between(b, i)
      ensures dataIter != null ==> dataIter == old(dataIter) || fresh(dataIter)
    {
      indexIter.Shows(b);
      more := indexIter.Valid();
      if !more {
        dataIter := null;
        return;
      }
      indexIter.Next(b);
      OpenAtFirst(b + 1);
    }

    /** On to the next block for as long as there is no entry to stand at. */
    method SkipEmptyDataBlocksForward(ghost b: nat, ghost i: nat)
      requires Between(b, i)
      modifies this, indexIter, dataIter
      ensures At(StartOf(Parts(t), b) + i)
      ensures dataIter != null ==> dataIter == old(dataIter) || fresh(dataIter)
    {
      ghost var k: nat, j: nat := b, i;
      ShowsBlock(k, j);
      while dataIter == null || !dataIter.Valid()
        invariant Between(k, j) && SamePlace(Parts(t), b, i, k, j)
        invariant dataIter != null ==> dataIter == old(dataIter) || fresh(dataIter)
        invariant dataIter != null && dataIter.Valid() <==> k < |t.blocks| && j < |t.blocks[k].entries|
        decreases |t.blocks| - k
      {
        var more := NextBlock(k, j);
        if !more {
          break;
        }
        NextPlace(Parts(t), b, i, k, j);
        k, j := k + 1, 0;
        ShowsBlock(k, j);
      }
      Settle(k, j);
    }

    /** From a block without an entry to stand at to the last entry of the block before it, if there is one. */
    method PrevBlock(ghost b: nat, ghost i: nat) returns (more: bool)
      requires Between(b, i) && (b < |t.blocks| ==> i == |t.blocks[b].entries|)
      modifies this`dataIter, this`dataBlockHandle, indexIter, dataIter
      ensures more == (b < |t.blocks|)
      ensures if more then Between(BlockBefore(Parts(t), b), LastOf(Parts(t), BlockBefore(Parts(t), b)))
        else Between(b, i)
      ensures dataIter != null ==> dataIter == old(dataIter) || fresh(dataIter)
    {
      indexIter.Shows(b);
      more := indexIter.Valid();
      if !more {
        dataIter := null;
        return;
      }
      indexIter.Prev(b);
      OpenAtLast(BlockBefore(Parts(t), b));
    }

    method SkipEmptyDataBlocksBackward(ghost b: nat, ghost i: nat, ghost g: nat)
      requires Between(b, i) && LeadsBack(Parts(t), b, i, g)
      modifies this, indexIter, dataIter
      ensures At(g)
      ensures dataIter != null ==> dataIter == old(dataIter) || fresh(dataIter)
    {
      ghost var k: nat, j: nat := b, i;
      ShowsBlock(k, j);
      while dataIter == null || !dataIter.Valid()
        invariant Between(k, j) && LeadsBack(Parts(t), k, j, g)
        invariant dataIter != null ==> dataIter == old(dataIter) || fresh(dataIter)
        invariant dataIter != null && dataIter.Valid() <==> k < |t.blocks| && j < |t.blocks[k].entries|
        decreases if k == |t.blocks| then 0 else k + 1
      {
        var more := PrevBlock(k, j);
        if !more {
          break;
        }
        OneBlockBack(Parts(t), k, j, g);
        k := BlockBefore(Parts(t), k);
        j := LastOf(Parts(t), k);
        ShowsBlock(k, j);
      }
      Settle(k, j);
    }

    lemma ShowsBlock(b: nat, i: nat)
      requires Between(b, i)
      ensures dataIter != null && dataIter.Valid() <==> b < |t.blocks| && i < |t.blocks[b].entries|
    {
      if dataIter != null {
        dataIter.Shows(i);
      }
    }

    method SeekToFirst()
      requires Usable()
      modifies this, indexIter, dataIter
      ensures At(0)
      ensures dataIter != null ==> dataIter == old(dataIter) || fresh(dataIter)
    {
      indexIter.SeekToFirst();
      OpenAtFirst(0);
      SkipEmptyDataBlocksForward(0, 0);
    }

    method SeekToLast()
      requires Usable()
      modifies this, indexIter, dataIter
      ensures At(if Entries(t) == [] then 0 else |Entries(t)| - 1)
      ensures dataIter != null ==> dataIter == old(dataIter) || fresh(dataIter)
    {
      ghost var last: nat := if |t.blocks| == 0 then 0 else |t.blocks| - 1;
      indexIter.SeekToLast();
      OpenAtLast(last);
      LastLeadsBack(Parts(t));
      SkipEmptyDataBlocksBackward(last, LastOf(Parts(t), last), if Entries(t) == [] then 0 else |Entries(t)| - 1);
    }

    method Next(ghost g: nat)
      requires At(g) && g < |Entries(t)|
      modifies this, indexIter, dataIter
      ensures At(g + 1)
      ensures dataIter != null ==> dataIter == old(dataIter) || fresh(dataIter)
    {
      ghost var b, i := block, pos;
      dataIter.Next(i);
      SkipEmptyDataBlocksForward(b, i + 1);
    }

    method Prev(ghost g: nat)
      requires At(g) && g < |Entries(t)|
      modifies this, indexIter, dataIter
      ensures At(if g == 0 then |Entries(t)| else g - 1)
      ensures dataIter != null ==> dataIter == old(dataIter) || fresh(dataIter)
    {
      ghost var b, i := block, pos;
      dataIter.Prev(i);
      SkipEmptyDataBlocksBackward(b, if i == 0 then |t.blocks[b].entries| else i - 1,
                                  if g == 0 then |Entries(t)| else g - 1);
    }

    /** Lands on the first entry of the table with a key that is not before the target. */
    method Seek(target: Key) returns (ghost g: nat)
      requires Usable() && StrictOrder(less) && Separated(less, t.index.entries, Parts(t))
      modifies this, indexIter, dataIter
      ensures At(g) && IsSeekPos(less, Entries(t), target, g)
      ensures dataIter != null ==> dataIter == old(dataIter) || fresh(dataIter)
    {
      ghost var b := indexIter.Seek(target);
      InitDataBlock(b);
      ghost var i: nat := 0;
      if dataIter != null {
        i := dataIter.Seek(target);
      }
      TwoLevelSeek(less, t.index.entries, Parts(t), target, b, i);
      g := StartOf(Parts(t), b) + i;
      SkipEmptyDataBlocksForward(b, i);
    }
  }

  // ---- places between blocks ----

  function BlockBefore<T>(parts: seq<seq<T>>, b: nat): (c: nat)
    requires b < |parts|
    ensures c <= |parts|
  {
    if b == 0 then |parts| else b - 1
  }

  function LastOf<T>(parts: seq<seq<T>>, b: nat): nat
    requires b <= |parts|
  {
    if b == |parts| || parts[b] == [] then 0 else |parts[b]| - 1
  }

  /** The g-th entry of the whole, if block b has an i-th one; else the last one before block b, if there is one. */
  ghost predicate LeadsBack<T>(parts: seq<seq<T>>, b: nat, i: nat, g: nat) {
    && b <= |parts|
    && g == if b == |parts| then |Flatten(parts)|
            else if i < |parts[b]| then StartOf(parts, b) + i
            else if StartOf(parts, b) == 0 then |Flatten(parts)|
            else StartOf(parts, b) - 1
  }

  lemma OneBlockBack<T>(parts: seq<seq<T>>, b: nat, i: nat, g: nat)
    requires LeadsBack(parts, b, i, g) && b < |parts| && i == |parts[b]|
    ensures LeadsBack(parts, BlockBefore(parts, b), LastOf(parts, BlockBefore(parts, b)), g)
  {
    if b > 0 {
      NextStart(parts, b - 1);
    }
  }

  lemma LastLeadsBack<T>(parts: seq<seq<T>>)
    ensures var last := if |parts| == 0 then 0 else |parts| - 1;
      LeadsBack(parts, last, LastOf(parts, last), if Flatten(parts) == [] then 0 else |Flatten(parts)| - 1)
  {
    if |parts| > 0 {
      NextStart(parts, |parts| - 1);
    }
  }

  ghost predicate SamePlace<T>(parts: seq<seq<T>>, b: nat, i: nat, c: nat, j: nat) {
    b <= |parts| && c <= |parts| && StartOf(parts, b) + i == StartOf(parts, c) + j
  }

  lemma NextPlace<T>(parts: seq<seq<T>>, b: nat, i: nat, c: nat, j: nat)
    requires SamePlace(parts, b, i, c, j) && c < |parts| && j == |parts[c]|
    ensures SamePlace(parts, b, i, c + 1, 0)
  {
    NextStart(parts, c);
  }

  lemma NothingBehind<T>(parts: seq<seq<T>>)
    ensures StartOf(parts, |parts|) == |Flatten(parts)|
  {
    assert parts[..|parts|] == parts;
  }
}
