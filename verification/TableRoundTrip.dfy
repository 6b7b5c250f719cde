/** Writing a table and reading it back: opening the file (table/table.cc), scanning it, and looking keys up. */
module TableRoundTrip {
  import opened Basics
  import opened Coding
  import opened Checksums
  import opened Bloom
  import opened FilterBlock
  import opened BlockFormat
  import opened BlockReader
  import opened BlockIterators
  import opened Separators
  import opened TableFormat
  import opened Tables
  import opened TableGet
  import opened TableProgress
  import opened TableBuilders

  lemma BytesOrder()
    ensures StrictOrder(BytesLess)
  {
    forall a, b | BytesLess(a, b) ensures !BytesLess(b, a) {
      BytesAsymmetric(a, b);
    }
    forall a, b, c | BytesLess(a, b) && BytesLess(b, c) ensures BytesLess(a, c) {
      BytesTransitive(a, b, c);
    }
  }

  /** Table::Open, as far as the index block. */
  method Open(file: seq<Byte>, verify: bool, crc: Checksum, ghost metaindex: Layout, ghost index: Layout)
    returns (handles: Option<Handles>, indexContents: Option<seq<Byte>>)
    ensures OpensTo(file, verify, crc, metaindex, index) ==>
      && handles.Some? && BlockIs(file, verify, crc, handles.value.0, metaindex)
      && indexContents.Some? && IsBlock(indexContents.value, index)
  {
    handles, indexContents := None, None;
    if |file| < FOOTER_LENGTH {
      return;
    }
    handles := DecodeFooter(file[|file| - FOOTER_LENGTH..]);
    if handles.Some? {
      indexContents := ReadBlock(file, verify, crc, handles.value.1.0, handles.value.1.1);
    }
  }

  /** ReadMeta: the value of the policy's entry in the metaindex. */
  method FindFilter(meta: seq<Byte>, name: Key, ghost metaindex: Layout) returns (handle: Option<seq<Byte>>)
    requires IsBlock(meta, metaindex) && |metaindex.entries| <= 1
    ensures handle == if metaindex.entries != [] && metaindex.entries[0].key == FilterKey(name)
                      then Some(metaindex.entries[0].value) else None
  {
    BytesOrder();
    var iter := NewIterator(meta, BytesLess, metaindex);
    ghost var i := iter.Seek(FilterKey(name));
    iter.Shows(i);
    if metaindex.entries != [] && metaindex.entries[0].key == FilterKey(name) {
      NotBeforeItself(FilterKey(name));
    }
    if iter.Valid() && iter.key == FilterKey(name) {
      return Some(iter.Value());
    }
    return None;
  }

  lemma NotBeforeItself(key: Key)
    ensures !BytesLess(key, key)
  {
    if BytesLess(key, key) {
      BytesAsymmetric(key, key);
    }
  }

  /** ReadMeta and ReadFilter: the filters of the policy, if the file has any. */
  method ReadMeta(file: seq<Byte>, verify: bool, crc: Checksum, metaHandle: (nat, nat), policy: BloomFilterPolicy?,
                  name: Key, ghost metaindex: Layout, ghost filter: seq<Byte>)
    returns (reader: FilterBlockReader?)
    requires BlockIs(file, verify, crc, metaHandle, metaindex) && |metaindex.entries| <= 1
    requires metaindex.entries != [] && metaindex.entries[0].key == FilterKey(name) ==>
      ContentsAt(file, verify, crc, metaindex.entries[0].value) == Some(filter)
    ensures reader != null ==>
      && policy != null && reader.policy == policy && reader.Valid() && reader.data == filter
      && metaindex.entries != [] && metaindex.entries[0].key == FilterKey(name)
    ensures policy != null && metaindex.entries != [] && metaindex.entries[0].key == FilterKey(name) ==> reader != null
  {
    reader := null;
    if policy == null {
      return;
    }
    var meta := ReadBlock(file, verify, crc, metaHandle.0, metaHandle.1);
    var handle := FindFilter(meta.value, name, metaindex);
    if handle.Some? {
      var h := DecodeHandle(handle.value);
      if h.Parsed? {
        var contents := ReadBlock(file, verify, crc, h.value.0, h.value.1);
        if contents.Some? {
          reader := new FilterBlockReader(policy, contents.value);
        }
      }
    }
  }

  /** A table of the entries, as the builder leaves it when filters are below 4 gigabytes. */
  ghost predicate TableFile(t: Table, metaindex: Layout, name: Key, policy: BloomFilterPolicy?, filter: seq<Byte>,
                            es: seq<Pair>) {
    && Holds(t, metaindex, name, if policy == null then None else Some(policy.hash), filter, es)
    && (policy != null ==> policy.Valid() && HashesUsers(policy.hash) && |filter| < 0x1_0000_0000)
  }

  /** Opening the file and looking a key up answers from the entries that were added: the first one at or after the
      key is found if it is of the key's user, and nothing else but it is ever found. */
  method OpenAndGet(file: seq<Byte>, verify: bool, crc: Checksum, policy: BloomFilterPolicy?, name: Key, k: Key,
                    ghost t: Table, ghost metaindex: Layout, ghost filter: seq<Byte>, ghost es: seq<Pair>)
    returns (r: Option<Pair>)
    requires TableFile(t, metaindex, name, policy, filter, es) && t.file == file && t.verify == verify && t.crc == crc
    requires |k| >= 8
    ensures Answered(es, k, r)
  {
    var handles, indexContents := Open(file, verify, crc, metaindex, t.index);
    var reader := ReadMeta(file, verify, crc, handles.value.0, policy, name, metaindex, filter);
    r := InternalGet(file, verify, crc, indexContents.value, reader, k, t);
  }

  lemma SearchableIsSeparated(t: Table)
    requires Searchable(t)
    ensures StrictOrder(InternalLess) && Separated(InternalLess, t.index.entries, Parts(t))
  {
    InternalOrder();
    assert Opened(t) && WellIndexed(t);
  }

  method SeekTo(iter: TwoLevelIterator, target: Key) returns (ghost g: nat)
    requires iter.Usable() && iter.less == InternalLess && Searchable(iter.t)
    modifies iter, iter.indexIter, iter.dataIter
    ensures iter.At(g) && IsSeekPos(InternalLess, Entries(iter.t), target, g)
    ensures iter.dataIter != null ==> iter.dataIter == old(iter.dataIter) || fresh(iter.dataIter)
  {
    SearchableIsSeparated(iter.t);
    g := iter.Seek(target);
  }

  /** The entry the iterator stands at, and on to the next. */
  method Take(iter: TwoLevelIterator, ghost g: nat, ghost es: seq<Pair>) returns (e: Pair, more: bool)
    requires iter.At(g) && g < |es| && es == Entries(iter.t)
    modifies iter, iter.indexIter, iter.dataIter
    ensures e == es[g] && iter.At(g + 1) && more == (g + 1 < |es|)
    ensures iter.dataIter != null ==> iter.dataIter == old(iter.dataIter) || fresh(iter.dataIter)
  {
    iter.Shows(g);
    e := Pair(iter.dataIter.key, iter.dataIter.Value());
    iter.Next(g);
    iter.Shows(g + 1);
    more := iter.Valid();
  }

  lemma OneMore<T>(s: seq<T>, g: nat, at: nat)
    requires g <= at < |s|
    ensures s[g..at] + [s[at]] == s[g..at + 1]
  {
  }

  method ScanFrom(iter: TwoLevelIterator, ghost g: nat, ghost es: seq<Pair>) returns (found: seq<Pair>)
    requires iter.At(g) && es == Entries(iter.t)
    modifies iter, iter.indexIter, iter.dataIter
    ensures g <= |es| && found == es[g..]
  {
    found := [];
    ghost var at := g;
    iter.Shows(at);
    var more := iter.Valid();
    while more
      invariant iter.dataIter != null ==> iter.dataIter == old(iter.dataIter) || fresh(iter.dataIter)
      invariant iter.At(at) && g <= at <= |es| && found == es[g..at] && more == (at < |es|)
      decreases |es| - at
    {
      var e;
      e, more := Take(iter, at, es);
      OneMore(es, g, at);
      found := found + [e];
      at := at + 1;
    }
  }

  /** Opening the file and seeking in it, then going on to the end: exactly the added entries that are not before
      the target, in order. */
  method OpenAndScan(file: seq<Byte>, verify: bool, crc: Checksum, target: Key, ghost t: Table, ghost metaindex: Layout,
                     ghost es: seq<Pair>)
    returns (found: seq<Pair>, ghost g: nat)
    requires IsTable(t) && Searchable(t) && Entries(t) == es && OpensTo(file, verify, crc, metaindex, t.index)
    requires t.file == file && t.verify == verify && t.crc == crc
    ensures IsSeekPos(InternalLess, es, target, g) && found == es[g..]
  {
    var handles, indexContents := Open(file, verify, crc, metaindex, t.index);
    var iter := new TwoLevelIterator(file, verify, crc, InternalLess, indexContents.value, t);
    g := SeekTo(iter, target);
    found := ScanFrom(iter, g, es);
  }

  lemma FilterInFile(t: Table, metaindex: Layout, name: Key, hash: KeyHash, filter: seq<Byte>, es: seq<Pair>)
    requires Holds(t, metaindex, name, Some(hash), filter, es)
    ensures |filter| < |t.file|
  {
  }

  /** From a builder to its readers: a table file below 4 gigabytes answers lookups and scans from the entries that
      were added, in their order. */
  method FinishAndRead(builder: TableBuilder, verify: bool, k: Key, target: Key)
    returns (r: Option<Pair>, found: seq<Pair>, ghost g: nat)
    requires builder.Valid() && !builder.closed && |builder.filterName| < 0x1000_0000 && |k| >= 8
    requires BlockSize(builder.indexBlock.layout) + |builder.lastKey| + MAX_HANDLE_LENGTH + 19 < 0x1_0000_0000
    requires builder.filterBlock != null ==> HashesUsers(builder.filterBlock.policy.hash)
    modifies builder, builder.dataBlock, builder.indexBlock, builder.filterBlock
    ensures |builder.file| < 0x1_0000_0000 ==>
      && Answered(old(builder.Added()), k, r)
      && IsSeekPos(InternalLess, old(builder.Added()), target, g) && found == old(builder.Added())[g..]
  {
    ghost var es := builder.Added();
    var policy: BloomFilterPolicy? := null;
    if builder.filterBlock != null {
      policy := builder.filterBlock.policy;
    }
    ghost var index, metaindex, filter := builder.Finish();
    r, found, g := None, [], 0;
    if |builder.file| < 0x1_0000_0000 {
      ghost var t := TableOf(builder.file, verify, builder.crc, index, builder.written);
      if policy != null {
        FilterInFile(t, metaindex, builder.filterName, policy.hash, filter, es);
      }
      r := OpenAndGet(builder.file, verify, builder.crc, policy, builder.filterName, k, t, metaindex, filter, es);
      found, g := OpenAndScan(builder.file, verify, builder.crc, target, t, metaindex, es);
    }
  }
}
