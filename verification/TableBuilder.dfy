/** Writing a table (table/table_builder.cc): data blocks, the filters of their keys, the index of their
    separators, and the footer that leads to them. */
module TableBuilders {
  import opened Basics
  import opened Coding
  import opened Checksums
  import opened Flattening
  import opened Bloom
  import opened FilterBlock
  import opened BlockFormat
  import opened BlockReader
  import opened Separators
  import opened TableFormat
  import opened Tables
  import opened TableGet
  import opened Division
  import opened TableProgress

  // ---- what the filters know ----

  ghost predicate KeysIn(es: seq<Pair>, group: seq<Key>) {
    forall i :: 0 <= i < |es| ==> es[i].key in group
  }

  ghost function GroupAt(groups: seq<seq<Key>>, open: seq<Key>, n: nat): seq<Key> {
    if n < |groups| then groups[n] else if n == |groups| then open else []
  }

  /** The keys of every block are in the group of its offset, those of the open block in the open group. */
  ghost predicate Tracked(groups: seq<seq<Key>>, open: seq<Key>, at: nat, written: seq<WrittenBlock>, data: seq<Pair>) {
    && |groups| == at / FILTER_BASE && KeysIn(data, open)
    && forall b :: 0 <= b < |written| ==>
         written[b].offset <= at &&
           KeysIn(written[b].layout.entries, GroupAt(groups, open, written[b].offset / FILTER_BASE))
  }

  lemma TrackedAdd(groups: seq<seq<Key>>, open: seq<Key>, at: nat, written: seq<WrittenBlock>, data: seq<Pair>, e: Pair)
    requires Tracked(groups, open, at, written, data)
    ensures Tracked(groups, open + [e.key], at, written, data + [e])
  {
    forall b | 0 <= b < |written|
      ensures KeysIn(written[b].layout.entries, GroupAt(groups, open + [e.key], written[b].offset / FILTER_BASE))
    {
      assert KeysIn(written[b].layout.entries, GroupAt(groups, open, written[b].offset / FILTER_BASE));
    }
  }

  lemma GroupsKeep(groups: seq<seq<Key>>, open: seq<Key>, more: seq<seq<Key>>, left: seq<Key>, n: nat)
    requires n <= |groups|
    requires |more| == |groups| ==> more == groups && left == open
    requires |more| != |groups| ==> groups + [open] <= more
    ensures GroupAt(more, left, n) == GroupAt(groups, open, n)
  {
    if |more| != |groups| {
      assert more[n] == (groups + [open])[n];
    }
  }

  lemma TrackedFlush(groups: seq<seq<Key>>, open: seq<Key>, at: nat, written: seq<WrittenBlock>, w: WrittenBlock,
                     more: seq<seq<Key>>, left: seq<Key>, end: nat)
    requires Tracked(groups, open, at, written, w.layout.entries) && w.offset == at <= end
    requires |more| == end / FILTER_BASE
    requires |more| == |groups| ==> more == groups && left == open
    requires |more| != |groups| ==> groups + [open] <= more
    ensures Tracked(more, left, end, written + [w], [])
  {
    var all := written + [w];
    forall b | 0 <= b < |all|
      ensures all[b].offset <= end
      ensures KeysIn(all[b].layout.entries, GroupAt(more, left, all[b].offset / FILTER_BASE))
    {
      GroupsKeep(groups, open, more, left, all[b].offset / FILTER_BASE);
      if b < |written| {
        assert all[b] == written[b];
      }
    }
  }

  /** Once the open group is closed too, the filter block admits every key of every block at the block's offset. */
  lemma TrackedAdmits(hash: KeyHash, data: seq<Byte>, groups: seq<seq<Key>>, open: seq<Key>, at: nat,
                      written: seq<WrittenBlock>, crc: Checksum, file: seq<Byte>, b: nat)
    requires Tracked(groups, open, at, written, []) && b < |written|
    requires |file| < 0x1_0000_0000_0000_0000 && BytesAt(crc, file, written[b].offset, written[b].contents)
    requires ClosedAdmits(hash, data, groups + if open == [] then [] else [open])
    ensures Admits(hash, data, HandleBytes(HandleTo(written[b])), written[b].layout.entries)
  {
    var w := written[b];
    HandleLeadsTo(crc, file, w.offset, w.contents, false);
    var closed, n := groups + if open == [] then [] else [open], w.offset / FILTER_BASE;
    forall i | 0 <= i < |w.layout.entries| ensures MayMatch(hash, data, w.offset, w.layout.entries[i].key) {
      assert w.layout.entries[i].key in GroupAt(groups, open, n);
      assert n < |closed| && closed[n] == GroupAt(groups, open, n);
    }
  }

  ghost predicate ClosedAdmits(hash: KeyHash, data: seq<Byte>, groups: seq<seq<Key>>) {
    forall offset: nat, key ::
      offset / FILTER_BASE < |groups| && key in groups[offset / FILTER_BASE] ==> MayMatch(hash, data, offset, key)
  }

  // ---- the builder ----

  ghost predicate SmallKeys(l: Layout) {
    forall i :: 0 <= i < |l.entries| ==> |l.entries[i].key| < 0x1_0000_0000
  }

  ghost predicate Fits32(l: Layout) {
    BlockSize(l) < 0x1_0000_0000 && SmallKeys(l)
  }

  lemma SizeIsSmall(interval: nat, f: Fields)
    requires Building(interval, f) && Fits32(f.layout)
    ensures WellLaid(f.layout) && Small32(f.layout) && |BlockBytes(f.layout)| == BlockSize(f.layout)
    ensures IsBlock(BlockBytes(f.layout), f.layout)
  {
    assert Opened(f) && Builds(interval, f);
    assert HasBytes(BlockBytes(f.layout), f.layout);
  }

  /** A block with entries has gone to the end of the blocks written. */
  ghost predicate Flushes(before: seq<WrittenBlock>, block: Layout, after: seq<WrittenBlock>) {
    if block.entries == [] then after == before
    else |after| == |before| + 1 && after[..|before|] == before && after[|before|].layout == block
  }

  /** A builder that takes entries in the order of internal keys. */
  ghost predicate Takes(block: BlockBuilder)
    reads block
  {
    && block.Valid() && !block.finished && block.restartInterval >= 1 && block.less == InternalLess
    && Fits32(block.layout)
  }

  /** BlockBuilder::Add, in terms of the entries only. */
  method AddTo(block: BlockBuilder, key: Key, value: seq<Byte>)
    requires Takes(block) && BlockSize(block.layout) + |key| + |value| + 19 < 0x1_0000_0000
    requires block.layout.entries != [] ==> InternalLess(block.layout.entries[|block.layout.entries| - 1].key, key)
    modifies block
    ensures Takes(block) && block.layout.entries == old(block.layout.entries) + [Pair(key, value)]
    ensures block.State() == Next(block.restartInterval, old(block.State()), Pair(key, value))
  {
    block.EmptyHasNoEntries();
    NextSize(block.restartInterval, block.State(), Pair(key, value));
    block.Add(key, value);
  }

  class TableBuilder {
    const crc: Checksum
    const blockSize: nat
    const filterName: Key
    const dataBlock: BlockBuilder
    const indexBlock: BlockBuilder
    const filterBlock: FilterBlockBuilder?
    var file: seq<Byte>
    var lastKey: Key
    var numEntries: nat
    var closed: bool
    var pendingIndexEntry: bool
    var pendingHandle: BlockHandle
    ghost var written: seq<WrittenBlock>

    ghost function State(): Progress
      reads this, dataBlock, indexBlock
    {
      Progress(file, written, indexBlock.layout.entries, dataBlock.layout.entries, lastKey, pendingIndexEntry,
        pendingHandle)
    }

    /** What was added. */
    ghost function Added(): seq<Pair>
      reads this, dataBlock, indexBlock
    {
      Flatten(Whole(State()))
    }

    ghost predicate Filters()
      reads this, dataBlock, filterBlock
    {
      filterBlock != null ==>
        && filterBlock.Valid()
        && Tracked(filterBlock.groups, filterBlock.pending, |file|, written, dataBlock.layout.entries)
    }

    ghost predicate Valid()
      reads this, dataBlock, indexBlock, filterBlock
    {
      && dataBlock != indexBlock && Takes(dataBlock) && Takes(indexBlock)
      && Kept(crc, State()) && numEntries == |Added()| && Filters()
    }

    /** There is a filter policy that hashes users, or none. */
    constructor (crc: Checksum, blockSize: nat, restartInterval: nat, filterName: Key, policy: BloomFilterPolicy?)
      requires restartInterval >= 1 && (policy != null ==> policy.Valid())
      ensures Valid() && !closed && Added() == [] && fresh(dataBlock) && fresh(indexBlock)
      ensures filterBlock != null ==> fresh(filterBlock)
      ensures (filterBlock == null <==> policy == null) && (policy != null ==> filterBlock.policy == policy)
    {
      this.crc, this.blockSize, this.filterName := crc, blockSize, filterName;
      var data := new BlockBuilder(restartInterval, InternalLess);
      var index := new BlockBuilder(1, InternalLess);
      var filter: FilterBlockBuilder? := null;
      if policy != null {
        filter := new FilterBlockBuilder(policy);
      }
      dataBlock, indexBlock, filterBlock := data, index, filter;
      file, lastKey, numEntries, closed, pendingIndexEntry := [], [], 0, false, false;
      pendingHandle := BlockHandle(0, 0);
      written := [];
      new;
      if filterBlock != null {
        filterBlock.StartBlock(0);
      }
      EmptySplit();
      assert Whole(State()) == [];
      assert Keeps(crc, State());
    }

    lemma LastAdded()
      requires Valid()
      ensures numEntries == 0 <==> written == [] && dataBlock.layout.entries == []
      ensures pendingIndexEntry ==> written != [] && dataBlock.layout.entries == [] && |lastKey| >= 8
      ensures dataBlock.layout.entries != [] ==>
        !pendingIndexEntry && lastKey == dataBlock.layout.entries[|dataBlock.layout.entries| - 1].key
    {
      NothingAdded(crc, State());
    }

    /** What `Add` asks for: blocks that 32-bit offsets can address. */
    ghost predicate HasRoom(key: Key, value: seq<Byte>)
      reads this, dataBlock, indexBlock
    {
      && BlockSize(dataBlock.layout) + |key| + |value| + 19 < 0x1_0000_0000
      && (pendingIndexEntry ==> BlockSize(indexBlock.layout) + |lastKey| + MAX_HANDLE_LENGTH + 19 < 0x1_0000_0000)
    }

    /** The index entry that waits for the key behind its block. */
    method AddIndexEntry(r: Key)
      requires Takes(indexBlock) && dataBlock != indexBlock && pendingIndexEntry
      requires BlockSize(indexBlock.layout) + |r| + MAX_HANDLE_LENGTH + 19 < 0x1_0000_0000
      requires indexBlock.layout.entries != [] ==>
        InternalLess(indexBlock.layout.entries[|indexBlock.layout.entries| - 1].key, r)
      modifies this`pendingIndexEntry, indexBlock
      ensures Takes(indexBlock) && !pendingIndexEntry
      ensures indexBlock.layout.entries == old(indexBlock.layout.entries) + [Pair(r, HandleBytes(pendingHandle))]
    {
      var handleEncoding := EncodeHandle([], pendingHandle);
      HandleLength(pendingHandle);
      assert handleEncoding == HandleBytes(pendingHandle);
      AddTo(indexBlock, r, handleEncoding);
      pendingIndexEntry := false;
    }

    /** Before the first entry behind a written block, the block gets its index entry. */
    method IndexPending(ghost s: Progress, ghost e: Pair, key: Key) returns (ghost r: Key)
      requires Valid() && s == State() && key == e.key && |key| >= 8 && HasRoom(key, e.value)
      requires numEntries > 0 ==> InternalLess(lastKey, key)
      modifies this`lastKey, this`pendingIndexEntry, indexBlock
      ensures Takes(indexBlock) && !pendingIndexEntry && indexBlock.layout.entries == IndexWith(s, r)
      ensures Kept(crc, TableProgress.Added(s, r, e))
    {
      LastAdded();
      r := lastKey;
      if pendingIndexEntry {
        var separator := FindInternalSeparator(lastKey, key);
        SeparatorFits(lastKey, key, separator);
        AddKeeps(crc, s, separator, e);
        lastKey, r := separator, separator;
        AddIndexEntry(separator);
      } else {
        AddKeeps(crc, s, r, e);
      }
    }

    method TrackKey(ghost e: Pair, key: Key)
      requires Filters() && key == e.key
      modifies filterBlock
      ensures filterBlock != null ==>
        && filterBlock.Valid()
        && Tracked(filterBlock.groups, filterBlock.pending, |file|, written, dataBlock.layout.entries + [e])
    {
      if filterBlock != null {
        TrackedAdd(filterBlock.groups, filterBlock.pending, |file|, written, dataBlock.layout.entries, e);
        filterBlock.AddKey(key);
      }
    }

    method AppendData(key: Key, value: seq<Byte>)
      requires Takes(dataBlock) && BlockSize(dataBlock.layout) + |key| + |value| + 19 < 0x1_0000_0000
      requires dataBlock.layout.entries != [] ==>
        InternalLess(dataBlock.layout.entries[|dataBlock.layout.entries| - 1].key, key)
      modifies this`lastKey, this`numEntries, dataBlock
      ensures Takes(dataBlock) && dataBlock.layout.entries == old(dataBlock.layout.entries) + [Pair(key, value)]
      ensures dataBlock.State() == Next(dataBlock.restartInterval, old(dataBlock.State()), Pair(key, value))
      ensures lastKey == key && numEntries == old(numEntries) + 1
    {
      lastKey := key;
      numEntries := numEntries + 1;
      AddTo(dataBlock, key, value);
    }

    lemma ValidAfter(s: Progress, r: Key, e: Pair)
      requires dataBlock != indexBlock && Takes(dataBlock) && Takes(indexBlock) && Filters()
      requires Kept(crc, TableProgress.Added(s, r, e)) && numEntries == |Flatten(Whole(s))| + 1
      requires file == s.file && written == s.written && lastKey == e.key && pendingHandle == s.pendingHandle
      requires !pendingIndexEntry && indexBlock.layout.entries == IndexWith(s, r)
      requires dataBlock.layout.entries == s.data + [e]
      ensures Valid() && Added() == Flatten(Whole(s)) + [e]
    {
      AddedFlat(s, r, e);
      assert State() == TableProgress.Added(s, r, e);
    }

    method AddEntry(key: Key, value: seq<Byte>)
      requires Valid() && !closed && |key| >= 8 && HasRoom(key, value)
      requires numEntries > 0 ==> InternalLess(lastKey, key)
      modifies this, dataBlock, indexBlock, filterBlock
      ensures Valid() && !closed && file == old(file) && Added() == old(Added()) + [Pair(key, value)]
      ensures written == old(written)
      ensures dataBlock.State() == Next(dataBlock.restartInterval, old(dataBlock.State()), Pair(key, value))
    {
      ghost var s, e := State(), Pair(key, value);
      LastAdded();
      ghost var r := IndexPending(s, e, key);
      TrackKey(e, key);
      AppendData(key, value);
      ValidAfter(s, r, e);
    }

    /** Appends the contents and their trailer. */
    method WriteRawBlock(contents: seq<Byte>) returns (handle: BlockHandle)
      modifies this`file
      ensures file == old(file) + RawBlock(crc, contents) && handle == Handle(|old(file)|, |contents|)
    {
      handle := Handle(|file|, |contents|);
      ghost var was := file;
      var checksum := crc(contents + [NO_COMPRESSION]);
      var trailer := [NO_COMPRESSION] + Fixed32(Mask(checksum));
      file := file + contents;
      file := file + trailer;
      Associate(contents, [NO_COMPRESSION], Fixed32(Mask(checksum)));
      Associate(was, contents, trailer);
    }

    method WriteBlock(block: BlockBuilder) returns (ghost contents: seq<Byte>, handle: BlockHandle)
      requires Takes(block)
      modifies this`file, block
      ensures Takes(block) && block.layout.entries == []
      ensures file == old(file) + RawBlock(crc, contents) && handle == Handle(|old(file)|, |contents|)
      ensures IsBlock(contents, old(block.layout))
    {
      SizeIsSmall(block.restartInterval, block.State());
      var raw := block.Finish();
      contents := raw;
      handle := WriteRawBlock(raw);
      block.Reset();
    }

    /** Closes the groups of keys up to the next data block. */
    method TrackFlush(ghost before: seq<WrittenBlock>, ghost w: WrittenBlock)
      requires filterBlock != null ==>
        && filterBlock.Valid() && w.offset <= |file|
        && Tracked(filterBlock.groups, filterBlock.pending, w.offset, before, w.layout.entries)
      requires written == before + [w] && dataBlock.layout.entries == []
      modifies filterBlock
      ensures Filters()
    {
      if filterBlock != null {
        ghost var groups, open := filterBlock.groups, filterBlock.pending;
        DivisionRises(w.offset, |file|);
        filterBlock.StartBlock(|file|);
        TrackedFlush(groups, open, w.offset, before, w, filterBlock.groups, filterBlock.pending, |file|);
      }
    }

    /** Writes the open block, if there is anything in it; its index entry waits for the key behind it. */
    method Flush()
      requires Valid() && !closed
      modifies this, dataBlock, filterBlock
      ensures Valid() && !closed && dataBlock.layout.entries == [] && lastKey == old(lastKey)
      ensures Added() == old(Added()) && old(file) <= file
      ensures Flushes(old(written), old(dataBlock.layout), written)
      ensures old(dataBlock.layout.entries) == [] ==> file == old(file)
    {
      dataBlock.EmptyHasNoEntries();
      if dataBlock.Empty() {
        return;
      }
      ghost var s, layout := State(), dataBlock.layout;
      ghost var contents;
      contents, pendingHandle := WriteBlock(dataBlock);
      ghost var w := WrittenBlock(layout, |s.file|, contents);
      written := written + [w];
      pendingIndexEntry := true;
      TrackFlush(s.written, w);
      FlushKeeps(crc, s, w);
      SameWhole(crc, s, w);
      assert State() == Flushed(crc, s, w);
    }

    /** Keys come in order; a block that is large enough is written. */
    method Add(key: Key, value: seq<Byte>)
      requires Valid() && !closed && |key| >= 8 && HasRoom(key, value)
      requires numEntries > 0 ==> InternalLess(lastKey, key)
      modifies this, dataBlock, indexBlock, filterBlock
      ensures Valid() && !closed && Added() == old(Added()) + [Pair(key, value)]
      ensures var block := Next(dataBlock.restartInterval, old(dataBlock.State()), Pair(key, value));
        if BlockSize(block.layout) >= blockSize then
          dataBlock.layout.entries == [] && Flushes(old(written), block.layout, written)
        else dataBlock.State() == block && written == old(written) && file == old(file)
    {
      AddEntry(key, value);
      dataBlock.EmptyHasNoEntries();
      if dataBlock.CurrentSizeEstimate() >= blockSize {
        Flush();
      }
    }

    method WriteFilters() returns (ghost offset: nat, ghost filter: seq<Byte>, handle: BlockHandle)
      requires Filters() && dataBlock.layout.entries == []
      modifies this`file, filterBlock
      ensures old(file) <= file
      ensures if filterBlock == null then file == old(file) else
        && file == old(file) + RawBlock(crc, filter) && offset == |old(file)| && handle == Handle(offset, |filter|)
        && (|filter| < 0x1_0000_0000 ==>
              FiltersAdmit(filterBlock.policy.hash, filter, |old(file)|, written))
    {
      offset, filter, handle := |file|, [], BlockHandle(0, 0);
      if filterBlock != null {
        ghost var groups, open := filterBlock.groups, filterBlock.pending;
        var contents := filterBlock.Finish();
        filter := contents;
        handle := WriteRawBlock(contents);
        if |filter| < 0x1_0000_0000 {
          assert ClosedAdmits(filterBlock.policy.hash, filter, groups + if open == [] then [] else [open]);
        }
      }
    }

    /** The last block gets its index entry. */
    method IndexLast(ghost s: Progress) returns (ghost r: Key)
      requires Takes(indexBlock) && dataBlock != indexBlock && Kept(crc, s) && s.data == []
      requires s.index == indexBlock.layout.entries && s.lastKey == lastKey
      requires s.pending == pendingIndexEntry && s.pendingHandle == pendingHandle
      requires BlockSize(indexBlock.layout) + |lastKey| + MAX_HANDLE_LENGTH + 19 < 0x1_0000_0000
      modifies this`lastKey, this`pendingIndexEntry, indexBlock
      ensures Takes(indexBlock) && indexBlock.layout.entries == IndexWith(s, r)
      ensures s.pending ==> |r| >= 8 && NotAfter(InternalLess, s.lastKey, r)
    {
      r := lastKey;
      if pendingIndexEntry {
        NothingAdded(crc, s);
        var successor := FindInternalSuccessor(lastKey);
        SuccessorFits(lastKey, successor);
        CompleteIndex(crc, s, successor);
        AddIndexEntry(successor);
        lastKey, r := successor, successor;
      }
    }

    ghost function Hash(): Option<KeyHash> {
      if filterBlock == null then None else Some(filterBlock.policy.hash)
    }

    /** Metaindex, index and footer. */
    method WriteTail(ghost s: Progress, handle: BlockHandle)
      returns (ghost index: Layout, ghost metaindex: Layout, ghost r: Key)
      requires Takes(dataBlock) && Takes(indexBlock) && dataBlock != indexBlock && Kept(crc, s) && s.data == []
      requires s.index == indexBlock.layout.entries && s.lastKey == lastKey
      requires s.pending == pendingIndexEntry && s.pendingHandle == pendingHandle
      requires BlockSize(indexBlock.layout) + |lastKey| + MAX_HANDLE_LENGTH + 19 < 0x1_0000_0000
      requires |filterName| < 0x1000_0000
      modifies this`lastKey, this`pendingIndexEntry, this`file, indexBlock
      ensures index.entries == IndexWith(s, r)
      ensures s.pending ==> |r| >= 8 && NotAfter(InternalLess, s.lastKey, r)
      ensures metaindex.entries == if filterBlock == null then []
        else [Pair(FilterKey(filterName), HandleBytes(handle))]
      ensures old(file) <= file
      ensures |file| < 0x1_0000_0000_0000_0000 ==> AlwaysOpens(file, crc, metaindex, index)
    {
      ghost var before, indexContents := file, [];
      var meta, indexHandle;
      meta, metaindex :=
        BuildMetaindex(dataBlock.restartInterval, filterName, if filterBlock == null then None else Some(handle));
      var metaindexHandle := WriteRawBlock(meta);
      r := IndexLast(s);
      index := indexBlock.layout;
      indexContents, indexHandle := WriteBlock(indexBlock);
      file := EncodeFooter(file, metaindexHandle, indexHandle);
      Footed(crc, before, meta, indexContents, file, metaindex, index);
    }

    /** Writes what is still open, then filters, metaindex, index and footer. A file that 64-bit offsets can
        address holds exactly the entries that were added. */
    method Finish() returns (ghost index: Layout, ghost metaindex: Layout, ghost filter: seq<Byte>)
      requires Valid() && !closed && |filterName| < 0x1000_0000
      requires BlockSize(indexBlock.layout) + |lastKey| + MAX_HANDLE_LENGTH + 19 < 0x1_0000_0000
      modifies this, dataBlock, indexBlock, filterBlock
      ensures closed
      ensures |file| < 0x1_0000_0000_0000_0000 ==>
        AlwaysHolds(file, crc, index, written, metaindex, filterName, Hash(), filter, old(Added()))
    {
      Flush();
      closed := true;
      ghost var s := State();
      ghost var offset, r;
      var handle;
      offset, filter, handle := WriteFilters();
      ghost var withFilters := file;
      index, metaindex, r := WriteTail(s, handle);
      if |file| < 0x1_0000_0000_0000_0000 {
        Complete(crc, s, r, filterBlock != null, offset, filter, withFilters, file, index, metaindex, filterName,
          Hash());
      }
    }
  }

  // ---- a finished file ----

  ghost predicate BlockIs(file: seq<Byte>, verify: bool, crc: Checksum, handle: (nat, nat), l: Layout) {
    match BlockAt(file, verify, crc, handle.0, handle.1)
    case None => false
    case Some(contents) => IsBlock(contents, l)
  }

  /** The footer leads to the metaindex and the index. */
  ghost predicate OpensTo(file: seq<Byte>, verify: bool, crc: Checksum, metaindex: Layout, index: Layout) {
    |file| >= FOOTER_LENGTH &&
    match ParseFooter(file[|file| - FOOTER_LENGTH..])
    case None => false
    case Some(handles) =>
      BlockIs(file, verify, crc, handles.0, metaindex) && BlockIs(file, verify, crc, handles.1, index)
  }

  /** The metaindex leads to the filters, and they admit every key; unless there are none. */
  ghost predicate FilterHeld(t: Table, metaindex: Layout, name: Key, hash: Option<KeyHash>, filter: seq<Byte>) {
    match hash
    case None => metaindex.entries == []
    case Some(h) =>
      && |metaindex.entries| == 1 && metaindex.entries[0].key == FilterKey(name)
      && ContentsAt(t.file, t.verify, t.crc, metaindex.entries[0].value) == Some(filter)
      && (|filter| < 0x1_0000_0000 ==> AdmitsAll(h, filter, t))
  }

  ghost predicate Holds(t: Table, metaindex: Layout, name: Key, hash: Option<KeyHash>, filter: seq<Byte>,
                        es: seq<Pair>) {
    && IsTable(t) && Searchable(t) && Entries(t) == es
    && OpensTo(t.file, t.verify, t.crc, metaindex, t.index)
    && FilterHeld(t, metaindex, name, hash, filter)
  }

  /** Whether or not checksums are verified. */
  ghost predicate AlwaysOpens(file: seq<Byte>, crc: Checksum, metaindex: Layout, index: Layout) {
    forall verify :: OpensTo(file, verify, crc, metaindex, index)
  }

  ghost predicate AlwaysHolds(file: seq<Byte>, crc: Checksum, index: Layout, written: seq<WrittenBlock>,
                              metaindex: Layout, name: Key, hash: Option<KeyHash>, filter: seq<Byte>, es: seq<Pair>) {
    forall verify :: Holds(TableOf(file, verify, crc, index, written), metaindex, name, hash, filter, es)
  }

  lemma FooterAt(before: seq<Byte>, m: BlockHandle, i: BlockHandle, file: seq<Byte>)
    requires file == before + FooterBytes(m, i)
    ensures |file| >= FOOTER_LENGTH
    ensures ParseFooter(file[|file| - FOOTER_LENGTH..]) ==
            Some(((m.offset as nat, m.size as nat), (i.offset as nat, i.size as nat)))
  {
    assert file[|file| - FOOTER_LENGTH..] == FooterBytes(m, i);
    FooterReadsBack(m, i);
  }

  lemma BlockThere(crc: Checksum, before: seq<Byte>, contents: seq<Byte>, file: seq<Byte>, l: Layout, verify: bool)
    requires IsBlock(contents, l) && before + RawBlock(crc, contents) <= file
    ensures BlockIs(file, verify, crc, (|before|, |contents|), l)
  {
    BytesAppended(crc, before, contents);
    BytesStay(crc, before + RawBlock(crc, contents), file, |before|, contents);
    BytesReadBack(crc, file, |before|, contents, verify);
  }

  lemma OpensFor(crc: Checksum, before: seq<Byte>, meta: seq<Byte>, withMeta: seq<Byte>, index: seq<Byte>,
                 file: seq<Byte>, metaLayout: Layout, indexLayout: Layout, verify: bool)
    requires IsBlock(meta, metaLayout) && IsBlock(index, indexLayout)
    requires before + RawBlock(crc, meta) <= file && withMeta + RawBlock(crc, index) <= file
    requires |file| >= FOOTER_LENGTH
    requires ParseFooter(file[|file| - FOOTER_LENGTH..]) == Some(((|before|, |meta|), (|withMeta|, |index|)))
    ensures OpensTo(file, verify, crc, metaLayout, indexLayout)
  {
    BlockThere(crc, before, meta, file, metaLayout, verify);
    BlockThere(crc, withMeta, index, file, indexLayout, verify);
  }

  lemma HandleIs(offset: nat, size: nat)
    requires offset < 0x1_0000_0000_0000_0000 && size < 0x1_0000_0000_0000_0000
    ensures Handle(offset, size) == BlockHandle(offset, size)
  {
    Small(offset, 0x1_0000_0000_0000_0000);
    Small(size, 0x1_0000_0000_0000_0000);
  }

  lemma PrefixTwice(a: seq<Byte>, b: seq<Byte>, c: seq<Byte>, d: seq<Byte>, whole: seq<Byte>)
    requires whole == a + b + c + d
    ensures a + b <= whole && a + b + c <= whole && a <= whole
  {
  }

  lemma Footed(crc: Checksum, before: seq<Byte>, meta: seq<Byte>, index: seq<Byte>, file: seq<Byte>, metaLayout: Layout,
               indexLayout: Layout)
    requires IsBlock(meta, metaLayout) && IsBlock(index, indexLayout)
    requires var withMeta := before + RawBlock(crc, meta);
      file == withMeta + RawBlock(crc, index) + FooterBytes(Handle(|before|, |meta|), Handle(|withMeta|, |index|))
    ensures before <= file
    ensures |file| < 0x1_0000_0000_0000_0000 ==> AlwaysOpens(file, crc, metaLayout, indexLayout)
  {
    var withMeta := before + RawBlock(crc, meta);
    var m, i := Handle(|before|, |meta|), Handle(|withMeta|, |index|);
    PrefixTwice(before, RawBlock(crc, meta), RawBlock(crc, index), FooterBytes(m, i), file);
    FooterAt(withMeta + RawBlock(crc, index), m, i, file);
    if |file| < 0x1_0000_0000_0000_0000 {
      HandleIs(|before|, |meta|);
      HandleIs(|withMeta|, |index|);
      forall verify ensures OpensTo(file, verify, crc, metaLayout, indexLayout) {
        OpensFor(crc, before, meta, withMeta, index, file, metaLayout, indexLayout, verify);
      }
    }
  }

  lemma AllAdmitted(crc: Checksum, s: Progress, r: Key, file: seq<Byte>, verify: bool, index: Layout, hash: KeyHash,
                    filter: seq<Byte>)
    requires Kept(crc, s) && s.data == [] && s.file <= file && |file| < 0x1_0000_0000_0000_0000
    requires s.pending ==> |r| >= 8 && NotAfter(InternalLess, s.lastKey, r)
    requires index.entries == IndexWith(s, r) && FiltersAdmit(hash, filter, |s.file|, s.written)
    ensures AdmitsAll(hash, filter, TableOf(file, verify, crc, index, s.written))
  {
    CompleteIndex(crc, s, r);
    var t := TableOf(file, verify, crc, index, s.written);
    var groups, open :| Tracked(groups, open, |s.file|, s.written, []) &&
      ClosedAdmits(hash, filter, groups + if open == [] then [] else [open]);
    forall b | 0 <= b < |s.written| ensures Admits(hash, filter, t.index.entries[b].value, t.blocks[b].entries) {
      BytesStay(crc, s.file, file, s.written[b].offset, s.written[b].contents);
      TrackedAdmits(hash, filter, groups, open, |s.file|, s.written, crc, file, b);
    }
  }

  lemma Complete(crc: Checksum, s: Progress, r: Key, filtered: bool, offset: nat, filter: seq<Byte>,
                 withFilters: seq<Byte>, file: seq<Byte>, index: Layout, metaindex: Layout, name: Key,
                 hash: Option<KeyHash>)
    requires Kept(crc, s) && s.data == [] && withFilters <= file && |file| < 0x1_0000_0000_0000_0000
    requires s.pending ==> |r| >= 8 && NotAfter(InternalLess, s.lastKey, r)
    requires index.entries == IndexWith(s, r) && (filtered <==> hash.Some?)
    requires AlwaysOpens(file, crc, metaindex, index)
    requires if !filtered then withFilters == s.file && metaindex.entries == [] else
      && withFilters == s.file + RawBlock(crc, filter) && offset == |s.file|
      && metaindex.entries == [Pair(FilterKey(name), HandleBytes(Handle(offset, |filter|)))]
      && (|filter| < 0x1_0000_0000 ==> FiltersAdmit(hash.value, filter, |s.file|, s.written))
    ensures AlwaysHolds(file, crc, index, s.written, metaindex, name, hash, filter, Flatten(Whole(s)))
  {
    forall verify
      ensures Holds(TableOf(file, verify, crc, index, s.written), metaindex, name, hash, filter, Flatten(Whole(s)))
    {
      CompleteTable(crc, s, r, file, verify, index);
      if filtered {
        BytesAppended(crc, s.file, filter);
        BytesStay(crc, withFilters, file, offset, filter);
        HandleLeadsTo(crc, file, offset, filter, verify);
        if |filter| < 0x1_0000_0000 {
          AllAdmitted(crc, s, r, file, verify, index, hash.value, filter);
        }
      }
    }
  }

  /** What the filter block says of all blocks, once the file is known to be small enough. */
  ghost predicate FiltersAdmit(hash: KeyHash, filter: seq<Byte>, at: nat, written: seq<WrittenBlock>) {
    exists groups, open ::
      Tracked(groups, open, at, written, []) && ClosedAdmits(hash, filter, groups + if open == [] then [] else [open])
  }

  /** A block with the place of the filters in it, if there are any. */
  method BuildMetaindex(restartInterval: nat, name: Key, handle: Option<BlockHandle>)
    returns (contents: seq<Byte>, ghost layout: Layout)
    requires restartInterval >= 1 && |name| < 0x1000_0000
    ensures IsBlock(contents, layout)
    ensures layout.entries == if handle.None? then [] else [Pair(FilterKey(name), HandleBytes(handle.value))]
  {
    var block := new BlockBuilder(restartInterval, InternalLess);
    if handle.Some? {
      var handleEncoding := EncodeHandle([], handle.value);
      HandleLength(handle.value);
      assert handleEncoding == HandleBytes(handle.value);
      AddTo(block, FilterKey(name), handleEncoding);
    }
    layout := block.layout;
    SizeIsSmall(block.restartInterval, block.State());
    contents := block.Finish();
  }

  /** "filter." and the name of the policy. */
  function FilterKey(name: Key): (key: Key)
    ensures |key| == 7 + |name|
  {
    [0x66, 0x69, 0x6c, 0x74, 0x65, 0x72, 0x2e] + name
  }

  lemma DivisionRises(a: nat, b: nat)
    requires a <= b
    ensures a / FILTER_BASE <= b / FILTER_BASE
  {
  }
}
