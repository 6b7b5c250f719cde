/** A table file while it is written: the blocks on file, the index entries for them, and the entries of the block
    that is still open (table/table_builder.cc). */
module TableProgress {
  import opened Basics
  import opened Coding
  import opened Checksums
  import opened Flattening
  import opened BlockFormat
  import opened BlockReader
  import opened Separators
  import opened TableFormat
  import opened Tables
  import opened TableGet
  import opened Division

  // ---- bytes on file ----

  /** A handle has 64 bits for either number. */
  function Handle(offset: nat, size: nat): BlockHandle {
    BlockHandle(offset % 0x1_0000_0000_0000_0000, size % 0x1_0000_0000_0000_0000)
  }

  ghost predicate BytesAt(crc: Checksum, file: seq<Byte>, offset: nat, contents: seq<Byte>) {
    && offset + |contents| + TRAILER_SIZE <= |file|
    && file[offset..offset + |contents| + TRAILER_SIZE] == RawBlock(crc, contents)
  }

  lemma BytesAppended(crc: Checksum, file: seq<Byte>, contents: seq<Byte>)
    ensures BytesAt(crc, file + RawBlock(crc, contents), |file|, contents)
  {
  }

  lemma BytesStay(crc: Checksum, file: seq<Byte>, more: seq<Byte>, offset: nat, contents: seq<Byte>)
    requires BytesAt(crc, file, offset, contents) && file <= more
    ensures BytesAt(crc, more, offset, contents)
  {
    var n := offset + |contents| + TRAILER_SIZE;
    assert more[offset..n] == file[offset..n];
  }

  lemma BytesReadBack(crc: Checksum, file: seq<Byte>, offset: nat, contents: seq<Byte>, verify: bool)
    requires BytesAt(crc, file, offset, contents)
    ensures BlockAt(file, verify, crc, offset, |contents|) == Some(contents)
  {
    var n := offset + |contents| + TRAILER_SIZE;
    BlockReadsBack(file[..offset], crc, contents, file[n..], verify);
    assert file == file[..offset] + RawBlock(crc, contents) + file[n..];
  }

  /** The bytes at a handle, in a file that 64-bit offsets can address. */
  lemma HandleLeadsTo(crc: Checksum, file: seq<Byte>, offset: nat, contents: seq<Byte>, verify: bool)
    requires BytesAt(crc, file, offset, contents) && |file| < 0x1_0000_0000_0000_0000
    ensures ParseHandle(HandleBytes(Handle(offset, |contents|))) == Parsed((offset, |contents|), [])
    ensures ContentsAt(file, verify, crc, HandleBytes(Handle(offset, |contents|))) == Some(contents)
  {
    BytesReadBack(crc, file, offset, contents, verify);
    Small(offset, 0x1_0000_0000_0000_0000);
    Small(|contents|, 0x1_0000_0000_0000_0000);
    HandleReadsBack(Handle(offset, |contents|), []);
    assert HandleBytes(Handle(offset, |contents|)) + [] == HandleBytes(Handle(offset, |contents|));
  }

  // ---- the state of a builder ----

  /** A data block on file. */
  datatype WrittenBlock = WrittenBlock(layout: Layout, offset: nat, contents: seq<Byte>)

  function HandleTo(w: WrittenBlock): BlockHandle {
    Handle(w.offset, |w.contents|)
  }

  datatype Progress = Progress(file: seq<Byte>, written: seq<WrittenBlock>, index: seq<Pair>, data: seq<Pair>,
                               lastKey: Key, pending: bool, pendingHandle: BlockHandle)

  ghost function Layouts(written: seq<WrittenBlock>): (ls: seq<Layout>)
    ensures |ls| == |written| && forall b :: 0 <= b < |ls| ==> ls[b] == written[b].layout
  {
    seq(|written|, b requires 0 <= b < |written| => written[b].layout)
  }

  ghost function PartsWritten(written: seq<WrittenBlock>): (parts: seq<seq<Pair>>)
    ensures |parts| == |written| && forall b :: 0 <= b < |parts| ==> parts[b] == written[b].layout.entries
  {
    seq(|written|, b requires 0 <= b < |written| => written[b].layout.entries)
  }

  /** All entries so far, block by block. */
  ghost function Whole(s: Progress): seq<seq<Pair>> {
    PartsWritten(s.written) + if s.data == [] then [] else [s.data]
  }

  ghost predicate AllOnFile(crc: Checksum, file: seq<Byte>, written: seq<WrittenBlock>) {
    && (forall b :: 0 <= b < |written| ==>
          IsBlock(written[b].contents, written[b].layout) && BytesAt(crc, file, written[b].offset, written[b].contents))
    && (forall a, b :: 0 <= a < b < |written| ==> written[a].offset < written[b].offset)
  }

  ghost predicate IndexedBy(index: seq<Pair>, written: seq<WrittenBlock>) {
    |index| <= |written| && forall b :: 0 <= b < |index| ==> index[b].value == HandleBytes(HandleTo(written[b]))
  }

  ghost predicate Keeps(crc: Checksum, s: Progress) {
    && AllOnFile(crc, s.file, s.written) && IndexedBy(s.index, s.written)
    && |s.index| + (if s.pending then 1 else 0) == |s.written|
    && (s.pending ==> s.data == [] && s.pendingHandle == HandleTo(s.written[|s.written| - 1]))
    && (!s.pending && s.data == [] ==> s.written == [])
    && WellSplit(Split(s.index, Whole(s))) && s.lastKey == LastKey(Whole(s))
  }

  /** The same, only looked into for opened states. */
  ghost predicate Kept(crc: Checksum, s: Progress) {
    forall x: Progress {:trigger Opened(x)} :: Opened(x) && x == s ==> Keeps(crc, x)
  }

  // ---- an entry is added ----

  /** The index entry of the block written last, if it still waits for its key. */
  ghost function IndexWith(s: Progress, r: Key): seq<Pair> {
    if s.pending then s.index + [Pair(r, HandleBytes(s.pendingHandle))] else s.index
  }

  ghost function Added(s: Progress, r: Key, e: Pair): Progress {
    s.(index := IndexWith(s, r), data := s.data + [e], lastKey := e.key, pending := false)
  }

  ghost predicate Separates(s: Progress, r: Key, key: Key) {
    s.pending ==>
      && |r| >= 8 && NotAfter(InternalLess, s.lastKey, r) && InternalLess(r, key)
      && (r == s.lastKey || BytesLess(UserOf(r), UserOf(key)))
  }

  lemma AddedWhole(s: Progress, r: Key, e: Pair)
    ensures Whole(Added(s, r, e)) == WithEntry(Whole(s), e, s.data == [])
    ensures LastKey(Whole(Added(s, r, e))) == e.key
  {
    var parts, more := PartsWritten(s.written), Added(s, r, e);
    assert more.data == s.data + [e] && Whole(more) == parts + [more.data];
    if s.data != [] {
      assert Whole(s)[..|Whole(s)| - 1] == parts && Whole(s)[|Whole(s)| - 1] == s.data;
    } else {
      assert more.data == [e] && Whole(s) == parts;
    }
  }

  lemma AddedIndex(crc: Checksum, s: Progress, r: Key, e: Pair)
    requires Keeps(crc, s) && Separates(s, r, e.key) && |e.key| >= 8
    requires Whole(s) != [] ==> InternalLess(LastKey(Whole(s)), e.key)
    ensures WellSplit(Split(IndexWith(s, r), WithEntry(Whole(s), e, s.data == [])))
    ensures s.pending && s.index != [] ==> InternalLess(s.index[|s.index| - 1].key, r)
  {
    if s.pending {
      KeyAdded(Split(s.index, Whole(s)), Pair(r, HandleBytes(s.pendingHandle)));
    }
    EntryAdded(Split(IndexWith(s, r), Whole(s)), e, s.data == []);
  }

  lemma AddKeeps(crc: Checksum, s: Progress, r: Key, e: Pair)
    requires Kept(crc, s) && Separates(s, r, e.key) && |e.key| >= 8
    requires s.written != [] || s.data != [] ==> InternalLess(s.lastKey, e.key)
    ensures Kept(crc, Added(s, r, e))
    ensures s.pending && s.index != [] ==> InternalLess(s.index[|s.index| - 1].key, r)
  {
    assert Opened(s) && Keeps(crc, s);
    AddedWhole(s, r, e);
    AddedIndex(crc, s, r, e);
  }

  lemma AddedFlat(s: Progress, r: Key, e: Pair)
    ensures Flatten(Whole(Added(s, r, e))) == Flatten(Whole(s)) + [e]
  {
    AddedWhole(s, r, e);
    WithEntryFlat(Whole(s), e, s.data == []);
  }

  lemma NothingAdded(crc: Checksum, s: Progress)
    requires Kept(crc, s)
    ensures Flatten(Whole(s)) == [] <==> s.written == [] && s.data == []
    ensures s.pending ==> s.written != [] && s.data == [] && |s.lastKey| >= 8
    ensures s.data != [] ==> !s.pending && s.lastKey == s.data[|s.data| - 1].key
  {
    assert Opened(s) && Keeps(crc, s);
    var whole := Whole(s);
    if whole != [] {
      LastOfSplit(Split(s.index, whole));
      LastIsLast(whole);
    }
  }

  // ---- the open block is written ----

  ghost function Flushed(crc: Checksum, s: Progress, w: WrittenBlock): Progress {
    s.(file := s.file + RawBlock(crc, w.contents), written := s.written + [w], data := [], pending := true,
       pendingHandle := HandleTo(w))
  }

  lemma FlushedOnFile(crc: Checksum, s: Progress, w: WrittenBlock)
    requires AllOnFile(crc, s.file, s.written) && w.offset == |s.file| && IsBlock(w.contents, w.layout)
    ensures AllOnFile(crc, s.file + RawBlock(crc, w.contents), s.written + [w])
  {
    var more, all := s.file + RawBlock(crc, w.contents), s.written + [w];
    BytesAppended(crc, s.file, w.contents);
    forall b | 0 <= b < |s.written| ensures BytesAt(crc, more, s.written[b].offset, s.written[b].contents) {
      BytesStay(crc, s.file, more, s.written[b].offset, s.written[b].contents);
    }
  }

  lemma FlushKeeps(crc: Checksum, s: Progress, w: WrittenBlock)
    requires Kept(crc, s) && s.data != [] && w.layout.entries == s.data
    requires w.offset == |s.file| && IsBlock(w.contents, w.layout)
    ensures !s.pending && Kept(crc, Flushed(crc, s, w))
  {
    assert Opened(s) && Keeps(crc, s);
    FlushedOnFile(crc, s, w);
    SameWhole(crc, s, w);
  }

  lemma SameWhole(crc: Checksum, s: Progress, w: WrittenBlock)
    requires s.data != [] && w.layout.entries == s.data
    ensures Whole(Flushed(crc, s, w)) == Whole(s)
  {
  }

  // ---- the table is complete ----

  /** The table of a file that begins with the blocks. */
  ghost function TableOf(file: seq<Byte>, verify: bool, crc: Checksum, index: Layout, written: seq<WrittenBlock>)
    : Table
  {
    Table(file, verify, crc, index, Layouts(written))
  }

  lemma SameHandle(crc: Checksum, file: seq<Byte>, a: WrittenBlock, b: WrittenBlock)
    requires BytesAt(crc, file, a.offset, a.contents) && BytesAt(crc, file, b.offset, b.contents)
    requires |file| < 0x1_0000_0000_0000_0000 && HandleBytes(HandleTo(a)) == HandleBytes(HandleTo(b))
    ensures a.offset == b.offset
  {
    HandleLeadsTo(crc, file, a.offset, a.contents, false);
    HandleLeadsTo(crc, file, b.offset, b.contents, false);
  }

  lemma IsTableOf(crc: Checksum, s: Progress, file: seq<Byte>, verify: bool, index: Layout)
    requires AllOnFile(crc, s.file, s.written) && s.file <= file && |file| < 0x1_0000_0000_0000_0000
    requires IndexedBy(index.entries, s.written) && |index.entries| == |s.written|
    ensures IsTable(TableOf(file, verify, crc, index, s.written))
  {
    var t := TableOf(file, verify, crc, index, s.written);
    forall b | 0 <= b < |s.written|
      ensures BytesAt(crc, file, s.written[b].offset, s.written[b].contents) && BlockHeld(t, b)
    {
      BytesStay(crc, s.file, file, s.written[b].offset, s.written[b].contents);
      HandleLeadsTo(crc, file, s.written[b].offset, s.written[b].contents, verify);
    }
    forall a, b | 0 <= a < |s.written| && 0 <= b < |s.written|
      ensures index.entries[a].value == index.entries[b].value ==> t.blocks[a] == t.blocks[b]
    {
      if index.entries[a].value == index.entries[b].value {
        SameHandle(crc, file, s.written[a], s.written[b]);
      }
    }
    assert Held(t);
  }

  lemma PartsInFile(s: Progress, file: seq<Byte>, verify: bool, crc: Checksum, index: Layout)
    requires s.data == []
    ensures Parts(TableOf(file, verify, crc, index, s.written)) == Whole(s)
  {
  }

  lemma CompleteIndex(crc: Checksum, s: Progress, r: Key)
    requires Kept(crc, s) && s.data == []
    requires s.pending ==> |r| >= 8 && NotAfter(InternalLess, s.lastKey, r)
    ensures AllOnFile(crc, s.file, s.written)
    ensures IndexedBy(IndexWith(s, r), s.written) && |IndexWith(s, r)| == |s.written|
    ensures WellSplit(Split(IndexWith(s, r), Whole(s)))
    ensures s.pending && s.index != [] ==> InternalLess(s.index[|s.index| - 1].key, r)
  {
    assert Opened(s) && Keeps(crc, s);
    if s.pending {
      KeyAdded(Split(s.index, Whole(s)), Pair(r, HandleBytes(s.pendingHandle)));
    }
  }

  /** The index with its last entry, over blocks that are all on file. */
  lemma CompleteTable(crc: Checksum, s: Progress, r: Key, file: seq<Byte>, verify: bool, index: Layout)
    requires Kept(crc, s) && s.data == [] && s.file <= file && |file| < 0x1_0000_0000_0000_0000
    requires s.pending ==> |r| >= 8 && NotAfter(InternalLess, s.lastKey, r)
    requires index.entries == IndexWith(s, r)
    ensures IsTable(TableOf(file, verify, crc, index, s.written))
    ensures Searchable(TableOf(file, verify, crc, index, s.written))
    ensures Entries(TableOf(file, verify, crc, index, s.written)) == Flatten(Whole(s))
    ensures s.pending && s.index != [] ==> InternalLess(s.index[|s.index| - 1].key, r)
  {
    CompleteIndex(crc, s, r);
    PartsInFile(s, file, verify, crc, index);
    IsTableOf(crc, s, file, verify, index);
    DividedIsSearchable(TableOf(file, verify, crc, index, s.written));
  }
}
