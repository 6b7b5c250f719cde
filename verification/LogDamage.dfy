/** What the log reader makes of any file at all, and how the writer fills its blocks (db/log_reader.cc,
    db/log_writer.cc): nothing damaged is returned, and nothing is lost without a report. */
module LogDamage {
  import opened Basics
  import opened Coding
  import opened Checksums
  import opened LogFormat
  import opened LogReader

  // ---- fragments in a file ----

  /** At `at` the file has this data as the writer emits it. */
  ghost predicate Framed(crc: Checksum, file: seq<Byte>, at: nat, kind: Byte, data: seq<Byte>) {
    && |data| < 0x1_0000 && at + HEADER_SIZE + |data| <= |file|
    && file[at..at + HEADER_SIZE + |data|] == Emit(crc, kind, data)
  }

  datatype Part = Part(at: nat, data: seq<Byte>)

  function Payload(fragments: seq<Part>): seq<Byte> {
    if fragments == [] then [] else Payload(fragments[..|fragments| - 1]) + fragments[|fragments| - 1].data
  }

  /** The fragments lie one after the other, the last one before `end`. */
  ghost predicate InOrder(fragments: seq<Part>, end: nat) {
    && (forall i :: 0 <= i < |fragments| ==> fragments[i].at + HEADER_SIZE + |fragments[i].data| <= end)
    && forall i, j :: 0 <= i < j < |fragments| ==>
         fragments[i].at + HEADER_SIZE + |fragments[i].data| <= fragments[j].at
  }

  /** The beginning of a record, in as many fragments. */
  ghost predicate Begun(crc: Checksum, file: seq<Byte>, fragments: seq<Part>, end: nat) {
    && fragments != [] && InOrder(fragments, end)
    && forall i :: 0 <= i < |fragments| ==>
         Framed(crc, file, fragments[i].at, if i == 0 then FIRST else MIDDLE, fragments[i].data)
  }

  /** A whole record: one fragment that says so, or a first one, any number between, and a last one. */
  ghost predicate IsRecord(crc: Checksum, file: seq<Byte>, fragments: seq<Part>, end: nat) {
    fragments != [] && InOrder(fragments, end) &&
    var last := fragments[|fragments| - 1];
    if |fragments| == 1 then Framed(crc, file, last.at, FULL, last.data)
    else Begun(crc, file, fragments[..|fragments| - 1], end) && Framed(crc, file, last.at, LAST, last.data)
  }

  // ---- one physical record ----

  function DataLength(file: seq<Byte>, at: nat): nat
    requires at + HEADER_SIZE <= |file|
  {
    file[at + 4] as int + 0x100 * file[at + 5] as int
  }

  /** A header that is there in full but whose data runs over the end of the block. */
  ghost predicate RunsOver(file: seq<Byte>, at: nat, end: nat) {
    at + HEADER_SIZE <= end <= |file| && at + HEADER_SIZE + DataLength(file, at) > end
  }

  ghost predicate WrongChecksum(crc: Checksum, file: seq<Byte>, at: nat) {
    at + HEADER_SIZE <= |file| &&
    var end := at + HEADER_SIZE + DataLength(file, at);
    end <= |file| && Unmask(DecodeFixed32(file[at..])) != crc(file[at + 6..end])
  }

  ghost predicate ZeroHeader(file: seq<Byte>, at: nat) {
    at + HEADER_SIZE <= |file| && file[at + 4] == file[at + 5] == file[at + 6] == 0
  }

  /** What is returned was framed; a bad record is reported with its cause, but for preallocated zeroes. */
  lemma {:induction false} PhysicalIsSound(crc: Checksum, file: seq<Byte>, st: ReaderState)
    returns (at: nat)
    requires Sane(file, st)
    ensures var (physical, next) := ReadPhysical(crc, file, st);
      match physical
      case Fragment(kind, data) =>
        && st.at <= at && Framed(crc, file, at, kind, data) && next.at == at + HEADER_SIZE + |data|
        && next.reports == st.reports
      case Eof => next.reports == st.reports
      case BadRecord =>
        if next.reports == st.reports then ZeroHeader(file, at)
        else
          && next.reports == st.reports + 1
          && (WrongChecksum(crc, file, at) || exists end :: RunsOver(file, at, end))
    decreases |file| - st.bufferEnd, if st.eof then 0 else 1
  {
    if st.bufferEnd - st.at >= HEADER_SIZE {
      at := st.at;
      ParseIsSound(crc, file, st);
    } else if !st.eof {
      at := PhysicalIsSound(crc, file, Refill(file, st));
    } else {
      at := 0;
    }
  }

  lemma ParseIsSound(crc: Checksum, file: seq<Byte>, st: ReaderState)
    requires Sane(file, st) && st.bufferEnd - st.at >= HEADER_SIZE
    ensures var (physical, next) := Parse(crc, file, st);
      match physical
      case Fragment(kind, data) =>
        Framed(crc, file, st.at, kind, data) && next.at == st.at + HEADER_SIZE + |data| && next.reports == st.reports
      case Eof => next.reports == st.reports
      case BadRecord =>
        if next.reports == st.reports then ZeroHeader(file, st.at)
        else
          && next.reports == st.reports + 1
          && (WrongChecksum(crc, file, st.at) || RunsOver(file, st.at, st.bufferEnd))
  {
    var header := file[st.at..];
    var length := header[4] as int + header[5] as int * 0x100;
    if HEADER_SIZE + length <= st.bufferEnd - st.at {
      assert header[6..HEADER_SIZE + length] == file[st.at + 6..st.at + HEADER_SIZE + length];
      if Unmask(DecodeFixed32(header)) == crc(header[6..HEADER_SIZE + length]) {
        FrameIsWhole(crc, file, st.at, length);
        assert header[HEADER_SIZE..HEADER_SIZE + length] == file[st.at + HEADER_SIZE..st.at + HEADER_SIZE + length];
      }
    }
  }

  /** A header with the right checksum is the one that is emitted for the data behind it. */
  lemma FrameIsWhole(crc: Checksum, file: seq<Byte>, at: nat, length: nat)
    requires at + HEADER_SIZE + length <= |file| && length == DataLength(file, at)
    requires Unmask(DecodeFixed32(file[at..])) == crc(file[at + 6..at + HEADER_SIZE + length])
    ensures Framed(crc, file, at, file[at + 6], file[at + HEADER_SIZE..at + HEADER_SIZE + length])
  {
    var kind, data := file[at + 6], file[at + HEADER_SIZE..at + HEADER_SIZE + length];
    assert file[at + 6..at + HEADER_SIZE + length] == [kind] + data;
    Fixed32OfDecoded(file[at..]);
    MaskUnmask(DecodeFixed32(file[at..]));
    assert file[at..][..4] == file[at..at + 4];
    assert length % 0x100 == file[at + 4] as int && length / 0x100 == file[at + 5] as int;
    assert file[at..at + HEADER_SIZE + length]
        == file[at..at + 4] + [file[at + 4], file[at + 5]] + [kind] + data;
  }

  // ---- records ----

  /** What the loop has put together so far. */
  ghost predicate Gathered(crc: Checksum, file: seq<Byte>, inFragment: bool, scratch: seq<Byte>,
                           fragments: seq<Part>, end: nat) {
    if inFragment then Begun(crc, file, fragments, end) && scratch == Payload(fragments) else fragments == []
  }

  lemma AlonePart(crc: Checksum, file: seq<Byte>, part: Part, end: nat)
    requires part.at + HEADER_SIZE + |part.data| <= end
    ensures Payload([part]) == part.data
    ensures Framed(crc, file, part.at, FIRST, part.data) ==> Begun(crc, file, [part], end)
    ensures Framed(crc, file, part.at, FULL, part.data) ==> IsRecord(crc, file, [part], end)
  {
    assert [part][..0] == [] && [] + part.data == part.data;
  }

  lemma OnePartMore(crc: Checksum, file: seq<Byte>, fragments: seq<Part>, part: Part, start: nat, end: nat)
    requires Begun(crc, file, fragments, start) && start <= part.at && part.at + HEADER_SIZE + |part.data| <= end
    ensures Payload(fragments + [part]) == Payload(fragments) + part.data
    ensures Framed(crc, file, part.at, MIDDLE, part.data) ==> Begun(crc, file, fragments + [part], end)
    ensures Framed(crc, file, part.at, LAST, part.data) ==> IsRecord(crc, file, fragments + [part], end)
  {
    var more := fragments + [part];
    assert more[..|fragments|] == fragments;
    assert InOrder(more, end);
    assert Begun(crc, file, fragments, end);
  }

  /** One more fragment, or something that is none. */
  lemma AssembledIsSound(crc: Checksum, file: seq<Byte>, physical: Physical, inFragment: bool, scratch: seq<Byte>,
                         fragments: seq<Part>, at: nat, start: nat, end: nat)
    returns (kept: seq<Part>, whole: seq<Part>)
    requires !physical.Eof? && Gathered(crc, file, inFragment, scratch, fragments, start) && start <= end
    requires physical.Fragment? ==>
      start <= at && at + HEADER_SIZE + |physical.data| <= end && Framed(crc, file, at, physical.kind, physical.data)
    ensures var a := Assemble(physical, inFragment, scratch);
      && (a.record.Some? ==> IsRecord(crc, file, whole, end) && a.record.value == Payload(whole))
      && (a.record.None? ==> Gathered(crc, file, a.inFragment, a.scratch, kept, end))
  {
    kept, whole := [], [];
    if physical.Fragment? {
      var part := Part(at, physical.data);
      AlonePart(crc, file, part, end);
      if physical.kind == FULL {
        whole := [part];
      } else if physical.kind == FIRST {
        kept := [part];
      } else if inFragment && (physical.kind == MIDDLE || physical.kind == LAST) {
        OnePartMore(crc, file, fragments, part, start, end);
        kept, whole := fragments + [part], fragments + [part];
      }
    }
  }

  /** Whatever the file holds, a record that is read consists of fragments with right checksums, in the right order
      of kinds. */
  lemma {:induction false} OneRecordIsSound(crc: Checksum, file: seq<Byte>, st: ReaderState, inFragment: bool,
                                            scratch: seq<Byte>, fragments: seq<Part>)
    returns (whole: seq<Part>)
    requires Sane(file, st) && Gathered(crc, file, inFragment, scratch, fragments, st.at)
    ensures var (record, next) := NextRecord(crc, file, st, inFragment, scratch);
      record.Some? ==> IsRecord(crc, file, whole, next.at) && record.value == Payload(whole)
    decreases |file| - st.at
  {
    var at := PhysicalIsSound(crc, file, st);
    var (physical, st1) := ReadPhysical(crc, file, st);
    whole := [];
    if !physical.Eof? {
      var a := Assemble(physical, inFragment, scratch);
      var kept, done := AssembledIsSound(crc, file, physical, inFragment, scratch, fragments, at, st.at, st1.at);
      if a.record.Some? {
        whole := done;
      } else {
        whole := OneRecordIsSound(crc, file, Reported(st1, a.bad), a.inFragment, a.scratch, kept);
      }
    }
  }

  ghost predicate Sound(crc: Checksum, file: seq<Byte>, record: seq<Byte>) {
    exists fragments :: IsRecord(crc, file, fragments, |file|) && record == Payload(fragments)
  }

  lemma {:induction false} ReadRecordsAreSound(crc: Checksum, file: seq<Byte>, st: ReaderState)
    requires Sane(file, st)
    ensures forall record :: record in AllRecords(crc, file, st).0 ==> Sound(crc, file, record)
    decreases |file| - st.at
  {
    var (record, st1) := NextRecord(crc, file, st, false, []);
    if record.Some? {
      var whole := OneRecordIsSound(crc, file, st, false, [], []);
      EndsInFile(crc, file, whole, st1.at);
      assert Sound(crc, file, record.value);
      ReadRecordsAreSound(crc, file, st1);
    }
  }

  lemma EndsInFile(crc: Checksum, file: seq<Byte>, whole: seq<Part>, end: nat)
    requires IsRecord(crc, file, whole, end) && end <= |file|
    ensures IsRecord(crc, file, whole, |file|)
  {
  }

  /** Reading a whole file, damaged or not, gives nothing but records that are there with right checksums. */
  lemma NothingDamagedIsReturned(crc: Checksum, file: seq<Byte>, record: seq<Byte>)
    requires record in AllRecords(crc, file, Start()).0
    ensures Sound(crc, file, record)
  {
    ReadRecordsAreSound(crc, file, Start());
  }

  // ---- reports ----

  /** The data of all fragments that are read on the way to the next record. */
  ghost function DataRead(crc: Checksum, file: seq<Byte>, st: ReaderState, inFragment: bool, scratch: seq<Byte>)
    : seq<Byte>
    requires Sane(file, st)
    decreases |file| - st.at
  {
    var (physical, st1) := ReadPhysical(crc, file, st);
    if physical.Eof? then []
    else
      var a := Assemble(physical, inFragment, scratch);
      DataOf(physical) +
      if a.record.Some? then [] else DataRead(crc, file, Reported(st1, a.bad), a.inFragment, a.scratch)
  }

  function DataOf(physical: Physical): seq<Byte> {
    if physical.Fragment? then physical.data else []
  }

  lemma PhysicalReports(crc: Checksum, file: seq<Byte>, st: ReaderState)
    requires Sane(file, st)
    ensures ReadPhysical(crc, file, st).1.reports >= st.reports
    decreases |file| - st.bufferEnd, if st.eof then 0 else 1
  {
    if st.bufferEnd - st.at < HEADER_SIZE && !st.eof {
      PhysicalReports(crc, file, Refill(file, st));
    }
  }

  lemma {:induction false} ReportsGrow(crc: Checksum, file: seq<Byte>, st: ReaderState, inFragment: bool,
                                       scratch: seq<Byte>)
    requires Sane(file, st)
    ensures NextRecord(crc, file, st, inFragment, scratch).1.reports >= st.reports
    decreases |file| - st.at
  {
    PhysicalReports(crc, file, st);
    var (physical, st1) := ReadPhysical(crc, file, st);
    if !physical.Eof? {
      var a := Assemble(physical, inFragment, scratch);
      if a.record.None? {
        ReportsGrow(crc, file, Reported(st1, a.bad), a.inFragment, a.scratch);
      }
    }
  }

  /** A fragment that asks for no report is kept in full. */
  lemma AssembledInFull(physical: Physical, inFragment: bool, scratch: seq<Byte>)
    requires !physical.Eof? && (!inFragment ==> scratch == [])
    ensures var a := Assemble(physical, inFragment, scratch);
      a.bad || (
        && (a.record.Some? ==> a.record.value == scratch + DataOf(physical))
        && (a.record.None? ==> a.scratch == scratch + DataOf(physical) && (!a.inFragment ==> a.scratch == [])))
  {
  }

  /** Unless there was a report, a record that is read is this data. */
  ghost predicate KeptInFull(r: (Option<seq<Byte>>, ReaderState), reports: nat, data: seq<Byte>) {
    r.0.Some? && r.1.reports == reports ==> r.0.value == data
  }

  lemma KeptOn(r: (Option<seq<Byte>>, ReaderState), before: nat, reports: nat, scratch: seq<Byte>, data: seq<Byte>,
               rest: seq<Byte>)
    requires before <= reports <= r.1.reports && KeptInFull(r, reports, (scratch + data) + rest)
    ensures KeptInFull(r, before, scratch + (data + rest))
  {
    assert (scratch + data) + rest == scratch + (data + rest);
  }

  /** When nothing is reported on the way to a record, the record is all the data that was read. */
  lemma {:induction false} NothingIsLostSilently(crc: Checksum, file: seq<Byte>, st: ReaderState, inFragment: bool,
                                                 scratch: seq<Byte>)
    requires Sane(file, st) && (!inFragment ==> scratch == [])
    ensures KeptInFull(NextRecord(crc, file, st, inFragment, scratch), st.reports,
                       scratch + DataRead(crc, file, st, inFragment, scratch))
    decreases |file| - st.at
  {
    PhysicalReports(crc, file, st);
    var (physical, st1) := ReadPhysical(crc, file, st);
    if !physical.Eof? {
      var a := Assemble(physical, inFragment, scratch);
      AssembledInFull(physical, inFragment, scratch);
      if a.record.None? {
        var next := Reported(st1, a.bad);
        ReportsGrow(crc, file, next, a.inFragment, a.scratch);
        if !a.bad {
          NothingIsLostSilently(crc, file, next, a.inFragment, a.scratch);
          KeptOn(NextRecord(crc, file, next, a.inFragment, a.scratch), st.reports, next.reports, scratch,
                 DataOf(physical), DataRead(crc, file, next, a.inFragment, a.scratch));
        }
      }
    }
  }

  // ---- how blocks are filled ----

  /** Written from offset `b` of a block on, the pieces end where a block does. */
  ghost predicate FillsBlocks(crc: Checksum, b: nat, pieces: seq<Piece>) {
    pieces != [] ==> (b + |Bytes(crc, pieces)|) % BLOCK_SIZE == 0
  }

  /** Every fragment of a record but the last one ends at the end of a block, and what is left out before a header is
      shorter than a header. */
  lemma {:induction false} FragmentsFillBlocks(crc: Checksum, b: nat, data: seq<Byte>, begin: bool, k: nat)
    requires b <= BLOCK_SIZE && k < |Fragments(b, data, begin)|
    ensures Fragments(b, data, begin)[k].pad < HEADER_SIZE
    ensures FillsBlocks(crc, b, Fragments(b, data, begin)[..k])
    decreases |data|, if b + HEADER_SIZE == BLOCK_SIZE then 1 else 0
  {
    if k > 0 {
      var first, n := FirstPiece(b, data, begin), FragmentLength(b, |data|);
      var rest := Fragments(HeaderAt(b) + HEADER_SIZE + n, data[n..], false);
      assert Fragments(b, data, begin) == [first] + rest;
      FragmentsFillBlocks(crc, BLOCK_SIZE, data[n..], false, k - 1);
      assert ([first] + rest)[..k] == [first] + rest[..k - 1];
      PieceFills(crc, b, data, begin);
      MoreFills(crc, b, first, rest[..k - 1]);
    }
  }

  lemma MoreFills(crc: Checksum, b: nat, first: Piece, more: seq<Piece>)
    requires FillsBlocks(crc, b, [first]) && FillsBlocks(crc, BLOCK_SIZE, more)
    ensures FillsBlocks(crc, b, [first] + more)
  {
    BytesJoin(crc, [first], more);
    WholeBlocks(b + |Bytes(crc, [first])|, |Bytes(crc, more)|);
  }

  /** A fragment that is not the last one of its record ends where the block does. */
  lemma PieceFills(crc: Checksum, b: nat, data: seq<Byte>, begin: bool)
    requires b <= BLOCK_SIZE && FragmentLength(b, |data|) < |data|
    ensures FillsBlocks(crc, b, [FirstPiece(b, data, begin)])
  {
    var first := FirstPiece(b, data, begin);
    assert [first][1..] == [] && PieceBytes(crc, first) + [] == PieceBytes(crc, first);
    assert |first.data| == Available(b);
    assert b + |PieceBytes(crc, first)| == if BLOCK_SIZE - b < HEADER_SIZE then 2 * BLOCK_SIZE else BLOCK_SIZE;
  }

  lemma WholeBlocks(end: nat, more: nat)
    requires end % BLOCK_SIZE == 0 && (BLOCK_SIZE + more) % BLOCK_SIZE == 0
    ensures (end + more) % BLOCK_SIZE == 0
  {
  }
}
