/** The log reader (db/log_reader.cc), read from the start of the file and checking checksums. */
module LogReader {
  import opened Basics
  import opened Coding
  import opened Checksums
  import opened LogFormat

  /** How far the file is consumed, where the block in the buffer ends, whether it is the last one, and how
      many corruptions have been reported. */
  datatype ReaderState = ReaderState(at: nat, bufferEnd: nat, eof: bool, reports: nat)

  datatype Physical = Fragment(kind: Byte, data: seq<Byte>) | Eof | BadRecord

  predicate Sane(file: seq<Byte>, st: ReaderState) {
    st.at <= st.bufferEnd <= |file|
  }

  /** Reads the next block; fewer bytes than a block are the last ones. */
  function Refill(file: seq<Byte>, st: ReaderState): (r: ReaderState)
    requires Sane(file, st)
    ensures Sane(file, r)
  {
    var end := if st.bufferEnd + BLOCK_SIZE <= |file| then st.bufferEnd + BLOCK_SIZE else |file|;
    ReaderState(st.bufferEnd, end, end - st.bufferEnd < BLOCK_SIZE, st.reports)
  }

  function DropBuffer(st: ReaderState, reported: bool): ReaderState {
    st.(at := st.bufferEnd, reports := if reported then st.reports + 1 else st.reports)
  }

  /** What the bytes at the front of the buffer are. */
  function Parse(crc: Checksum, file: seq<Byte>, st: ReaderState): (r: (Physical, ReaderState))
    requires Sane(file, st) && st.bufferEnd - st.at >= HEADER_SIZE
    ensures Sane(file, r.1) && r.1.bufferEnd == st.bufferEnd && r.1.at > st.at
  {
    var header := file[st.at..];
    var length := header[4] as int + header[5] as int * 0x100;
    var kind := header[6];
    if HEADER_SIZE + length > st.bufferEnd - st.at then
      // The writer may have died before the payload was complete.
      (if st.eof then Eof else BadRecord, DropBuffer(st, !st.eof))
    else if kind == 0 && length == 0 then
      (BadRecord, DropBuffer(st, false))
    else if Unmask(DecodeFixed32(header)) != crc(header[6..HEADER_SIZE + length]) then
      (BadRecord, DropBuffer(st, true))
    else
      (Fragment(kind, header[HEADER_SIZE..HEADER_SIZE + length]), st.(at := st.at + HEADER_SIZE + length))
  }

  function ReadPhysical(crc: Checksum, file: seq<Byte>, st: ReaderState): (r: (Physical, ReaderState))
    requires Sane(file, st)
    ensures Sane(file, r.1) && (!r.0.Eof? ==> r.1.at > st.at)
    decreases |file| - st.bufferEnd, if st.eof then 0 else 1
  {
    if st.bufferEnd - st.at >= HEADER_SIZE then Parse(crc, file, st)
    else if !st.eof then ReadPhysical(crc, file, Refill(file, st))
    else (Eof, DropBuffer(st, false))
  }

  function Reported(st: ReaderState, reported: bool): ReaderState {
    if reported then st.(reports := st.reports + 1) else st
  }

  /** What a fragment does to the record being put together; `bad` asks for a report. */
  datatype Assembly = Assembly(bad: bool, inFragment: bool, scratch: seq<Byte>, record: Option<seq<Byte>>)

  function Assemble(physical: Physical, inFragment: bool, scratch: seq<Byte>): Assembly
    requires !physical.Eof?
  {
    if physical.BadRecord? then Assembly(inFragment, false, if inFragment then [] else scratch, None)
    else if physical.kind == FULL then Assembly(inFragment && scratch != [], inFragment, scratch, Some(physical.data))
    else if physical.kind == FIRST then Assembly(inFragment && scratch != [], true, physical.data, None)
    else if physical.kind == MIDDLE then
      Assembly(!inFragment, inFragment, if inFragment then scratch + physical.data else scratch, None)
    else if physical.kind == LAST then
      Assembly(!inFragment, inFragment, scratch, if inFragment then Some(scratch + physical.data) else None)
    else Assembly(true, false, [], None)
  }

  /** Puts fragments together to the next record; None at the end of the file. */
  function NextRecord(crc: Checksum, file: seq<Byte>, st: ReaderState, inFragment: bool, scratch: seq<Byte>)
    : (r: (Option<seq<Byte>>, ReaderState))
    requires Sane(file, st)
    ensures Sane(file, r.1)
    ensures r.0.Some? ==> r.1.at > st.at
    decreases |file| - st.at
  {
    var (physical, st1) := ReadPhysical(crc, file, st);
    if physical.Eof? then (None, st1)
    else
      var a := Assemble(physical, inFragment, scratch);
      if a.record.Some? then (a.record, Reported(st1, a.bad))
      else NextRecord(crc, file, Reported(st1, a.bad), a.inFragment, a.scratch)
  }

  /** The rest of the loop that reads a record ends with `r`; only looked into for opened states. */
  ghost predicate Reads(crc: Checksum, file: seq<Byte>, st: ReaderState, inFragment: bool, scratch: seq<Byte>,
                        r: (Option<seq<Byte>>, ReaderState)) {
    Sane(file, st) &&
    forall x: ReaderState {:trigger Opened(x)} ::
      Opened(x) && x == st ==> NextRecord(crc, file, x, inFragment, scratch) == r
  }

  /** One turn of that loop. */
  lemma ReadsOn(crc: Checksum, file: seq<Byte>, st: ReaderState, inFragment: bool, scratch: seq<Byte>,
                r: (Option<seq<Byte>>, ReaderState), physical: Physical, st1: ReaderState)
    requires Reads(crc, file, st, inFragment, scratch, r) && ReadPhysical(crc, file, st) == (physical, st1)
    ensures physical.Eof? ==> r == (None, st1)
    ensures !physical.Eof? ==>
      var a := Assemble(physical, inFragment, scratch);
      if a.record.Some? then r == (a.record, Reported(st1, a.bad))
      else Reads(crc, file, Reported(st1, a.bad), a.inFragment, a.scratch, r)
  {
    assert Opened(st) && NextRecord(crc, file, st, inFragment, scratch) == r;
  }

  /** All records up to the end of the file. */
  function AllRecords(crc: Checksum, file: seq<Byte>, st: ReaderState): (r: (seq<seq<Byte>>, ReaderState))
    requires Sane(file, st)
    decreases |file| - st.at
  {
    var (record, st1) := NextRecord(crc, file, st, false, []);
    if record.None? then ([], st1)
    else
      var (rest, end) := AllRecords(crc, file, st1);
      ([record.value] + rest, end)
  }

  function Start(): ReaderState {
    ReaderState(0, 0, false, 0)
  }

  class Reader {
    const crc: Checksum
    const file: seq<Byte>
    /** The buffer is the part of the file from `at` up to `endOfBufferOffset`. */
    var at: nat
    var endOfBufferOffset: nat
    var eof: bool
    var reports: nat

    ghost predicate Valid()
      reads this
    {
      at <= endOfBufferOffset <= |file|
    }

    ghost function State(): (st: ReaderState)
      requires Valid()
      reads this
      ensures Sane(file, st)
    {
      ReaderState(at, endOfBufferOffset, eof, reports)
    }

    constructor (crc: Checksum, file: seq<Byte>)
      ensures Valid() && State() == Start() && this.crc == crc && this.file == file
    {
      this.crc, this.file := crc, file;
      at, endOfBufferOffset, eof, reports := 0, 0, false, 0;
    }

    method ClearBuffer()
      requires Valid()
      modifies this`at
      ensures Valid() && at == endOfBufferOffset
    {
      at := endOfBufferOffset;
    }

    method ReportCorruption()
      modifies this`reports
      ensures reports == old(reports) + 1
    {
      reports := reports + 1;
    }

    method ReadBlock()
      requires Valid() && !eof
      modifies this
      ensures Valid() && State() == Refill(file, old(State()))
    {
      ClearBuffer();
      endOfBufferOffset := if endOfBufferOffset + BLOCK_SIZE <= |file| then endOfBufferOffset + BLOCK_SIZE else |file|;
      if endOfBufferOffset - at < BLOCK_SIZE {
        eof := true;
      }
    }

    method ParseHeader() returns (result: Physical)
      requires Valid() && endOfBufferOffset - at >= HEADER_SIZE
      modifies this`at, this`reports
      ensures Valid() && (result, State()) == Parse(crc, file, old(State()))
    {
      var header := file[at..];
      var length := header[4] as int + header[5] as int * 0x100;
      var kind := header[6];
      if HEADER_SIZE + length > endOfBufferOffset - at {
        ClearBuffer();
        if !eof {
          ReportCorruption();
          return BadRecord;
        }
        return Eof;
      }
      if kind == 0 && length == 0 {
        ClearBuffer();
        return BadRecord;
      }
      if Unmask(DecodeFixed32(header)) != crc(header[6..HEADER_SIZE + length]) {
        ClearBuffer();
        ReportCorruption();
        return BadRecord;
      }
      at := at + HEADER_SIZE + length;
      return Fragment(kind, header[HEADER_SIZE..HEADER_SIZE + length]);
    }

    method ReadPhysicalRecord() returns (result: Physical)
      requires Valid()
      modifies this
      ensures Valid() && (result, State()) == ReadPhysical(crc, file, old(State()))
    {
      ghost var goal := ReadPhysical(crc, file, State());
      while endOfBufferOffset - at < HEADER_SIZE
        invariant Valid() && ReadPhysical(crc, file, State()) == goal
        decreases |file| - endOfBufferOffset, if eof then 0 else 1
      {
        if eof {
          ClearBuffer();
          return Eof;
        }
        ReadBlock();
      }
      result := ParseHeader();
    }

    method ReadRecord() returns (record: Option<seq<Byte>>)
      requires Valid()
      modifies this
      ensures Valid() && (record, State()) == NextRecord(crc, file, old(State()), false, [])
    {
      var scratch: seq<Byte> := [];
      var inFragment := false;
      record := None;
      ghost var goal := NextRecord(crc, file, State(), false, []);
      while true
        invariant Valid() && record.None? && Reads(crc, file, State(), inFragment, scratch, goal)
        decreases |file| - at
      {
        ghost var st := State();
        var physical := ReadPhysicalRecord();
        ReadsOn(crc, file, st, inFragment, scratch, goal, physical, State());
        if physical.Eof? {
          return None;
        }
        var a := Assemble(physical, inFragment, scratch);
        inFragment, scratch, record := a.inFragment, a.scratch, a.record;
        if a.bad {
          ReportCorruption();
        }
        if record.Some? {
          assert (record, State()) == goal;
          return;
        }
      }
    }
  }
}
