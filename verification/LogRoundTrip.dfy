/** Whatever byte a written log is cut off at, reading it gives the records that are wholly there, in order,
    and reports nothing. */
module LogRoundTrip {
  import opened Basics
  import opened Coding
  import opened Checksums
  import opened LogFormat
  import opened LogReader

  /** Pieces as the writer lays them out from offset `b` of a block on. */
  ghost predicate WellLaid(b: nat, pieces: seq<Piece>)
    decreases |pieces|
  {
    pieces != [] ==>
    && b <= BLOCK_SIZE && pieces[0].pad == Pad(b) && FULL <= pieces[0].kind <= LAST
    && HeaderAt(b) + HEADER_SIZE + |pieces[0].data| <= BLOCK_SIZE
    && WellLaid(HeaderAt(b) + HEADER_SIZE + |pieces[0].data|, pieces[1..])
  }

  lemma ConsJoin<T>(x: T, tail: seq<T>, rest: seq<T>)
    ensures (([x] + tail) + rest)[0] == x && (([x] + tail) + rest)[1..] == tail + rest
  {
  }

  /** What comes after the first piece of a record. */
  ghost function AfterFirst(b: nat, data: seq<Byte>, rest: seq<Piece>): seq<Piece>
    requires b <= BLOCK_SIZE
  {
    var n := FragmentLength(b, |data|);
    if n == |data| then rest else Fragments(HeaderAt(b) + HEADER_SIZE + n, data[n..], false) + rest
  }

  lemma FirstSplits(b: nat, data: seq<Byte>, begin: bool, rest: seq<Piece>)
    requires b <= BLOCK_SIZE
    ensures var all := Fragments(b, data, begin) + rest;
      all[0] == FirstPiece(b, data, begin) && all[1..] == AfterFirst(b, data, rest)
  {
    var n := FragmentLength(b, |data|);
    var first := FirstPiece(b, data, begin);
    if n == |data| {
      ConsJoin(first, [], rest);
      assert [first] + [] == [first] && [] + rest == rest;
    } else {
      ConsJoin(first, Fragments(HeaderAt(b) + HEADER_SIZE + n, data[n..], false), rest);
    }
  }

  lemma {:induction false} FragmentsAreLaid(b: nat, data: seq<Byte>, begin: bool, rest: seq<Piece>)
    requires b <= BLOCK_SIZE && WellLaid(EndOffset(b, data), rest)
    ensures WellLaid(b, Fragments(b, data, begin) + rest)
    decreases |data|, if b + HEADER_SIZE == BLOCK_SIZE then 1 else 0
  {
    var n := FragmentLength(b, |data|);
    FirstSplits(b, data, begin, rest);
    if n < |data| {
      FragmentsAreLaid(HeaderAt(b) + HEADER_SIZE + n, data[n..], false, rest);
    }
  }

  lemma {:induction false} AllAreLaid(b: nat, records: seq<seq<Byte>>)
    requires b <= BLOCK_SIZE
    ensures WellLaid(b, AllPieces(b, records))
    decreases |records|
  {
    if records != [] {
      AllAreLaid(EndOffset(b, records[0]), records[1..]);
      FragmentsAreLaid(b, records[0], true, AllPieces(EndOffset(b, records[0]), records[1..]));
    }
  }

  /** The reader of the first `n` bytes of a file stands where `pieces` are still to come, at offset `b` of
      a block. Its buffer goes to the end of that block or to the end of what is there of the file. */
  ghost predicate Positioned(crc: Checksum, full: seq<Byte>, n: nat, st: ReaderState, b: nat, pieces: seq<Piece>) {
    && n <= |full| && st.at <= st.bufferEnd <= n
    && full[st.at..] == Bytes(crc, pieces) && WellLaid(b, pieces) && b <= BLOCK_SIZE &&
       st.at % BLOCK_SIZE == b % BLOCK_SIZE
    && st.bufferEnd <= st.at - st.at % BLOCK_SIZE + BLOCK_SIZE
    && (if st.eof then st.bufferEnd == n else st.bufferEnd % BLOCK_SIZE == 0)
  }

  /** The rest of the file starts with the header and the payload of the next piece. */
  lemma HeaderRead(crc: Checksum, full: seq<Byte>, at: nat, kind: Byte, data: seq<Byte>, rest: seq<Byte>)
    requires at <= |full| && |data| < 0x1_0000 && full[at..] == Emit(crc, kind, data) + rest
    ensures at + HEADER_SIZE + |data| <= |full|
    ensures full[at + 4] as int + full[at + 5] as int * 0x100 == |data| && full[at + 6] == kind
    ensures Unmask(DecodeFixed32(full[at..])) == crc([kind] + data)
    ensures full[at + 6..at + HEADER_SIZE + |data|] == [kind] + data
    ensures full[at + HEADER_SIZE..at + HEADER_SIZE + |data|] == data
  {
    var tail := full[at..];
    var masked := Fixed32(Mask(crc([kind] + data)));
    var after := [|data| % 0x100, |data| / 0x100] + [kind] + data + rest;
    assert tail == masked + after;
    Fixed32RoundTrip(Mask(crc([kind] + data)), after);
    UnmaskMask(crc([kind] + data));
    assert full[at + 4] == tail[4] == |data| % 0x100 && full[at + 5] == tail[5] == |data| / 0x100 &&
      full[at + 6] == tail[6];
    assert full[at + 6..at + HEADER_SIZE + |data|] == tail[6..HEADER_SIZE + |data|] == [kind] + data;
    assert full[at + HEADER_SIZE..at + HEADER_SIZE + |data|] == tail[HEADER_SIZE..HEADER_SIZE + |data|] == data;
  }

  /** Parsing at a header: the piece, or the end of the file if the cut is inside the piece. */
  lemma ParseAt(crc: Checksum, full: seq<Byte>, n: nat, st: ReaderState, b: nat, pieces: seq<Piece>)
    requires Positioned(crc, full, n, st, b, pieces) && st.bufferEnd - st.at >= HEADER_SIZE
    ensures pieces != [] && pieces[0].pad == 0
    ensures var r := Parse(crc, full[..n], st);
      && r.1.reports == st.reports
      && if st.at + |PieceBytes(crc, pieces[0])| <= n then
           && r.0 == Fragment(pieces[0].kind, pieces[0].data)
           && r.1 == st.(at := st.at + |PieceBytes(crc, pieces[0])|)
         else r.0 == Eof
  {
    assert pieces != [] by {
      assert |full[st.at..]| > 0;
    }
    var piece := pieces[0];
    var size := HEADER_SIZE + |piece.data|;
    NoPad(st.at, st.bufferEnd, b);
    assert PieceBytes(crc, piece) == Emit(crc, piece.kind, piece.data);
    HeaderRead(crc, full, st.at, piece.kind, piece.data, Bytes(crc, pieces[1..]));
    HeaderInPrefix(full, n, st.at, st.bufferEnd, size);
    if !st.eof {
      BoundaryAbove(st.at, st.bufferEnd);
    }
  }

  lemma NoPad(at: nat, end: nat, b: nat)
    requires b <= BLOCK_SIZE && at % BLOCK_SIZE == b % BLOCK_SIZE
    requires at + HEADER_SIZE <= end <= at - at % BLOCK_SIZE + BLOCK_SIZE
    ensures Pad(b) == 0 && HeaderAt(b) == at % BLOCK_SIZE
  {
    if b == BLOCK_SIZE {
    }
  }

  /** A block boundary after a position is at least a whole rest of the block away. */
  lemma BoundaryAbove(at: nat, end: nat)
    requires at < end && end % BLOCK_SIZE == 0
    ensures end >= at - at % BLOCK_SIZE + BLOCK_SIZE
  {
    var k := end / BLOCK_SIZE;
    assert end == k * BLOCK_SIZE && at / BLOCK_SIZE < k;
  }

  lemma HeaderInPrefix(full: seq<Byte>, n: nat, at: nat, end: nat, size: nat)
    requires at + HEADER_SIZE <= end <= n <= |full| && HEADER_SIZE <= size
    ensures var header := full[..n][at..];
      && header[4] == full[at + 4] && header[5] == full[at + 5] && header[6] == full[at + 6]
      && DecodeFixed32(header) == DecodeFixed32(full[at..])
      && (at + size <= end ==>
            && header[6..size] == full[at + 6..at + size]
            && header[HEADER_SIZE..size] == full[at + HEADER_SIZE..at + size])
  {
    var header := full[..n][at..];
    assert forall i :: 0 <= i < |header| ==> header[i] == full[at + i] == full[at..][i];
  }

  /** Reading the next block: past what is too short for a header. */
  lemma RefillAt(crc: Checksum, full: seq<Byte>, n: nat, st: ReaderState, b: nat, pieces: seq<Piece>)
    requires Positioned(crc, full, n, st, b, pieces) && st.bufferEnd - st.at < HEADER_SIZE && !st.eof
    ensures var st' := Refill(full[..n], st);
      if pieces == [] then Positioned(crc, full, n, st', 0, [])
      else
        var rest := [pieces[0].(pad := 0)] + pieces[1..];
        && Positioned(crc, full, n, st', 0, rest)
        && st'.at + |PieceBytes(crc, rest[0])| == st.at + |PieceBytes(crc, pieces[0])|
  {
    SkipsPad(st.at, st.bufferEnd, b);
    RefillEnds(full[..n], st);
    if pieces == [] {
      assert st.at == |full| && st.bufferEnd == st.at;
    } else {
      PaddedBytes(crc, full, st.at, pieces[0], Bytes(crc, pieces[1..]));
      WithoutPad(crc, b, pieces);
    }
  }

  lemma RefillEnds(file: seq<Byte>, st: ReaderState)
    requires Sane(file, st) && st.bufferEnd % BLOCK_SIZE == 0
    ensures var r := Refill(file, st);
      && r.at == st.bufferEnd && r.at % BLOCK_SIZE == 0 && r.at <= r.bufferEnd <= r.at + BLOCK_SIZE &&
         r.reports == st.reports
      && if r.eof then r.bufferEnd == |file| else r.bufferEnd % BLOCK_SIZE == 0
  {
  }

  lemma WithoutPad(crc: Checksum, b: nat, pieces: seq<Piece>)
    requires pieces != [] && WellLaid(b, pieces) && HeaderAt(b) == 0
    ensures var rest := [pieces[0].(pad := 0)] + pieces[1..];
      WellLaid(0, rest) && Bytes(crc, rest) == PieceBytes(crc, rest[0]) + Bytes(crc, pieces[1..])
  {
    var rest := [pieces[0].(pad := 0)] + pieces[1..];
    assert rest[1..] == pieces[1..];
  }

  lemma SkipsPad(at: nat, end: nat, b: nat)
    requires b <= BLOCK_SIZE && at % BLOCK_SIZE == b % BLOCK_SIZE && at <= end < at + HEADER_SIZE
    requires end % BLOCK_SIZE == 0
    ensures end == at + Pad(b) && HeaderAt(b) == 0
  {
    if at < end {
      BoundaryAbove(at, end);
    }
  }

  lemma PaddedBytes(crc: Checksum, full: seq<Byte>, at: nat, piece: Piece, rest: seq<Byte>)
    requires at <= |full| && full[at..] == PieceBytes(crc, piece) + rest
    ensures at + piece.pad <= |full| && full[at + piece.pad..] == PieceBytes(crc, piece.(pad := 0)) + rest
    ensures |PieceBytes(crc, piece)| == piece.pad + |PieceBytes(crc, piece.(pad := 0))|
  {
    assert full[at + piece.pad..] == full[at..][piece.pad..];
    assert PieceBytes(crc, piece) == Zeroes(piece.pad) + PieceBytes(crc, piece.(pad := 0));
  }

  ghost predicate ReadsPiece(crc: Checksum, full: seq<Byte>, n: nat, st: ReaderState, b: nat, pieces: seq<Piece>,
                             r: (Physical, ReaderState))
    requires b <= BLOCK_SIZE
  {
    && r.1.reports == st.reports
    && if pieces != [] && st.at + |PieceBytes(crc, pieces[0])| <= n then
         && r.0 == Fragment(pieces[0].kind, pieces[0].data)
         && r.1.at == st.at + |PieceBytes(crc, pieces[0])|
         && Positioned(crc, full, n, r.1, HeaderAt(b) + HEADER_SIZE + |pieces[0].data|, pieces[1..])
       else r.0 == Eof
  }

  /** One physical record: the next piece, or the end of the file without a word. */
  lemma {:induction false} PhysicalAt(crc: Checksum, full: seq<Byte>, n: nat, st: ReaderState, b: nat,
                                      pieces: seq<Piece>)
    requires Positioned(crc, full, n, st, b, pieces)
    ensures ReadsPiece(crc, full, n, st, b, pieces, ReadPhysical(crc, full[..n], st))
    decreases n - st.bufferEnd, if st.eof then 0 else 1
  {
    if st.bufferEnd - st.at >= HEADER_SIZE {
      ParseAt(crc, full, n, st, b, pieces);
      if st.at + |PieceBytes(crc, pieces[0])| <= n {
        AfterPiece(crc, full, n, st, b, pieces);
      }
    } else if !st.eof {
      RefillAt(crc, full, n, st, b, pieces);
      SkipsPad(st.at, st.bufferEnd, b);
      var rest := if pieces == [] then [] else [pieces[0].(pad := 0)] + pieces[1..];
      PhysicalAt(crc, full, n, Refill(full[..n], st), 0, rest);
      assert pieces != [] ==> rest[1..] == pieces[1..];
    }
  }

  lemma AfterPiece(crc: Checksum, full: seq<Byte>, n: nat, st: ReaderState, b: nat, pieces: seq<Piece>)
    requires Positioned(crc, full, n, st, b, pieces) && st.bufferEnd - st.at >= HEADER_SIZE && pieces != []
    requires st.at + |PieceBytes(crc, pieces[0])| <= n
    ensures st.at + |PieceBytes(crc, pieces[0])| <= st.bufferEnd
    ensures Positioned(crc, full, n, st.(at := st.at + |PieceBytes(crc, pieces[0])|),
      HeaderAt(b) + HEADER_SIZE + |pieces[0].data|, pieces[1..])
  {
    var size := |PieceBytes(crc, pieces[0])|;
    NoPad(st.at, st.bufferEnd, b);
    assert full[st.at + size..] == full[st.at..][size..];
    if !st.eof {
      BoundaryAbove(st.at, st.bufferEnd);
    }
    WithinBlock(st.at, size);
  }

  lemma WithinBlock(at: nat, size: nat)
    requires at % BLOCK_SIZE + size <= BLOCK_SIZE
    ensures (at + size) % BLOCK_SIZE == (at % BLOCK_SIZE + size) % BLOCK_SIZE
    ensures at % BLOCK_SIZE + size < BLOCK_SIZE ==> (at + size) % BLOCK_SIZE == at % BLOCK_SIZE + size
    ensures at % BLOCK_SIZE + size == BLOCK_SIZE ==> (at + size) % BLOCK_SIZE == 0
  {
    var k := at / BLOCK_SIZE;
    assert at + size == k * BLOCK_SIZE + (at % BLOCK_SIZE + size);
  }

  // ---- whole records ----

  /** A record that ends at `end` is read, with the pieces after it still to come, or cut off by the end of
      the file; either way nothing is reported. */
  ghost predicate Comes(crc: Checksum, full: seq<Byte>, n: nat, r: (Option<seq<Byte>>, ReaderState), reports: nat,
                        record: seq<Byte>, end: nat, b: nat, rest: seq<Piece>) {
    && r.1.reports == reports
    && if end <= n then r.0 == Some(record) && r.1.at == end && Positioned(crc, full, n, r.1, b, rest) else r.0 == None
  }

  /** The fragments of a record come together again if all of them are there; otherwise the file ends. */
  lemma {:induction false} RecordAt(crc: Checksum, full: seq<Byte>, n: nat, st: ReaderState, b: nat, data: seq<Byte>,
                                    begin: bool, scratch: seq<Byte>, rest: seq<Piece>)
    requires b <= BLOCK_SIZE && Positioned(crc, full, n, st, b, Fragments(b, data, begin) + rest)
    requires (begin ==> scratch == [])
    ensures Comes(crc, full, n, NextRecord(crc, full[..n], st, !begin, scratch), st.reports,
                  scratch + data, st.at + |Bytes(crc, Fragments(b, data, begin))|, EndOffset(b, data), rest)
    decreases |data|, if b + HEADER_SIZE == BLOCK_SIZE then 1 else 0
  {
    var k := FragmentLength(b, |data|);
    Rejoin(scratch, data, k);
    if k < |data| && st.at + |PieceBytes(crc, FirstPiece(b, data, begin))| <= n {
      var st', b' := MoreFragments(crc, full, n, st, b, data, begin, scratch, rest);
      RecordAt(crc, full, n, st', b', data[k..], false, scratch + data[..k], rest);
    } else {
      LastFragment(crc, full, n, st, b, data, begin, scratch, rest);
    }
  }

  lemma MoreFragments(crc: Checksum, full: seq<Byte>, n: nat, st: ReaderState, b: nat, data: seq<Byte>, begin: bool,
                      scratch: seq<Byte>, rest: seq<Piece>) returns (st': ReaderState, b': nat)
    requires b <= BLOCK_SIZE && Positioned(crc, full, n, st, b, Fragments(b, data, begin) + rest)
    requires (begin ==> scratch == [])
    requires FragmentLength(b, |data|) < |data| && st.at + |PieceBytes(crc, FirstPiece(b, data, begin))| <= n
    ensures var k := FragmentLength(b, |data|);
      && b' == HeaderAt(b) + HEADER_SIZE + k && b' <= BLOCK_SIZE && EndOffset(b, data) == EndOffset(b', data[k..])
      && (if b' + HEADER_SIZE == BLOCK_SIZE then k > 0 else k > 0 || b + HEADER_SIZE == BLOCK_SIZE)
      && Positioned(crc, full, n, st', b', Fragments(b', data[k..], false) + rest) && st'.reports == st.reports
      && NextRecord(crc, full[..n], st, !begin, scratch) == NextRecord(crc, full[..n], st', true, scratch + data[..k])
      && st'.at + |Bytes(crc, Fragments(b', data[k..], false))| == st.at + |Bytes(crc, Fragments(b, data, begin))|
  {
    var k := FragmentLength(b, |data|);
    b' := HeaderAt(b) + HEADER_SIZE + k;
    st' := ReadPhysical(crc, full[..n], st).1;
    FirstOfRecord(crc, full, n, st, b, data, begin, rest);
    NextOnPhysical(crc, full[..n], st, !begin, scratch);
    Rejoin(scratch, data, k);
  }

  lemma LastFragment(crc: Checksum, full: seq<Byte>, n: nat, st: ReaderState, b: nat, data: seq<Byte>, begin: bool,
                     scratch: seq<Byte>, rest: seq<Piece>)
    requires b <= BLOCK_SIZE && Positioned(crc, full, n, st, b, Fragments(b, data, begin) + rest)
    requires (begin ==> scratch == [])
    requires FragmentLength(b, |data|) == |data| || st.at + |PieceBytes(crc, FirstPiece(b, data, begin))| > n
    ensures Comes(crc, full, n, NextRecord(crc, full[..n], st, !begin, scratch), st.reports,
                  scratch + data, st.at + |Bytes(crc, Fragments(b, data, begin))|, EndOffset(b, data), rest)
  {
    FirstOfRecord(crc, full, n, st, b, data, begin, rest);
    NextOnPhysical(crc, full[..n], st, !begin, scratch);
    Rejoin(scratch, data, |data|);
  }

  lemma Rejoin(scratch: seq<Byte>, data: seq<Byte>, k: nat)
    requires k <= |data|
    ensures (scratch + data[..k]) + data[k..] == scratch + data
    ensures k == |data| ==> data[..k] == data
    ensures scratch == [] ==> scratch + data == data && scratch + data[..k] == data[..k]
  {
  }

  /** Reading the first fragment of what is left of a record. */
  lemma FirstOfRecord(crc: Checksum, full: seq<Byte>, n: nat, st: ReaderState, b: nat, data: seq<Byte>, begin: bool,
                      rest: seq<Piece>)
    requires b <= BLOCK_SIZE && Positioned(crc, full, n, st, b, Fragments(b, data, begin) + rest)
    ensures var k := FragmentLength(b, |data|);
      var b' := HeaderAt(b) + HEADER_SIZE + k;
      var r := ReadPhysical(crc, full[..n], st);
      var size := |PieceBytes(crc, FirstPiece(b, data, begin))|;
      && r.1.reports == st.reports
      && |Bytes(crc, Fragments(b, data, begin))| ==
         size + (if k == |data| then 0 else |Bytes(crc, Fragments(b', data[k..], false))|)
      && if st.at + size <= n then
           && r.0 == Fragment(KindOf(begin, k == |data|), data[..k]) && r.1.at == st.at + size
           && Positioned(crc, full, n, r.1, b', AfterFirst(b, data, rest))
         else r.0 == Eof
  {
    FirstSplits(b, data, begin, rest);
    PhysicalAt(crc, full, n, st, b, Fragments(b, data, begin) + rest);
    RestOfRecord(crc, b, data, begin);
  }

  lemma RestOfRecord(crc: Checksum, b: nat, data: seq<Byte>, begin: bool)
    requires b <= BLOCK_SIZE
    ensures var k := FragmentLength(b, |data|);
      |Bytes(crc, Fragments(b, data, begin))| == |PieceBytes(crc, FirstPiece(b, data, begin))| +
        (if k == |data| then 0 else |Bytes(crc, Fragments(HeaderAt(b) + HEADER_SIZE + k, data[k..], false))|)
  {
    FragmentBytes(crc, b, data, begin);
  }

  /** The turns of the reading loop that a well-formed log brings up. */
  lemma NextOnPhysical(crc: Checksum, file: seq<Byte>, st: ReaderState, inFragment: bool, scratch: seq<Byte>)
    requires Sane(file, st)
    ensures var (physical, st1) := ReadPhysical(crc, file, st);
      var r := NextRecord(crc, file, st, inFragment, scratch);
      match physical
      case Eof => r == (None, st1)
      case BadRecord => true
      case Fragment(kind, data) =>
        && (kind == FULL && !inFragment ==> r == (Some(data), st1))
        && (kind == FIRST && !inFragment ==> r == NextRecord(crc, file, st1, true, data))
        && (kind == MIDDLE && inFragment ==> r == NextRecord(crc, file, st1, true, scratch + data))
        && (kind == LAST && inFragment ==> r == (Some(scratch + data), st1))
  {
  }

  function WrittenLength(crc: Checksum, b: nat, records: seq<seq<Byte>>): nat
    requires b <= BLOCK_SIZE
  {
    |Bytes(crc, AllPieces(b, records))|
  }

  lemma OneMoreRecord(crc: Checksum, b: nat, records: seq<seq<Byte>>, k: nat)
    requires b <= BLOCK_SIZE && 0 < k <= |records|
    ensures WrittenLength(crc, b, records[..k])
      == |Bytes(crc, Fragments(b, records[0], true))| +
        WrittenLength(crc, EndOffset(b, records[0]), records[1..][..k - 1])
  {
    assert records[..k][0] == records[0] && records[..k][1..] == records[1..][..k - 1];
    BytesJoin(crc, Fragments(b, records[0], true), AllPieces(EndOffset(b, records[0]), records[1..][..k - 1]));
  }

  /** Reading on: the records wholly before the cut, then the end of the file, and no reports. */
  lemma {:induction false} RecordsAt(crc: Checksum, full: seq<Byte>, n: nat, st: ReaderState, b: nat,
                                     records: seq<seq<Byte>>)
    returns (k: nat)
    requires b <= BLOCK_SIZE && Positioned(crc, full, n, st, b, AllPieces(b, records))
    ensures k <= |records|
    ensures var r := AllRecords(crc, full[..n], st); r.0 == records[..k] && r.1.reports == st.reports
    ensures st.at + WrittenLength(crc, b, records[..k]) <= n
    ensures k < |records| ==> n < st.at + WrittenLength(crc, b, records[..k + 1])
    decreases |records|
  {
    if records == [] {
      k := 0;
      PhysicalAt(crc, full, n, st, b, []);
    } else if st.at + |Bytes(crc, Fragments(b, records[0], true))| <= n {
      var st', b' := FirstIsRead(crc, full, n, st, b, records);
      var m := RecordsAt(crc, full, n, st', b', records[1..]);
      k := m + 1;
      OneMoreRecord(crc, b, records, k);
      if k < |records| {
        OneMoreRecord(crc, b, records, k + 1);
      }
      PrefixOfCons(records, m);
    } else {
      k := 0;
      FirstIsCut(crc, full, n, st, b, records);
      OneMoreRecord(crc, b, records, 1);
      assert records[1..][..0] == [];
    }
  }

  lemma PrefixOfCons(records: seq<seq<Byte>>, m: nat)
    requires m < |records|
    ensures records[..m + 1] == [records[0]] + records[1..][..m]
  {
  }

  lemma FirstIsRead(crc: Checksum, full: seq<Byte>, n: nat, st: ReaderState, b: nat, records: seq<seq<Byte>>)
    returns (st': ReaderState, b': nat)
    requires b <= BLOCK_SIZE && Positioned(crc, full, n, st, b, AllPieces(b, records)) && records != []
    requires st.at + |Bytes(crc, Fragments(b, records[0], true))| <= n
    ensures b' == EndOffset(b, records[0]) && b' <= BLOCK_SIZE
    ensures Positioned(crc, full, n, st', b', AllPieces(b', records[1..]))
    ensures st'.reports == st.reports && st'.at == st.at + |Bytes(crc, Fragments(b, records[0], true))|
    ensures AllRecords(crc, full[..n], st) ==
      ([records[0]] + AllRecords(crc, full[..n], st').0, AllRecords(crc, full[..n], st').1)
  {
    b' := EndOffset(b, records[0]);
    st' := NextRecord(crc, full[..n], st, false, []).1;
    RecordAt(crc, full, n, st, b, records[0], true, [], AllPieces(b', records[1..]));
    AllRecordsStep(crc, full[..n], st);
    assert [] + records[0] == records[0];
  }

  lemma FirstIsCut(crc: Checksum, full: seq<Byte>, n: nat, st: ReaderState, b: nat, records: seq<seq<Byte>>)
    requires b <= BLOCK_SIZE && Positioned(crc, full, n, st, b, AllPieces(b, records)) && records != []
    requires st.at + |Bytes(crc, Fragments(b, records[0], true))| > n
    ensures AllRecords(crc, full[..n], st).0 == [] && AllRecords(crc, full[..n], st).1.reports == st.reports
  {
    RecordAt(crc, full, n, st, b, records[0], true, [], AllPieces(EndOffset(b, records[0]), records[1..]));
    AllRecordsStep(crc, full[..n], st);
  }

  lemma AllRecordsStep(crc: Checksum, file: seq<Byte>, st: ReaderState)
    requires Sane(file, st)
    ensures var (record, st1) := NextRecord(crc, file, st, false, []);
      AllRecords(crc, file, st) == if record.None? then ([], st1)
        else ([record.value] + AllRecords(crc, file, st1).0, AllRecords(crc, file, st1).1)
  {
  }

  /** The file that writing the records one after the other gives. */
  function Written(crc: Checksum, records: seq<seq<Byte>>): seq<Byte> {
    Bytes(crc, AllPieces(0, records))
  }

  /** For any records, any checksum and any cut. */
  lemma CutLogReadsBack(crc: Checksum, records: seq<seq<Byte>>, n: nat) returns (k: nat)
    requires n <= |Written(crc, records)|
    ensures k <= |records| && |Written(crc, records[..k])| <= n
    ensures (k < |records| ==> n < |Written(crc, records[..k + 1])|)
    ensures var r := AllRecords(crc, Written(crc, records)[..n], Start());
      r.0 == records[..k] && r.1.reports == 0
  {
    AllAreLaid(0, records);
    assert Written(crc, records)[0..] == Written(crc, records);
    k := RecordsAt(crc, Written(crc, records), n, Start(), 0, records);
  }

  /** Writing one more record with the writer gives the file of one more record. */
  lemma {:induction false} WriterAppends(crc: Checksum, b: nat, records: seq<seq<Byte>>, record: seq<Byte>)
    requires b <= BLOCK_SIZE
    ensures OffsetAfter(b, records + [record]) == EndOffset(OffsetAfter(b, records), record)
    ensures Bytes(crc, AllPieces(b, records + [record])) ==
      Bytes(crc, AllPieces(b, records)) + Bytes(crc, Fragments(OffsetAfter(b, records), record, true))
    decreases |records|
  {
    var all := records + [record];
    var b' := EndOffset(b, all[0]);
    BytesJoin(crc, Fragments(b, all[0], true), AllPieces(b', all[1..]));
    if records == [] {
      assert AllPieces(b', all[1..]) == [];
    } else {
      assert all[1..] == records[1..] + [record];
      WriterAppends(crc, b', records[1..], record);
      BytesJoin(crc, Fragments(b, records[0], true), AllPieces(b', records[1..]));
    }
  }

  /** The writer's block offset after a list of records. */
  function OffsetAfter(b: nat, records: seq<seq<Byte>>): (e: nat)
    requires b <= BLOCK_SIZE
    ensures e <= BLOCK_SIZE
    decreases |records|
  {
    if records == [] then b else OffsetAfter(EndOffset(b, records[0]), records[1..])
  }

  /** The writer and the reader together. */
  method WriteAndReadBack(crc: Checksum, records: seq<seq<Byte>>, cut: nat) returns (read: seq<seq<Byte>>, reports: nat)
    ensures read <= records && reports == 0
    ensures cut <= |Written(crc, records)| ==>
      |Written(crc, read)| <= cut && (|read| < |records| ==> cut < |Written(crc, records[..|read| + 1])|)
    ensures cut >= |Written(crc, records)| ==> read == records
  {
    var written := WriteAll(crc, records);
    var file := if cut < |written| then written[..cut] else written;
    ghost var k := CutLogReadsBack(crc, records, |file|);
    assert file == written[..|file|];
    read, reports := ReadAll(crc, file);
    if k < |records| {
      WrittenGrows(crc, records, k + 1);
    }
  }

  method WriteAll(crc: Checksum, records: seq<seq<Byte>>) returns (file: seq<Byte>)
    ensures file == Written(crc, records)
  {
    var writer := new Writer(crc);
    for i := 0 to |records|
      invariant writer.Valid() && writer.crc == crc && writer.dest == Written(crc, records[..i])
      invariant writer.blockOffset == OffsetAfter(0, records[..i])
    {
      WriterAppends(crc, 0, records[..i], records[i]);
      assert records[..i + 1] == records[..i] + [records[i]];
      writer.AddRecord(records[i]);
    }
    assert records[..|records|] == records;
    file := writer.dest;
  }

  lemma WrittenGrows(crc: Checksum, records: seq<seq<Byte>>, k: nat)
    requires k <= |records|
    ensures |Written(crc, records[..k])| <= |Written(crc, records)|
  {
    assert records == records[..k] + records[k..];
    AllJoin(crc, 0, records[..k], records[k..]);
  }

  lemma {:induction false} AllJoin(crc: Checksum, b: nat, a: seq<seq<Byte>>, c: seq<seq<Byte>>)
    requires b <= BLOCK_SIZE
    ensures |Bytes(crc, AllPieces(b, a + c))| >= |Bytes(crc, AllPieces(b, a))|
    decreases |a|
  {
    if a == [] {
    } else {
      assert (a + c)[1..] == a[1..] + c;
      var b' := EndOffset(b, a[0]);
      AllJoin(crc, b', a[1..], c);
      BytesJoin(crc, Fragments(b, a[0], true), AllPieces(b', a[1..] + c));
      BytesJoin(crc, Fragments(b, a[0], true), AllPieces(b', a[1..]));
    }
  }

  /** What is still to be read, after the records that have been; only looked into for opened states. */
  ghost predicate LeavesToRead(crc: Checksum, file: seq<Byte>, st: ReaderState, read: seq<seq<Byte>>,
                               all: (seq<seq<Byte>>, ReaderState)) {
    Sane(file, st) &&
    forall x: ReaderState {:trigger Opened(x)} :: Opened(x) && x == st ==>
      all == (read + AllRecords(crc, file, x).0, AllRecords(crc, file, x).1)
  }

  lemma OneRecordRead(crc: Checksum, file: seq<Byte>, st: ReaderState, read: seq<seq<Byte>>,
                      all: (seq<seq<Byte>>, ReaderState), record: Option<seq<Byte>>, st1: ReaderState)
    requires LeavesToRead(crc, file, st, read, all) && NextRecord(crc, file, st, false, []) == (record, st1)
    ensures if record.None? then all == (read, st1) else LeavesToRead(crc, file, st1, read + [record.value], all)
  {
    assert Opened(st) && all == (read + AllRecords(crc, file, st).0, AllRecords(crc, file, st).1);
    AllRecordsStep(crc, file, st);
    var rest := AllRecords(crc, file, st1).0;
    if record.Some? {
      assert (read + [record.value]) + rest == read + ([record.value] + rest);
    } else {
      assert read + [] == read;
    }
  }

  method ReadAll(crc: Checksum, file: seq<Byte>) returns (read: seq<seq<Byte>>, reports: nat)
    ensures (read, reports) == (AllRecords(crc, file, Start()).0, AllRecords(crc, file, Start()).1.reports)
  {
    var reader := new Reader(crc, file);
    ghost var all := AllRecords(crc, file, Start());
    read := [];
    assert [] + all.0 == all.0;
    while true
      invariant reader.Valid() && reader.crc == crc && reader.file == file
      invariant LeavesToRead(crc, file, reader.State(), read, all)
      decreases |file| - reader.at
    {
      ghost var st := reader.State();
      var record := reader.ReadRecord();
      OneRecordRead(crc, file, st, read, all, record, reader.State());
      if record.None? {
        break;
      }
      read := read + [record.value];
    }
    reports := reader.reports;
  }
}
