/** The log file format: writer (db/log_writer.cc) and reader (db/log_reader.cc), and what the reader makes
    of a written file cut off at any byte. The checksum is any function of the bytes it covers. */
module LogFormat {
  import opened Basics
  import opened Coding
  import opened Checksums

  const BLOCK_SIZE: nat := 32768
  const HEADER_SIZE: nat := 7

  const FULL: Byte := 1
  const FIRST: Byte := 2
  const MIDDLE: Byte := 3
  const LAST: Byte := 4

  // ---- headers ----

  /** One physical record: checksum of type and payload, length, type, payload. */
  function Emit(crc: Checksum, kind: Byte, data: seq<Byte>): (bytes: seq<Byte>)
    requires |data| < 0x1_0000
    ensures |bytes| == HEADER_SIZE + |data|
  {
    Fixed32(Mask(crc([kind] + data))) + [|data| % 0x100, |data| / 0x100] + [kind] + data
  }

  // ---- the writer ----

  /** A fragment of a record, with the zeroes that fill up the block before it. */
  datatype Piece = Piece(pad: nat, kind: Byte, data: seq<Byte>)

  function KindOf(begin: bool, end: bool): Byte {
    if begin && end then FULL else if begin then FIRST else if end then LAST else MIDDLE
  }

  function Pad(b: nat): nat
    requires b <= BLOCK_SIZE
  {
    if BLOCK_SIZE - b < HEADER_SIZE then BLOCK_SIZE - b else 0
  }

  /** Where in its block the next header goes. */
  function HeaderAt(b: nat): (h: nat)
    requires b <= BLOCK_SIZE
    ensures h + HEADER_SIZE <= BLOCK_SIZE
  {
    if BLOCK_SIZE - b < HEADER_SIZE then 0 else b
  }

  function Available(b: nat): nat
    requires b <= BLOCK_SIZE
  {
    BLOCK_SIZE - HeaderAt(b) - HEADER_SIZE
  }

  function FragmentLength(b: nat, left: nat): (n: nat)
    requires b <= BLOCK_SIZE
    ensures n <= left && n <= Available(b)
  {
    if left < Available(b) then left else Available(b)
  }

  /** The fragments of a record written from offset `b` of a block on; a block may end with a header for no
      data at all. */
  function Fragments(b: nat, data: seq<Byte>, begin: bool): (pieces: seq<Piece>)
    requires b <= BLOCK_SIZE
    ensures pieces != []
    decreases |data|, if b + HEADER_SIZE == BLOCK_SIZE then 1 else 0
  {
    var n := FragmentLength(b, |data|);
    if n == |data| then [FirstPiece(b, data, begin)]
    else [FirstPiece(b, data, begin)] + Fragments(HeaderAt(b) + HEADER_SIZE + n, data[n..], false)
  }

  function FirstPiece(b: nat, data: seq<Byte>, begin: bool): Piece
    requires b <= BLOCK_SIZE
  {
    var n := FragmentLength(b, |data|);
    Piece(Pad(b), KindOf(begin, n == |data|), data[..n])
  }

  /** Where in its block the record ends. */
  function EndOffset(b: nat, data: seq<Byte>): (e: nat)
    requires b <= BLOCK_SIZE
    ensures e <= BLOCK_SIZE
    decreases |data|, if b + HEADER_SIZE == BLOCK_SIZE then 1 else 0
  {
    var n := FragmentLength(b, |data|);
    if n == |data| then HeaderAt(b) + HEADER_SIZE + n else EndOffset(HeaderAt(b) + HEADER_SIZE + n, data[n..])
  }

  function Zeroes(n: nat): (z: seq<Byte>)
    ensures |z| == n
  {
    seq(n, _ => 0)
  }

  function PieceBytes(crc: Checksum, piece: Piece): (bytes: seq<Byte>)
    ensures |bytes| >= HEADER_SIZE
  {
    Zeroes(piece.pad) + if |piece.data| < 0x1_0000 then Emit(crc, piece.kind, piece.data) else Zeroes(HEADER_SIZE)
  }

  function Bytes(crc: Checksum, pieces: seq<Piece>): seq<Byte> {
    if pieces == [] then [] else PieceBytes(crc, pieces[0]) + Bytes(crc, pieces[1..])
  }

  lemma FragmentBytes(crc: Checksum, b: nat, data: seq<Byte>, begin: bool)
    requires b <= BLOCK_SIZE
    ensures var n := FragmentLength(b, |data|);
      Bytes(crc, Fragments(b, data, begin)) == PieceBytes(crc, FirstPiece(b, data, begin))
        + if n == |data| then [] else Bytes(crc, Fragments(HeaderAt(b) + HEADER_SIZE + n, data[n..], false))
  {
    var pieces := Fragments(b, data, begin);
    var n := FragmentLength(b, |data|);
    assert pieces[1..] == if n == |data| then [] else Fragments(HeaderAt(b) + HEADER_SIZE + n, data[n..], false);
  }

  lemma {:induction false} BytesJoin(crc: Checksum, a: seq<Piece>, b: seq<Piece>)
    ensures Bytes(crc, a + b) == Bytes(crc, a) + Bytes(crc, b)
  {
    if a == [] {
      assert a + b == b;
    } else {
      assert (a + b)[1..] == a[1..] + b;
      BytesJoin(crc, a[1..], b);
    }
  }

  /** All fragments of a list of records. */
  function AllPieces(b: nat, records: seq<seq<Byte>>): seq<Piece>
    requires b <= BLOCK_SIZE
    decreases |records|
  {
    if records == [] then [] else Fragments(b, records[0], true) + AllPieces(EndOffset(b, records[0]), records[1..])
  }

  class Writer {
    const crc: Checksum
    var dest: seq<Byte>
    var blockOffset: nat

    ghost predicate Valid()
      reads this
    {
      blockOffset <= BLOCK_SIZE
    }

    constructor (crc: Checksum)
      ensures Valid() && this.crc == crc && dest == [] && blockOffset == 0
    {
      this.crc, dest, blockOffset := crc, [], 0;
    }

    method EmitPhysicalRecord(kind: Byte, data: seq<Byte>)
      requires blockOffset + HEADER_SIZE + |data| <= BLOCK_SIZE
      modifies this
      ensures dest == old(dest) + Emit(crc, kind, data) && blockOffset == old(blockOffset) + HEADER_SIZE + |data|
    {
      dest := dest + Emit(crc, kind, data);
      blockOffset := blockOffset + HEADER_SIZE + |data|;
    }

    /** Writes a record as one fragment per block it touches. */
    method AddRecord(record: seq<Byte>)
      requires Valid()
      modifies this
      ensures Valid() && blockOffset == EndOffset(old(blockOffset), record)
      ensures dest == old(dest) + Bytes(crc, Fragments(old(blockOffset), record, true))
    {
      var left := record;
      var begin := true;
      ghost var goal := dest + Bytes(crc, Fragments(blockOffset, record, true));
      ghost var last := EndOffset(blockOffset, record);
      while true
        invariant Valid() && Remaining(crc, dest, blockOffset, left, begin, goal, last)
        decreases |left|, if blockOffset + HEADER_SIZE == BLOCK_SIZE then 1 else 0
      {
        var length := WriteNext(left, begin, goal, last);
        if |left| == length {
          break;
        }
        left, begin := left[length..], false;
      }
    }

    /** The next fragment of the record, with what it leaves to be written. */
    method WriteNext(left: seq<Byte>, begin: bool, ghost goal: seq<Byte>, ghost last: nat) returns (length: nat)
      requires Valid() && Remaining(crc, dest, blockOffset, left, begin, goal, last)
      modifies this
      ensures Valid() && length <= |left|
      ensures length == |left| ==> dest == goal && blockOffset == last
      ensures length < |left| ==> Remaining(crc, dest, blockOffset, left[length..], false, goal, last)
      ensures length == 0 < |left| ==>
        old(blockOffset) + HEADER_SIZE == BLOCK_SIZE && blockOffset + HEADER_SIZE != BLOCK_SIZE
    {
      WriteStep(crc, dest, blockOffset, left, begin, goal, last);
      length := WriteFragment(left, begin);
    }

    /** As much of the record as fits into this block. */
    method WriteFragment(left: seq<Byte>, begin: bool) returns (length: nat)
      requires Valid()
      modifies this
      ensures Valid() && length == FragmentLength(old(blockOffset), |left|)
      ensures blockOffset == HeaderAt(old(blockOffset)) + HEADER_SIZE + length
      ensures dest == old(dest) + Zeroes(Pad(old(blockOffset))) +
        Emit(crc, KindOf(begin, |left| == length), left[..length])
    {
      FillBlock();
      var avail := BLOCK_SIZE - blockOffset - HEADER_SIZE;
      length := if |left| < avail then |left| else avail;
      EmitPhysicalRecord(KindOf(begin, |left| == length), left[..length]);
    }

    /** Never leaves room for less than a header: the rest of such a block is zeroes. */
    method FillBlock()
      requires Valid()
      modifies this
      ensures blockOffset == HeaderAt(old(blockOffset)) && dest == old(dest) + Zeroes(Pad(old(blockOffset)))
    {
      var leftover := BLOCK_SIZE - blockOffset;
      if leftover < HEADER_SIZE {
        dest := dest + Zeroes(leftover);
        blockOffset := 0;
      }
    }
  }

  /** What is still to be written completes the goal. */
  ghost predicate Remaining(crc: Checksum, dest: seq<Byte>, b: nat, left: seq<Byte>, begin: bool, goal: seq<Byte>,
                            last: nat)
    requires b <= BLOCK_SIZE
  {
    dest + Bytes(crc, Fragments(b, left, begin)) == goal && EndOffset(b, left) == last
  }

  lemma WriteStep(crc: Checksum, dest: seq<Byte>, b: nat, left: seq<Byte>, begin: bool, goal: seq<Byte>, last: nat)
    requires b <= BLOCK_SIZE && Remaining(crc, dest, b, left, begin, goal, last)
    ensures var n := FragmentLength(b, |left|);
      var dest', b' := dest + Zeroes(Pad(b)) + Emit(crc, KindOf(begin, |left| == n), left[..n]),
        HeaderAt(b) + HEADER_SIZE + n;
      if n == |left| then dest' == goal && b' == last else Remaining(crc, dest', b', left[n..], false, goal, last)
  {
    FragmentBytes(crc, b, left, begin);
    var n := FragmentLength(b, |left|);
    var piece := FirstPiece(b, left, begin);
    var dest' := dest + Zeroes(Pad(b)) + Emit(crc, piece.kind, piece.data);
    Appended(crc, dest, dest', piece, goal,
             if n == |left| then [] else Bytes(crc, Fragments(HeaderAt(b) + HEADER_SIZE + n, left[n..], false)));
  }

  lemma Appended(crc: Checksum, start: seq<Byte>, dest: seq<Byte>, piece: Piece, goal: seq<Byte>, rest: seq<Byte>)
    requires |piece.data| < 0x1_0000 && (dest == start + Zeroes(piece.pad) + Emit(crc, piece.kind, piece.data))
    requires goal == start + (PieceBytes(crc, piece) + rest)
    ensures goal == dest + rest
  {
  }
}
