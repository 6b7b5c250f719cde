/** Where the blocks of a table file are, and how each is framed (table/format.cc). */
module TableFormat {
  import opened Basics
  import opened Coding
  import opened Checksums

  const MAX_HANDLE_LENGTH := 20
  const FOOTER_LENGTH := 48
  const TRAILER_SIZE := 5
  const MAGIC_LOW: Word := 0x8b80fb57
  const MAGIC_HIGH: Word := 0xdb477524
  const NO_COMPRESSION: Byte := 0

  // ---- handles ----

  type Long = n: nat | n < 0x1_0000_0000_0000_0000

  datatype BlockHandle = BlockHandle(offset: Long, size: Long)

  function HandleBytes(h: BlockHandle): (bytes: seq<Byte>) {
    Varint(h.offset) + Varint(h.size)
  }

  function ParseHandle(s: seq<Byte>): Parsed<(nat, nat)> {
    match ReadVarint(s, 64, 0, 0)
    case Malformed => Malformed
    case Parsed(offset, s1) =>
      match ReadVarint(s1, 64, 0, 0)
      case Malformed => Malformed
      case Parsed(size, rest) => Parsed((offset, size), rest)
  }

  lemma HandleReadsBack(h: BlockHandle, rest: seq<Byte>)
    ensures ParseHandle(HandleBytes(h) + rest) == Parsed((h.offset as nat, h.size as nat), rest)
  {
    Associate(Varint(h.offset), Varint(h.size), rest);
    Varint64ReadsBack(h.offset, Varint(h.size) + rest);
    Varint64ReadsBack(h.size, rest);
  }

  lemma HandleLength(h: BlockHandle)
    ensures |HandleBytes(h)| <= MAX_HANDLE_LENGTH
  {
    WordPowers();
    Pow2Grows(64, 70);
    VarintLength(h.offset, 10);
    VarintLength(h.size, 10);
  }

  method EncodeHandle(dst: seq<Byte>, h: BlockHandle) returns (r: seq<Byte>)
    ensures r == dst + HandleBytes(h)
  {
    r := PutVarint64(dst, h.offset);
    r := PutVarint64(r, h.size);
    Associate(dst, Varint(h.offset), Varint(h.size));
  }

  method DecodeHandle(s: seq<Byte>) returns (r: Parsed<(nat, nat)>)
    ensures r == ParseHandle(s)
  {
    var offset := GetVarint(s, 64);
    if offset.Malformed? {
      return Malformed;
    }
    var size := GetVarint(offset.rest, 64);
    if size.Malformed? {
      return Malformed;
    }
    return Parsed((offset.value, size.value), size.rest);
  }

  // ---- the footer ----

  function Padding(n: nat): (bytes: seq<Byte>)
    ensures |bytes| == n
  {
    seq(n, _ => 0)
  }

  function FooterBytes(metaindex: BlockHandle, index: BlockHandle): (bytes: seq<Byte>)
    ensures |bytes| == FOOTER_LENGTH
  {
    HandleLength(metaindex);
    HandleLength(index);
    var handles := HandleBytes(metaindex) + HandleBytes(index);
    handles + Padding(2 * MAX_HANDLE_LENGTH - |handles|) + Fixed32(MAGIC_LOW) + Fixed32(MAGIC_HIGH)
  }

  method EncodeFooter(dst: seq<Byte>, metaindex: BlockHandle, index: BlockHandle) returns (r: seq<Byte>)
    ensures r == dst + FooterBytes(metaindex, index)
  {
    HandleLength(metaindex);
    HandleLength(index);
    r := EncodeHandle(dst, metaindex);
    r := EncodeHandle(r, index);
    r := r + Padding(|dst| + 2 * MAX_HANDLE_LENGTH - |r|);
    r := r + Fixed32(MAGIC_LOW);
    r := r + Fixed32(MAGIC_HIGH);
  }

  type Handles = ((nat, nat), (nat, nat))

  /** The handles of a footer; None without the magic number or with a handle that does not parse. */
  function ParseFooter(input: seq<Byte>): Option<Handles>
    requires |input| == FOOTER_LENGTH
  {
    if DecodeFixed32(input[FOOTER_LENGTH - 8..]) != MAGIC_LOW || DecodeFixed32(input[FOOTER_LENGTH - 4..]) != MAGIC_HIGH
    then None
    else
      match ParseHandle(input)
      case Malformed => None
      case Parsed(metaindex, s) =>
        match ParseHandle(s)
        case Malformed => None
        case Parsed(index, _) => Some((metaindex, index))
  }

  method DecodeFooter(input: seq<Byte>) returns (r: Option<Handles>)
    requires |input| == FOOTER_LENGTH
    ensures r == ParseFooter(input)
  {
    var low, high := DecodeFixed32(input[FOOTER_LENGTH - 8..]), DecodeFixed32(input[FOOTER_LENGTH - 4..]);
    if low != MAGIC_LOW || high != MAGIC_HIGH {
      return None;
    }
    var metaindex := DecodeHandle(input);
    if metaindex.Malformed? {
      return None;
    }
    var index := DecodeHandle(metaindex.rest);
    if index.Malformed? {
      return None;
    }
    return Some((metaindex.value, index.value));
  }

  lemma FooterReadsBack(m: BlockHandle, i: BlockHandle)
    ensures ParseFooter(FooterBytes(m, i)) ==
            Some(((m.offset as nat, m.size as nat), (i.offset as nat, i.size as nat)))
  {
    var input := FooterBytes(m, i);
    HandleLength(m);
    HandleLength(i);
    var a, b := HandleBytes(m), HandleBytes(i);
    var padding, low, high := Padding(2 * MAX_HANDLE_LENGTH - |a + b|), Fixed32(MAGIC_LOW), Fixed32(MAGIC_HIGH);
    var tail := padding + low + high;
    Fixed32RoundTrip(MAGIC_LOW, high);
    Fixed32RoundTrip(MAGIC_HIGH, []);
    assert input[FOOTER_LENGTH - 8..] == low + high;
    assert input[FOOTER_LENGTH - 4..] == high + [];
    assert input == a + (b + tail);
    HandleReadsBack(m, b + tail);
    HandleReadsBack(i, tail);
  }

  /** Nothing that does not end with the magic number is taken for a footer. */
  lemma FooterIsRecognized(input: seq<Byte>)
    requires |input| == FOOTER_LENGTH && ParseFooter(input).Some?
    ensures input[FOOTER_LENGTH - 8..] == Fixed32(MAGIC_LOW) + Fixed32(MAGIC_HIGH)
  {
    var low, high := input[FOOTER_LENGTH - 8..], input[FOOTER_LENGTH - 4..];
    Fixed32OfDecoded(low);
    Fixed32OfDecoded(high);
    assert low == low[..4] + high && high == high[..4];
  }

  // ---- blocks in the file ----

  /** The contents, their compression type, and the masked checksum of both. */
  function RawBlock(crc: Checksum, contents: seq<Byte>): (bytes: seq<Byte>)
    ensures |bytes| == |contents| + TRAILER_SIZE
  {
    contents + [NO_COMPRESSION] + Fixed32(Mask(crc(contents + [NO_COMPRESSION])))
  }

  /** What is read at a handle; None for a truncated read, a checksum that does not match or another type. */
  function BlockAt(file: seq<Byte>, verify: bool, crc: Checksum, offset: nat, size: nat): Option<seq<Byte>> {
    if offset + size + TRAILER_SIZE > |file| then None
    else
      var data := file[offset..offset + size + TRAILER_SIZE];
      if verify && Unmask(DecodeFixed32(data[size + 1..])) != crc(data[..size + 1]) then None
      else if data[size] != NO_COMPRESSION then None
      else Some(data[..size])
  }

  method ReadBlock(file: seq<Byte>, verify: bool, crc: Checksum, offset: nat, size: nat) returns (r: Option<seq<Byte>>)
    ensures r == BlockAt(file, verify, crc, offset, size)
  {
    var n := size;
    var end := if offset + n + TRAILER_SIZE < |file| then offset + n + TRAILER_SIZE else |file|;
    var contents := if offset < end then file[offset..end] else [];
    if |contents| != n + TRAILER_SIZE {
      return None;
    }
    if verify {
      var stored := Unmask(DecodeFixed32(contents[n + 1..]));
      var actual := crc(contents[..n + 1]);
      if actual != stored {
        return None;
      }
    }
    return if contents[n] == NO_COMPRESSION then Some(contents[..n]) else None;
  }

  /** A block reads back from where it was appended, whatever is written behind it. */
  lemma BlockReadsBack(before: seq<Byte>, crc: Checksum, contents: seq<Byte>, after: seq<Byte>, verify: bool)
    ensures BlockAt(before + RawBlock(crc, contents) + after, verify, crc, |before|, |contents|) == Some(contents)
  {
    var n, raw, typed := |contents|, RawBlock(crc, contents), contents + [NO_COMPRESSION];
    var stored := Mask(crc(typed));
    assert (before + raw + after)[|before|..|before| + n + TRAILER_SIZE] == raw;
    assert raw[n + 1..] == Fixed32(stored) + [];
    Fixed32RoundTrip(stored, []);
    UnmaskMask(crc(typed));
    assert raw[..n + 1] == typed;
    assert raw[..n] == contents && raw[n] == NO_COMPRESSION;
  }

  lemma ReadIsWritten(file: seq<Byte>, crc: Checksum, offset: nat, size: nat, contents: seq<Byte>)
    requires BlockAt(file, true, crc, offset, size) == Some(contents)
    ensures file[offset..offset + size + TRAILER_SIZE] == RawBlock(crc, contents)
  {
    var data := file[offset..offset + size + TRAILER_SIZE];
    Fixed32OfDecoded(data[size + 1..]);
    MaskUnmask(DecodeFixed32(data[size + 1..]));
    assert data[..size + 1] == contents + [NO_COMPRESSION];
    assert data == data[..size + 1] + data[size + 1..];
  }

  /** With checksums verified, a block is read exactly where the file holds it as it is written: nothing damaged is
      ever read. */
  lemma VerifiedBlockIsWritten(file: seq<Byte>, crc: Checksum, offset: nat, size: nat, contents: seq<Byte>)
    ensures BlockAt(file, true, crc, offset, size) == Some(contents) <==>
            && |contents| == size && offset + size + TRAILER_SIZE <= |file|
            && file[offset..offset + size + TRAILER_SIZE] == RawBlock(crc, contents)
  {
    if BlockAt(file, true, crc, offset, size) == Some(contents) {
      ReadIsWritten(file, crc, offset, size, contents);
    } else if |contents| == size && offset + size + TRAILER_SIZE <= |file| {
      var data := file[offset..offset + size + TRAILER_SIZE];
      assert file == file[..offset] + data + file[offset + size + TRAILER_SIZE..];
      BlockReadsBack(file[..offset], crc, contents, file[offset + size + TRAILER_SIZE..], true);
    }
  }
}
