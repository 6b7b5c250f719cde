/** The encoder (nanopb/pb_encode.c): what a message is on the wire, and the two passes that write it. */
module ProtoEncode {
  import opened Basics
  import opened Coding
  import opened ProtoFields

  const WT_VARINT: nat := 0
  const WT_64BIT: nat := 1
  const WT_STRING: nat := 2
  const WT_32BIT: nat := 5

  function WireType(kind: Kind): nat {
    match kind
    case Fixed32Kind => WT_32BIT
    case Fixed64Kind => WT_64BIT
    case Bytes(_) => WT_STRING
    case String(_) => WT_STRING
    case FixedBytes(_) => WT_STRING
    case Submessage(_) => WT_STRING
    case _ => WT_VARINT
  }

  function FieldKey(tag: nat, wireType: nat): nat {
    8 * tag + wireType
  }

  // ---- numbers ----

  ghost predicate Int64(n: int) {
    -0x8000_0000_0000_0000 <= n < 0x8000_0000_0000_0000
  }

  /** A signed 64-bit integer cast to an unsigned one. */
  function AsUnsigned(n: int): nat
    requires Int64(n)
  {
    if n < 0 then n + 0x1_0000_0000_0000_0000 else n
  }

  /** pb_encode_svarint: a shift, and its complement for negative numbers. */
  function ZigZagged(n: int): (z: nat)
    requires Int64(n)
    ensures z == if n < 0 then -2 * n - 1 else 2 * n
    ensures z < 0x1_0000_0000_0000_0000
  {
    var doubled := AsUnsigned(n) * 2 % 0x1_0000_0000_0000_0000;
    if n < 0 then 0xFFFF_FFFF_FFFF_FFFF - doubled else doubled
  }

  lemma SignedFits(n: int, w: Width)
    requires FitsSigned(n, w)
    ensures Int64(n)
  {
    WordPowers();
    Pow2Grows(8 * w - 1, 63);
  }

  lemma UnsignedFits(n: int, w: Width)
    requires FitsUnsigned(n, w)
    ensures 0 <= n < 0x1_0000_0000_0000_0000
    ensures w == 4 ==> n < 0x1_0000_0000
  {
    WordPowers();
    Pow2Grows(8 * w, 64);
  }

  // ---- the wire format ----

  /** A C string ends at its first zero. */
  function CString(bytes: seq<Byte>): (s: seq<Byte>)
    ensures s <= bytes && (forall i :: 0 <= i < |s| ==> s[i] != 0)
    ensures |s| < |bytes| ==> bytes[|s|] == 0
  {
    if bytes == [] || bytes[0] == 0 then [] else [bytes[0]] + CString(bytes[1..])
  }

  function Prefixed(bytes: seq<Byte>): seq<Byte> {
    Varint(|bytes|) + bytes
  }

  function EncodeNumber(kind: Kind, n: int): seq<Byte>
    requires Packable(kind) && Holds(kind, Number(n))
  {
    match kind
    case Bool => Varint(n)
    case Signed(w) => SignedFits(n, w); Varint(AsUnsigned(n))
    case Unsigned(w) => Varint(n)
    case ZigZag(w) => SignedFits(n, w); Varint(ZigZagged(n))
    case Fixed32Kind => UnsignedFits(n, 4); Fixed32(n)
    case Fixed64Kind => UnsignedFits(n, 8); Fixed64(n)
  }

  function EncodeValue(kind: Kind, v: Value): seq<Byte>
    requires Holds(kind, v)
    decreases kind, 0
  {
    match kind
    case Bytes(_) => Prefixed(v.bytes)
    case String(_) => Prefixed(CString(v.bytes))
    case FixedBytes(_) => Prefixed(v.bytes)
    case Submessage(d) => Prefixed(EncodeFields(d, v.slots, 0))
    case _ => EncodeNumber(kind, v.n)
  }

  ghost predicate AllHold(kind: Kind, items: seq<Value>) {
    forall k :: 0 <= k < |items| ==> Holds(kind, items[k])
  }

  function EncodePacked(kind: Kind, items: seq<Value>): seq<Byte>
    requires AllHold(kind, items)
    decreases kind, 1 + |items|
  {
    if items == [] then [] else EncodeValue(kind, items[0]) + EncodePacked(kind, items[1..])
  }

  function EncodeTagged(field: Field, v: Value): seq<Byte>
    requires Holds(field.kind, v)
    decreases field, 0
  {
    Varint(FieldKey(field.tag, WireType(field.kind))) + EncodeValue(field.kind, v)
  }

  function EncodeEach(field: Field, items: seq<Value>): seq<Byte>
    requires AllHold(field.kind, items)
    decreases field, 1 + |items|
  {
    if items == [] then [] else EncodeTagged(field, items[0]) + EncodeEach(field, items[1..])
  }

  function EncodeArrayOf(field: Field, items: seq<Value>): seq<Byte>
    requires AllHold(field.kind, items)
    decreases field, 2 + |items|
  {
    if items == [] then []
    else if Packable(field.kind) then Varint(FieldKey(field.tag, WT_STRING)) + Prefixed(EncodePacked(field.kind, items))
    else EncodeEach(field, items)
  }

  function EncodeSlot(field: Field, slot: Slot): seq<Byte>
    requires SlotFits(field, slot)
    decreases field, 3 + if slot.Many? then |slot.items| else 0
  {
    match slot
    case One(v) => EncodeTagged(field, v)
    case Maybe(None) => []
    case Maybe(Some(v)) => EncodeTagged(field, v)
    case Many(items) => EncodeArrayOf(field, items)
  }

  /** The fields from the i-th one on. */
  function EncodeFields(d: Descriptor, slots: seq<Slot>, i: nat): seq<Byte>
    requires Fits(d, slots) && i <= |slots|
    decreases d, |slots| - i
  {
    if i == |slots| then [] else EncodeSlot(d.fields[i], slots[i]) + EncodeFields(d, slots, i + 1)
  }

  // ---- what the encoder refuses ----

  ghost predicate Encodable(kind: Kind, v: Value)
    requires Holds(kind, v)
    decreases kind, 0
  {
    match kind
    case Bytes(size) => |v.bytes| + BYTES_HEADER <= size
    case Submessage(d) => AllEncodable(d, v.slots, 0)
    case _ => true
  }

  ghost predicate ItemsEncodable(kind: Kind, items: seq<Value>)
    requires AllHold(kind, items)
    decreases kind, 1
  {
    forall k :: 0 <= k < |items| ==> Encodable(kind, items[k])
  }

  ghost predicate SlotEncodable(field: Field, slot: Slot)
    requires SlotFits(field, slot)
    decreases field
  {
    match slot
    case One(v) => Encodable(field.kind, v)
    case Maybe(None) => true
    case Maybe(Some(v)) => Encodable(field.kind, v)
    case Many(items) => |items| <= field.rule.arraySize && ItemsEncodable(field.kind, items)
  }

  ghost predicate AllEncodable(d: Descriptor, slots: seq<Slot>, from: nat)
    requires Fits(d, slots)
    decreases d
  {
    forall i :: from <= i < |slots| ==> SlotEncodable(d.fields[i], slots[i])
  }

  /** Tags fit the key of a field, and tell the fields of a message apart. */
  ghost predicate WellFormed(d: Descriptor)
    decreases d
  {
    && TagsAreNonZero(d) && TagsAreDistinct(d)
    && (forall i :: 0 <= i < |d.fields| ==> FieldWellFormed(d.fields[i]))
  }

  ghost predicate FieldWellFormed(field: Field)
    decreases field
  {
    && field.tag < 0x2000_0000
    && (field.kind.Submessage? ==> WellFormed(field.kind.descriptor))
  }

  // ---- output streams ----

  datatype Status = Ok | StreamFull | ArraySizeExceeded | BytesSizeExceeded | SubmessageSizeChanged

  datatype Output = Output(sizing: bool, maxSize: nat, out: seq<Byte>, written: nat)

  /** What one step of the encoder does: it succeeds exactly when there is nothing to refuse and the bytes fit,
      and then it has written them, or counted them on a sizing stream. */
  ghost predicate Wrote(before: Output, after: Output, r: Status, good: bool, bytes: seq<Byte>) {
    && after.sizing == before.sizing && after.maxSize == before.maxSize
    && (r == Ok <==> good && (before.sizing || before.written + |bytes| <= before.maxSize))
    && (r == Ok ==> after.written == before.written + |bytes|
                    && after.out == if before.sizing then before.out else before.out + bytes)
    && (before.sizing ==> r != StreamFull)
    && r != SubmessageSizeChanged
  }

  lemma Chain(s0: Output, s1: Output, s2: Output, a: seq<Byte>, r: Status, good: bool, b: seq<Byte>)
    requires Wrote(s0, s1, Ok, true, a) && Wrote(s1, s2, r, good, b)
    ensures Wrote(s0, s2, r, good, a + b)
  {
    assert s0.out + (a + b) == (s0.out + a) + b;
  }

  lemma Stops(s0: Output, s1: Output, r: Status, good: bool, a: seq<Byte>, more: bool, b: seq<Byte>)
    requires Wrote(s0, s1, r, good, a) && r != Ok
    ensures Wrote(s0, s1, r, good && more, a + b)
  {
  }

  /** One turn of a loop that writes `whole` piece by piece. */
  lemma Turn(s0: Output, s1: Output, s2: Output, done: seq<Byte>, r: Status, good: bool, bytes: seq<Byte>, more: bool,
             rest: seq<Byte>, whole: seq<Byte>)
    requires Wrote(s0, s1, Ok, true, done) && Wrote(s1, s2, r, good, bytes)
    requires done + (bytes + rest) == whole
    ensures (done + bytes) + rest == whole
    ensures r == Ok ==> good && Wrote(s0, s2, Ok, true, done + bytes)
    ensures r != Ok ==> Wrote(s0, s2, r, good && more, whole)
  {
    Chain(s0, s1, s2, done, r, good, bytes);
    if r != Ok {
      Stops(s0, s2, r, good, done + bytes, more, rest);
    }
  }

  lemma Finished(s0: Output, s1: Output, done: seq<Byte>, whole: seq<Byte>)
    requires Wrote(s0, s1, Ok, true, done) && done + [] == whole
    ensures Wrote(s0, s1, Ok, true, whole)
  {
    assert done + [] == done;
  }

  class OStream {
    const sizing: bool
    const maxSize: nat
    var out: seq<Byte>
    var written: nat

    ghost function State(): (s: Output)
      reads this
    {
      Output(sizing, maxSize, out, written)
    }

    ghost predicate Valid()
      reads this
    {
      sizing || written <= maxSize
    }

    constructor Sizing()
      ensures Valid() && State() == Output(true, 0, [], 0)
    {
      sizing, maxSize, out, written := true, 0, [], 0;
    }

    constructor Writing(out: seq<Byte>, maxSize: nat)
      ensures Valid() && State() == Output(false, maxSize, out, 0)
    {
      this.sizing, this.maxSize, this.out, this.written := false, maxSize, out, 0;
    }

    method Write(bytes: seq<Byte>) returns (r: Status)
      requires Valid()
      modifies this
      ensures r == Ok ==> Valid()
      ensures Wrote(old(State()), State(), r, true, bytes)
    {
      if |bytes| > 0 && !sizing {
        if written + |bytes| > maxSize {
          return StreamFull;
        }
        out := out + bytes;
      }
      written := written + |bytes|;
      return Ok;
    }

    /** pb_write without a buffer, on a sizing stream. */
    method Count(size: nat)
      requires Valid() && sizing
      modifies this
      ensures Valid()
      ensures State() == old(State()).(written := old(written) + size)
    {
      written := written + size;
    }
  }

  // ---- varints ----

  function Septets(v: nat): (s: seq<Byte>)
    ensures forall i :: 0 <= i < |s| ==> s[i] >= 128
    ensures v > 0 ==> s != []
  {
    if v == 0 then [] else [v % 128 + 128] + Septets(v / 128)
  }

  /** The loop sets the top bit of every byte; the last one is cleared afterwards. */
  lemma {:induction false} SeptetsAreVarint(v: nat)
    requires v > 0
    ensures |Septets(v)| == |Varint(v)|
    ensures Septets(v)[..|Septets(v)| - 1] + [Septets(v)[|Septets(v)| - 1] - 128] == Varint(v)
  {
    if v < 128 {
      assert Septets(v / 128) == [];
    } else {
      SeptetsAreVarint(v / 128);
      var tail := Septets(v / 128);
      assert Septets(v) == [v % 128 + 128] + tail;
      assert Septets(v)[..|tail|] == [v % 128 + 128] + tail[..|tail| - 1];
    }
  }

  lemma NextSeptet(buffer: seq<Byte>, left: nat)
    requires left != 0
    ensures (buffer + [left % 128 + 128]) + Septets(left / 128) == buffer + Septets(left)
  {
    Associate(buffer, [left % 128 + 128], Septets(left / 128));
  }

  method VarintBytes(value: nat) returns (buffer: seq<Byte>)
    requires value > 0
    ensures buffer == Varint(value)
  {
    buffer := [];
    var left := value;
    while left != 0
      invariant buffer + Septets(left) == Septets(value)
    {
      NextSeptet(buffer, left);
      buffer := buffer + [left % 128 + 128];
      left := left / 128;
    }
    SeptetsAreVarint(value);
    assert buffer == Septets(value);
    buffer := buffer[..|buffer| - 1] + [buffer[|buffer| - 1] - 128];
  }

  method EncodeVarint(stream: OStream, value: nat) returns (r: Status)
    requires stream.Valid()
    modifies stream
    ensures r == Ok ==> stream.Valid()
    ensures Wrote(old(stream.State()), stream.State(), r, true, Varint(value))
  {
    if value <= 0x7F {
      r := stream.Write([value]);
    } else {
      var buffer := VarintBytes(value);
      r := stream.Write(buffer);
    }
  }

  method EncodeString(stream: OStream, bytes: seq<Byte>) returns (r: Status)
    requires stream.Valid()
    modifies stream
    ensures r == Ok ==> stream.Valid()
    ensures Wrote(old(stream.State()), stream.State(), r, true, Prefixed(bytes))
  {
    ghost var s0 := stream.State();
    r := EncodeVarint(stream, |bytes|);
    if r != Ok {
      Stops(s0, stream.State(), r, true, Varint(|bytes|), true, bytes);
      return;
    }
    ghost var s1 := stream.State();
    r := stream.Write(bytes);
    Chain(s0, s1, stream.State(), Varint(|bytes|), r, true, bytes);
  }

  // ---- values ----

  method EncodeNumberField(stream: OStream, kind: Kind, n: int) returns (r: Status)
    requires stream.Valid() && Packable(kind) && Holds(kind, Number(n))
    modifies stream
    ensures r == Ok ==> stream.Valid()
    ensures Wrote(old(stream.State()), stream.State(), r, true, EncodeNumber(kind, n))
  {
    match kind
    case Bool => r := EncodeVarint(stream, if n != 0 then 1 else 0);
    case Signed(w) =>
      SignedFits(n, w);
      r := EncodeVarint(stream, AsUnsigned(n));
    case Unsigned(w) => r := EncodeVarint(stream, n);
    case ZigZag(w) =>
      SignedFits(n, w);
      r := EncodeVarint(stream, ZigZagged(n));
    case Fixed32Kind =>
      UnsignedFits(n, 4);
      r := stream.Write(Fixed32(n));
    case Fixed64Kind =>
      UnsignedFits(n, 8);
      r := stream.Write(Fixed64(n));
  }

  /** Counts up to the first zero, or the end of the buffer. */
  method StringLength(bytes: seq<Byte>) returns (size: nat)
    ensures size == |CString(bytes)|
  {
    size := 0;
    while size < |bytes| && bytes[size] != 0
      invariant size <= |bytes| && forall i :: 0 <= i < size ==> bytes[i] != 0
    {
      size := size + 1;
    }
  }

  method EncodeField(stream: OStream, kind: Kind, v: Value) returns (r: Status)
    requires stream.Valid() && Holds(kind, v) && (kind.Submessage? ==> WellFormed(kind.descriptor))
    modifies stream
    ensures r == Ok ==> stream.Valid()
    ensures Wrote(old(stream.State()), stream.State(), r, Encodable(kind, v), EncodeValue(kind, v))
    decreases kind, 0
  {
    match kind
    case Bytes(size) =>
      if |v.bytes| + BYTES_HEADER > size {
        return BytesSizeExceeded;
      }
      r := EncodeString(stream, v.bytes);
    case String(size) =>
      var length := StringLength(v.bytes);
      r := EncodeString(stream, v.bytes[..length]);
    case FixedBytes(size) => r := EncodeString(stream, v.bytes);
    case Submessage(d) => r := EncodeSubmessage(stream, d, v.slots);
    case _ => r := EncodeNumberField(stream, kind, v.n);
  }

  /** Sizes the message with a first pass, and writes it with a second one that may use no more than that. */
  method EncodeSubmessage(stream: OStream, d: Descriptor, slots: seq<Slot>) returns (r: Status)
    requires stream.Valid() && WellFormed(d) && Fits(d, slots)
    modifies stream
    ensures r == Ok ==> stream.Valid()
    ensures Wrote(old(stream.State()), stream.State(), r, AllEncodable(d, slots, 0),
      Prefixed(EncodeFields(d, slots, 0)))
    decreases d, 2
  {
    ghost var s0, body, good := stream.State(), EncodeFields(d, slots, 0), AllEncodable(d, slots, 0);
    var substream := new OStream.Sizing();
    r := Encode(substream, d, slots);
    if r != Ok {
      return;
    }
    var size := substream.written;
    r := EncodeVarint(stream, size);
    if r != Ok {
      Stops(s0, stream.State(), r, true, Varint(|body|), good, body);
      return;
    }
    ghost var s1 := stream.State();
    if stream.sizing {
      stream.Count(size);
      Chain(s0, s1, stream.State(), Varint(|body|), Ok, true, body);
      return Ok;
    }
    if stream.written + size > stream.maxSize {
      Chain(s0, s1, stream.State(), Varint(|body|), StreamFull, good, body);
      return StreamFull;
    }
    substream := new OStream.Writing(stream.out, size);
    r := Encode(substream, d, slots);
    stream.written := stream.written + substream.written;
    stream.out := substream.out;
    if substream.written != size {
      return SubmessageSizeChanged;
    }
    Chain(s0, s1, stream.State(), Varint(|body|), r, good, body);
  }

  // ---- fields ----

  method EncodeTaggedField(stream: OStream, field: Field, v: Value) returns (r: Status)
    requires stream.Valid() && Holds(field.kind, v) && FieldWellFormed(field)
    modifies stream
    ensures r == Ok ==> stream.Valid()
    ensures Wrote(old(stream.State()), stream.State(), r, Encodable(field.kind, v), EncodeTagged(field, v))
    decreases field, 0
  {
    ghost var s0, key, bytes := stream.State(), Varint(FieldKey(field.tag, WireType(field.kind))),
      EncodeValue(field.kind, v);
    r := EncodeVarint(stream, FieldKey(field.tag, WireType(field.kind)));
    if r != Ok {
      Stops(s0, stream.State(), r, true, key, Encodable(field.kind, v), bytes);
      return;
    }
    ghost var s1 := stream.State();
    r := EncodeField(stream, field.kind, v);
    Chain(s0, s1, stream.State(), key, r, Encodable(field.kind, v), bytes);
  }

  lemma SuffixStep<T>(s: seq<T>, i: nat)
    requires i < |s|
    ensures s[i..] != [] && s[i..][0] == s[i] && s[i..][1..] == s[i + 1..]
  {
  }

  /** The loop over the items of a packed array, run on a sizing stream first and then on the real one. */
  method EncodeItems(stream: OStream, kind: Kind, items: seq<Value>) returns (r: Status)
    requires stream.Valid() && Packable(kind) && AllHold(kind, items)
    modifies stream
    ensures r == Ok ==> stream.Valid()
    ensures Wrote(old(stream.State()), stream.State(), r, true, EncodePacked(kind, items))
  {
    ghost var s0 := stream.State();
    ghost var done: seq<Byte> := [];
    var i := 0;
    while i < |items|
      invariant i <= |items| && stream.Valid()
      invariant Wrote(s0, stream.State(), Ok, true, done)
      invariant done + EncodePacked(kind, items[i..]) == EncodePacked(kind, items)
    {
      SuffixStep(items, i);
      ghost var s1, bytes, rest := stream.State(), EncodeValue(kind, items[i]), EncodePacked(kind, items[i + 1..]);
      r := EncodeNumberField(stream, kind, items[i].n);
      Turn(s0, s1, stream.State(), done, r, true, bytes, true, rest, EncodePacked(kind, items));
      if r != Ok {
        return;
      }
      done := done + bytes;
      i := i + 1;
    }
    Finished(s0, stream.State(), done, EncodePacked(kind, items));
    return Ok;
  }

  lemma {:induction false} FixedItemsLength(kind: Kind, items: seq<Value>)
    requires (kind.Fixed32Kind? || kind.Fixed64Kind?) && AllHold(kind, items)
    ensures |EncodePacked(kind, items)| == if kind.Fixed32Kind? then 4 * |items| else 8 * |items|
  {
    if items != [] {
      FixedItemsLength(kind, items[1..]);
      var n := items[0].n;
      if kind.Fixed32Kind? {
        UnsignedFits(n, 4);
        assert |EncodeValue(kind, items[0])| == |Fixed32(n)|;
      } else {
        UnsignedFits(n, 8);
        assert |EncodeValue(kind, items[0])| == |Fixed64(n)|;
      }
    }
  }

  /** The total size of a packed array. */
  method PackedSize(kind: Kind, items: seq<Value>) returns (size: nat)
    requires Packable(kind) && AllHold(kind, items)
    ensures size == |EncodePacked(kind, items)|
  {
    if kind.Fixed32Kind? {
      FixedItemsLength(kind, items);
      size := 4 * |items|;
    } else if kind.Fixed64Kind? {
      FixedItemsLength(kind, items);
      size := 8 * |items|;
    } else {
      var sizestream := new OStream.Sizing();
      var r := EncodeItems(sizestream, kind, items);
      size := sizestream.written;
    }
  }

  method EncodePackedArray(stream: OStream, field: Field, items: seq<Value>) returns (r: Status)
    requires stream.Valid() && Packable(field.kind) && AllHold(field.kind, items) && items != []
    modifies stream
    ensures r == Ok ==> stream.Valid()
    ensures Wrote(old(stream.State()), stream.State(), r, true, EncodeArrayOf(field, items))
  {
    ghost var s0, key, body := stream.State(), Varint(FieldKey(field.tag, WT_STRING)), EncodePacked(field.kind, items);
    r := EncodeVarint(stream, FieldKey(field.tag, WT_STRING));
    if r != Ok {
      Stops(s0, stream.State(), r, true, key, true, Prefixed(body));
      return;
    }
    ghost var s1 := stream.State();
    var size := PackedSize(field.kind, items);
    r := EncodeVarint(stream, size);
    Chain(s0, s1, stream.State(), key, r, true, Varint(|body|));
    assert key + Prefixed(body) == (key + Varint(|body|)) + body;
    if r != Ok {
      Stops(s0, stream.State(), r, true, key + Varint(|body|), true, body);
      return;
    }
    ghost var s2 := stream.State();
    if stream.sizing {
      stream.Count(size);
      Chain(s0, s2, stream.State(), key + Varint(|body|), Ok, true, body);
      return Ok;
    }
    r := EncodeItems(stream, field.kind, items);
    Chain(s0, s2, stream.State(), key + Varint(|body|), r, true, body);
  }

  method EncodeUnpackedArray(stream: OStream, field: Field, items: seq<Value>) returns (r: Status)
    requires stream.Valid() && AllHold(field.kind, items) && FieldWellFormed(field)
    modifies stream
    ensures r == Ok ==> stream.Valid()
    ensures Wrote(old(stream.State()), stream.State(), r, ItemsEncodable(field.kind, items), EncodeEach(field, items))
    decreases field, 1
  {
    ghost var s0 := stream.State();
    ghost var done: seq<Byte> := [];
    var i := 0;
    while i < |items|
      invariant i <= |items| && stream.Valid()
      invariant Wrote(s0, stream.State(), Ok, true, done)
      invariant ItemsEncodable(field.kind, items[..i])
      invariant done + EncodeEach(field, items[i..]) == EncodeEach(field, items)
    {
      SuffixStep(items, i);
      ghost var s1, bytes, rest := stream.State(), EncodeTagged(field, items[i]), EncodeEach(field, items[i + 1..]);
      ghost var good := Encodable(field.kind, items[i]);
      r := EncodeTaggedField(stream, field, items[i]);
      OneMoreEncodable(field.kind, items, i);
      Turn(s0, s1, stream.State(), done, r, good, bytes, ItemsEncodable(field.kind, items[i + 1..]), rest,
        EncodeEach(field, items));
      if r != Ok {
        return;
      }
      done := done + bytes;
      i := i + 1;
    }
    assert items[..i] == items;
    Finished(s0, stream.State(), done, EncodeEach(field, items));
    return Ok;
  }

  lemma OneMoreEncodable(kind: Kind, items: seq<Value>, i: nat)
    requires AllHold(kind, items) && i < |items| && ItemsEncodable(kind, items[..i])
    ensures ItemsEncodable(kind, items[..i + 1]) <==> Encodable(kind, items[i])
    ensures ItemsEncodable(kind, items) <==> Encodable(kind, items[i]) && ItemsEncodable(kind, items[i + 1..])
  {
    var head, tail := items[..i + 1], items[i + 1..];
    assert head[i] == items[i] && forall k :: 0 <= k < i ==> head[k] == items[..i][k];
    assert forall k :: i < k < |items| ==> items[k] == tail[k - i - 1];
    assert forall k :: 0 <= k < i ==> items[k] == items[..i][k];
  }

  method EncodeArray(stream: OStream, field: Field, items: seq<Value>) returns (r: Status)
    requires stream.Valid() && field.rule.Repeated? && SlotFits(field, Many(items)) && FieldWellFormed(field)
    modifies stream
    ensures r == Ok ==> stream.Valid()
    ensures Wrote(old(stream.State()), stream.State(), r, SlotEncodable(field, Many(items)),
      EncodeArrayOf(field, items))
    decreases field, 2
  {
    if |items| == 0 {
      return Ok;
    }
    if |items| > field.rule.arraySize {
      return ArraySizeExceeded;
    }
    if Packable(field.kind) {
      r := EncodePackedArray(stream, field, items);
    } else {
      r := EncodeUnpackedArray(stream, field, items);
    }
  }

  method EncodeBasicField(stream: OStream, field: Field, slot: Slot) returns (r: Status)
    requires stream.Valid() && SlotFits(field, slot) && FieldWellFormed(field)
    modifies stream
    ensures r == Ok ==> stream.Valid()
    ensures Wrote(old(stream.State()), stream.State(), r, SlotEncodable(field, slot), EncodeSlot(field, slot))
    decreases field, 3
  {
    match slot
    case One(v) => r := EncodeTaggedField(stream, field, v);
    case Maybe(content) =>
      r := Ok;
      if content.Some? {
        r := EncodeTaggedField(stream, field, content.value);
      }
    case Many(items) => r := EncodeArray(stream, field, items);
  }

  lemma FirstEncodable(d: Descriptor, slots: seq<Slot>, i: nat)
    requires Fits(d, slots) && i < |slots|
    ensures AllEncodable(d, slots, i) <==> SlotEncodable(d.fields[i], slots[i]) && AllEncodable(d, slots, i + 1)
  {
  }

  /** The loop over the fields has come to `next`: what is written so far, and what is to be written in all. */
  datatype Turnover = Turnover(before: Output, now: Output, d: Descriptor, slots: seq<Slot>, next: nat, done: seq<Byte>,
                               whole: seq<Byte>, good: bool)

  /** Only looked into for opened states of the loop. */
  ghost predicate Midway(t: Turnover) {
    forall x: Turnover {:trigger Opened(x)} :: Opened(x) && x == t ==> OnTheWay(x)
  }

  ghost predicate OnTheWay(t: Turnover) {
    && Fits(t.d, t.slots) && t.next <= |t.slots| && Wrote(t.before, t.now, Ok, true, t.done)
    && t.good == AllEncodable(t.d, t.slots, t.next) && t.done + EncodeFields(t.d, t.slots, t.next) == t.whole
  }

  lemma MidwayStarts(s0: Output, d: Descriptor, slots: seq<Slot>)
    requires Fits(d, slots) && (s0.sizing || s0.written <= s0.maxSize)
    ensures Midway(Turnover(s0, s0, d, slots, 0, [], EncodeFields(d, slots, 0), AllEncodable(d, slots, 0)))
  {
    assert [] + EncodeFields(d, slots, 0) == EncodeFields(d, slots, 0);
    assert s0.out + [] == s0.out;
  }

  lemma MidwayEnds(t: Turnover)
    requires Midway(t) && t.next == |t.slots|
    ensures Wrote(t.before, t.now, Ok, t.good, t.whole)
  {
    assert Opened(t) && OnTheWay(t);
    Finished(t.before, t.now, t.done, t.whole);
  }

  lemma MidwayGoesOn(t: Turnover, now: Output, r: Status)
    requires Midway(t) && Fits(t.d, t.slots) && t.next < |t.slots|
    requires Wrote(t.now, now, r, SlotEncodable(t.d.fields[t.next], t.slots[t.next]),
                   EncodeSlot(t.d.fields[t.next], t.slots[t.next]))
    ensures r == Ok ==>
      Midway(t.(now := now, next := t.next + 1, done := t.done + EncodeSlot(t.d.fields[t.next], t.slots[t.next])))
    ensures r != Ok ==> Wrote(t.before, now, r, t.good, t.whole)
  {
    assert Opened(t) && OnTheWay(t);
    FirstEncodable(t.d, t.slots, t.next);
    Turn(t.before, t.now, now, t.done, r, SlotEncodable(t.d.fields[t.next], t.slots[t.next]),
         EncodeSlot(t.d.fields[t.next], t.slots[t.next]), AllEncodable(t.d, t.slots, t.next + 1),
         EncodeFields(t.d, t.slots, t.next + 1), t.whole);
  }

  /** One turn of the loop over the fields. */
  method EncodeNext(stream: OStream, d: Descriptor, slots: seq<Slot>, i: nat, ghost t: Turnover)
    returns (r: Status, ghost t': Turnover)
    requires stream.Valid() && WellFormed(d) && Fits(d, slots) && i < |slots|
    requires Midway(t) && t.now == stream.State() && t.d == d && t.slots == slots && t.next == i
    modifies stream
    ensures t' == t.(now := stream.State(), next := i + 1, done := t'.done)
    ensures if r == Ok then stream.Valid() && Midway(t') else Wrote(t.before, stream.State(), r, t.good, t.whole)
    decreases d, 0
  {
    r := EncodeBasicField(stream, d.fields[i], slots[i]);
    t' := t.(now := stream.State(), next := i + 1, done := t.done + EncodeSlot(d.fields[i], slots[i]));
    MidwayGoesOn(t, stream.State(), r);
  }

  /** pb_encode: success exactly when there is nothing to refuse and the message fits. */
  method Encode(stream: OStream, d: Descriptor, slots: seq<Slot>) returns (r: Status)
    requires stream.Valid() && WellFormed(d) && Fits(d, slots)
    modifies stream
    ensures r == Ok ==> stream.Valid()
    ensures Wrote(old(stream.State()), stream.State(), r, AllEncodable(d, slots, 0), EncodeFields(d, slots, 0))
    decreases d, 1
  {
    var iter := new FieldIter(d);
    var more := iter.Begin();
    ghost var s0, whole, good := stream.State(), EncodeFields(d, slots, 0), AllEncodable(d, slots, 0);
    ghost var t := Turnover(s0, s0, d, slots, 0, [], whole, good);
    MidwayStarts(s0, d, slots);
    while more
      invariant iter.Valid() && iter.descriptor == d && stream.Valid() && fresh(iter)
      invariant Midway(t) && t == Turnover(s0, stream.State(), d, slots, t.next, t.done, whole, good)
      invariant t.next <= |slots| && (if more then iter.pos == t.next < |slots| else t.next == |slots|)
      decreases |slots| - t.next
    {
      r, t := EncodeNext(stream, d, slots, iter.pos, t);
      if r != Ok {
        return;
      }
      more := iter.Next();
    }
    MidwayEnds(t);
    return Ok;
  }

  /** pb_get_encoded_size: the size the sizing pass finds is the number of bytes of the message. */
  method GetEncodedSize(d: Descriptor, slots: seq<Slot>) returns (size: Option<nat>)
    requires WellFormed(d) && Fits(d, slots)
    ensures size == if AllEncodable(d, slots, 0) then Some(|EncodeFields(d, slots, 0)|) else None
  {
    var stream := new OStream.Sizing();
    var r := Encode(stream, d, slots);
    size := if r == Ok then Some(stream.written) else None;
  }
}
