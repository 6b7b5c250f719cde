/** The decoder as it runs (nanopb/pb_decode.c): streams, substreams, the field iterator and the bitmap of
    required fields, proved to compute what module ProtoDecode defines. */
module ProtoReader {
  import opened Basics
  import opened Coding
  import opened ProtoFields
  import opened ProtoEncode
  import opened ProtoDecode

  /** A stream over a buffer. A substream reads the same buffer with a limit of its own. */
  class IStream {
    const source: seq<Byte>
    var pos: nat
    var bytesLeft: nat

    ghost predicate Valid()
      reads this
    {
      pos + bytesLeft <= |source|
    }

    ghost function Contents(): (s: seq<Byte>)
      requires Valid()
      reads this
      ensures |s| == bytesLeft
    {
      source[pos..pos + bytesLeft]
    }

    constructor (source: seq<Byte>, pos: nat, bytesLeft: nat)
      requires pos + bytesLeft <= |source|
      ensures Valid() && this.source == source && this.pos == pos && this.bytesLeft == bytesLeft
    {
      this.source, this.pos, this.bytesLeft := source, pos, bytesLeft;
    }

    /** Reads, or skips when nobody wants the bytes. */
    method Read(count: nat) returns (r: Option<seq<Byte>>)
      requires Valid()
      modifies this
      ensures Consumed(this, old(End(this)), r, Take(old(Contents()), count))
    {
      if count == 0 {
        return Some([]);
      }
      if bytesLeft < count {
        return None;
      }
      var bytes := source[pos..pos + count];
      assert Contents()[..count] == bytes && Contents()[count..] == source[pos + count..pos + bytesLeft];
      pos, bytesLeft := pos + count, bytesLeft - count;
      return Some(bytes);
    }

    method ReadByte() returns (r: Option<Byte>)
      requires Valid()
      modifies this
      ensures r.Some? <==> old(bytesLeft) > 0
      ensures Valid() && End(this) == old(End(this))
      ensures r.Some? ==> r.value == old(Contents())[0] && Contents() == old(Contents())[1..]
    {
      if bytesLeft == 0 {
        return None;
      }
      var byte := source[pos];
      pos, bytesLeft := pos + 1, bytesLeft - 1;
      return Some(byte);
    }
  }

  ghost function End(stream: IStream): nat
    reads stream
  {
    stream.pos + stream.bytesLeft
  }

  /** What the stream read is what the parser makes of its contents before, and it is left with the rest, up
      to the same end. */
  ghost predicate Consumed<T>(stream: IStream, end: nat, r: Option<T>, parsed: Parsed<T>)
    reads stream
  {
    && (r.Some? <==> parsed.Parsed?)
    && (r.Some? ==> stream.Valid() && r.value == parsed.value && stream.Contents() == parsed.rest && End(stream) == end)
  }

  // ---- varints ----

  method DecodeVarint32(stream: IStream) returns (r: Option<nat>)
    requires stream.Valid()
    modifies stream
    ensures Consumed(stream, old(End(stream)), r, Read32(old(stream.Contents())))
  {
    var byte := stream.ReadByte();
    if byte.None? {
      return None;
    }
    if byte.value < 0x80 {
      return Some(byte.value);
    }
    var bitpos: nat, result: nat := 7, byte.value - 0x80;
    while true
      invariant stream.Valid() && End(stream) == old(End(stream))
      invariant Read32(old(stream.Contents())) == Continue32(stream.Contents(), result, bitpos)
      decreases stream.bytesLeft
    {
      byte := stream.ReadByte();
      if byte.None? {
        return None;
      }
      var b := byte.value;
      if bitpos >= 32 {
        var signExtension := if bitpos < 63 then 0xFF else 0x01;
        if b % 128 != 0 && (result < 0x8000_0000 || b != signExtension) {
          return None;
        }
      } else {
        result := Or(result, Shl(b % 128, bitpos) % 0x1_0000_0000);
      }
      bitpos := (bitpos + 7) % 256;
      if b < 0x80 {
        if bitpos == 35 && b / 16 % 8 != 0 {
          return None;
        }
        return Some(result);
      }
    }
  }

  method DecodeVarint(stream: IStream) returns (r: Option<nat>)
    requires stream.Valid()
    modifies stream
    ensures Consumed(stream, old(End(stream)), r, Read64(old(stream.Contents())))
  {
    var bitpos: nat, result: nat := 0, 0;
    while true
      invariant stream.Valid() && End(stream) == old(End(stream))
      invariant Read64(old(stream.Contents())) == ReadVarint(stream.Contents(), 64, bitpos, result)
      decreases stream.bytesLeft
    {
      if bitpos >= 64 {
        return None;
      }
      var byte := stream.ReadByte();
      if byte.None? {
        return None;
      }
      result := result + Shl(byte.value % 128, bitpos) % Pow2(64);
      bitpos := bitpos + 7;
      if byte.value < 0x80 {
        return Some(result);
      }
    }
  }

  // ---- unknown fields ----

  method SkipVarintBytes(stream: IStream) returns (r: Option<()>)
    requires stream.Valid()
    modifies stream
    ensures Consumed(stream, old(End(stream)), r, SkipVarint(old(stream.Contents())))
  {
    while true
      invariant stream.Valid() && End(stream) == old(End(stream))
      invariant SkipVarint(old(stream.Contents())) == SkipVarint(stream.Contents())
      decreases stream.bytesLeft
    {
      var byte := stream.ReadByte();
      if byte.None? {
        return None;
      }
      if byte.value < 0x80 {
        return Some(());
      }
    }
  }

  method SkipBytes(stream: IStream, count: nat) returns (r: Option<()>)
    requires stream.Valid()
    modifies stream
    ensures Consumed(stream, old(End(stream)), r, Forget(Take(old(stream.Contents()), count)))
  {
    var bytes := stream.Read(count);
    r := if bytes.Some? then Some(()) else None;
  }

  method SkipString(stream: IStream) returns (r: Option<()>)
    requires stream.Valid()
    modifies stream
    ensures Consumed(stream, old(End(stream)), r, Forget(TakePrefixed(old(stream.Contents()))))
  {
    var length := DecodeVarint32(stream);
    if length.None? {
      return None;
    }
    r := SkipBytes(stream, length.value);
  }

  method SkipUnknown(stream: IStream, wireType: nat) returns (r: Option<()>)
    requires stream.Valid()
    modifies stream
    ensures Consumed(stream, old(End(stream)), r, SkipField(wireType, old(stream.Contents())))
  {
    if wireType == WT_VARINT {
      r := SkipVarintBytes(stream);
    } else if wireType == WT_64BIT {
      r := SkipBytes(stream, 8);
    } else if wireType == WT_STRING {
      r := SkipString(stream);
    } else if wireType == WT_32BIT {
      r := SkipBytes(stream, 4);
    } else {
      r := None;
    }
  }

  // ---- substreams ----

  /** The substream starts where the stream stands; the stream keeps the bytes behind it, and stands at the
      substream's end once that is closed. */
  method MakeStringSubstream(stream: IStream) returns (r: Option<IStream>)
    requires stream.Valid()
    modifies stream
    ensures r.Some? <==> TakePrefixed(old(stream.Contents())).Parsed?
    ensures r.Some? ==> fresh(r.value) && r.value.Valid() && r.value.source == stream.source
    ensures r.Some? ==> var parsed := TakePrefixed(old(stream.Contents()));
      && r.value.Contents() == parsed.value && r.value.pos == stream.pos
      && stream.bytesLeft == |parsed.rest| && End(r.value) + stream.bytesLeft == old(End(stream))
      && stream.source[End(r.value)..End(r.value) + stream.bytesLeft] == parsed.rest
  {
    var size := DecodeVarint32(stream);
    if size.None? || stream.bytesLeft < size.value {
      return None;
    }
    var substream := new IStream(stream.source, stream.pos, size.value);
    stream.bytesLeft := stream.bytesLeft - size.value;
    return Some(substream);
  }

  method CloseStringSubstream(stream: IStream, substream: IStream)
    requires stream != substream && substream.Valid() && substream.source == stream.source
    requires End(substream) + stream.bytesLeft <= |stream.source|
    modifies stream, substream
    ensures stream.Valid() && stream.pos == old(End(substream)) && stream.bytesLeft == old(stream.bytesLeft)
  {
    if substream.bytesLeft > 0 {
      var _ := substream.Read(substream.bytesLeft);
    }
    stream.pos := substream.pos;
  }

  // ---- values ----

  method DecodeBool(stream: IStream) returns (r: Option<int>)
    requires stream.Valid()
    modifies stream
    ensures Consumed(stream, old(End(stream)), r, ReadBool(old(stream.Contents())))
  {
    var value := DecodeVarint32(stream);
    r := if value.None? then None else Some(if value.value != 0 then 1 else 0);
  }

  method DecodeSigned(stream: IStream, w: Width) returns (r: Option<int>)
    requires stream.Valid()
    modifies stream
    ensures Consumed(stream, old(End(stream)), r, ReadSigned(w, old(stream.Contents())))
  {
    var value := DecodeVarint(stream);
    if value.None? {
      return None;
    }
    var svalue := if w == 8 then Wrap(value.value, 8) else Wrap(value.value, 4);
    var clamped := Wrap(svalue, w);
    if clamped != svalue {
      return None;
    }
    return Some(clamped);
  }

  method DecodeUnsigned(stream: IStream, w: Width) returns (r: Option<int>)
    requires stream.Valid()
    modifies stream
    ensures Consumed(stream, old(End(stream)), r, ReadUnsigned(w, old(stream.Contents())))
  {
    var value := DecodeVarint(stream);
    if value.None? {
      return None;
    }
    var clamped := value.value % Pow2(8 * w);
    if clamped != value.value {
      return None;
    }
    return Some(clamped);
  }

  method DecodeZigZag(stream: IStream, w: Width) returns (r: Option<int>)
    requires stream.Valid()
    modifies stream
    ensures Consumed(stream, old(End(stream)), r, ReadZigZag(w, old(stream.Contents())))
  {
    var value := DecodeVarint(stream);
    if value.None? {
      return None;
    }
    var svalue := UnZigZag(value.value);
    var clamped := Wrap(svalue, w);
    if clamped != svalue {
      return None;
    }
    return Some(clamped);
  }

  method DecodeFixed32Value(stream: IStream) returns (r: Option<int>)
    requires stream.Valid()
    modifies stream
    ensures Consumed(stream, old(End(stream)), r, ReadFixed32(old(stream.Contents())))
  {
    ghost var s := stream.Contents();
    var bytes := stream.Read(4);
    if bytes.None? {
      return None;
    }
    assert bytes.value == s[..4];
    return Some(DecodeFixed32(bytes.value));
  }

  method DecodeFixed64Value(stream: IStream) returns (r: Option<int>)
    requires stream.Valid()
    modifies stream
    ensures Consumed(stream, old(End(stream)), r, ReadFixed64(old(stream.Contents())))
  {
    ghost var s := stream.Contents();
    var bytes := stream.Read(8);
    if bytes.None? {
      return None;
    }
    assert bytes.value == s[..8] && s[..8][4..] == s[4..][..4];
    return Some(DecodeFixed64(bytes.value));
  }

  method DecodeNumberField(stream: IStream, kind: Kind) returns (r: Option<int>)
    requires stream.Valid() && Packable(kind)
    modifies stream
    ensures Consumed(stream, old(End(stream)), r, DecodeNumber(kind, old(stream.Contents())))
  {
    match kind
    case Bool => r := DecodeBool(stream);
    case Signed(w) => r := DecodeSigned(stream, w);
    case Unsigned(w) => r := DecodeUnsigned(stream, w);
    case ZigZag(w) => r := DecodeZigZag(stream, w);
    case Fixed32Kind => r := DecodeFixed32Value(stream);
    case Fixed64Kind => r := DecodeFixed64Value(stream);
  }

  method DecodeBytes(stream: IStream, size: Word) returns (r: Option<Value>)
    requires stream.Valid()
    modifies stream
    ensures Consumed(stream, old(End(stream)), r, ReadBytes(size, old(stream.Contents())))
  {
    var length := DecodeVarint32(stream);
    if length.None? || length.value + BYTES_HEADER > size {
      return None;
    }
    var bytes := stream.Read(length.value);
    r := if bytes.None? then None else Some(Data(bytes.value));
  }

  method DecodeString(stream: IStream, size: Word) returns (r: Option<Value>)
    requires stream.Valid()
    modifies stream
    ensures Consumed(stream, old(End(stream)), r, ReadString(size, old(stream.Contents())))
  {
    var length := DecodeVarint32(stream);
    if length.None? || length.value + 1 > size {
      return None;
    }
    var bytes := stream.Read(length.value);
    r := if bytes.None? then None else Some(Data(bytes.value));
  }

  method DecodeFixedBytes(stream: IStream, size: Word) returns (r: Option<Value>)
    requires stream.Valid()
    modifies stream
    ensures Consumed(stream, old(End(stream)), r, ReadFixedBytes(size, old(stream.Contents())))
  {
    var length := DecodeVarint32(stream);
    if length.None? {
      return None;
    }
    if length.value == 0 {
      return Some(Data(seq(size, _ => 0)));
    }
    if length.value != size {
      return None;
    }
    var bytes := stream.Read(size);
    r := if bytes.None? then None else Some(Data(bytes.value));
  }

  /** The loop over the items of a packed array. */
  method DecodePackedItems(substream: IStream, kind: Kind, items: seq<Value>, arraySize: nat)
    returns (r: Option<seq<Value>>)
    requires substream.Valid() && Packable(kind) && AllHold(kind, items)
    modifies substream
    ensures r == DecodePacked(kind, old(substream.Contents()), items, arraySize)
    ensures r.Some? ==> substream.Valid() && substream.bytesLeft == 0 && End(substream) == old(End(substream))
  {
    var done := items;
    while substream.bytesLeft > 0 && |done| < arraySize
      invariant substream.Valid() && End(substream) == old(End(substream)) && AllHold(kind, done)
      invariant DecodePacked(kind, old(substream.Contents()), items, arraySize)
        == DecodePacked(kind, substream.Contents(), done, arraySize)
      decreases substream.bytesLeft
    {
      var n := DecodeNumberField(substream, kind);
      if n.None? {
        return None;
      }
      done := done + [Number(n.value)];
    }
    if substream.bytesLeft != 0 {
      return None;
    }
    return Some(done);
  }

  method DecodePackedArray(stream: IStream, kind: Kind, items: seq<Value>, arraySize: nat)
    returns (r: Option<seq<Value>>)
    requires stream.Valid() && Packable(kind) && AllHold(kind, items)
    modifies stream
    ensures r.Some? <==>
      && TakePrefixed(old(stream.Contents())).Parsed?
      && DecodePacked(kind, TakePrefixed(old(stream.Contents())).value, items, arraySize).Some?
    ensures r.Some? ==> Consumed(stream, old(End(stream)), Some(()), Forget(TakePrefixed(old(stream.Contents()))))
    ensures r.Some? ==> r == DecodePacked(kind, TakePrefixed(old(stream.Contents())).value, items, arraySize)
  {
    var substream := MakeStringSubstream(stream);
    if substream.None? {
      return None;
    }
    r := DecodePackedItems(substream.value, kind, items, arraySize);
    if r.Some? {
      CloseStringSubstream(stream, substream.value);
    }
  }

  // ---- fields ----

  method DecodeField(stream: IStream, kind: Kind, item: bool, prior: Value) returns (r: Option<Value>)
    requires stream.Valid() && Holds(kind, prior) && KindWellFormed(kind)
    modifies stream
    ensures Consumed(stream, old(End(stream)), r, DecodeValue(kind, item, old(stream.Contents()), prior))
    decreases kind, 0
  {
    match kind
    case Bytes(size) => r := DecodeBytes(stream, size);
    case String(size) => r := DecodeString(stream, size);
    case FixedBytes(size) => r := DecodeFixedBytes(stream, size);
    case Submessage(d) => r := DecodeSubmessage(stream, d, item, prior.slots);
    case _ =>
      var n := DecodeNumberField(stream, kind);
      r := if n.None? then None else Some(Number(n.value));
  }

  ghost predicate KindWellFormed(kind: Kind) {
    kind.Submessage? ==> WellFormed(kind.descriptor)
  }

  method DecodeSubmessage(stream: IStream, d: Descriptor, item: bool, prior: seq<Slot>) returns (r: Option<Value>)
    requires stream.Valid() && WellFormed(d) && Fits(d, prior)
    modifies stream
    ensures Holds(Submessage(d), Message(prior))
    ensures Consumed(stream, old(End(stream)), r,
      DecodeValue(Submessage(d), item, old(stream.Contents()), Message(prior)))
    decreases d, 3
  {
    DefaultsFit(d);
    var substream := MakeStringSubstream(stream);
    if substream.None? {
      return None;
    }
    var slots := DecodeNoInit(substream.value, d, if item then Defaults(d, |d.fields|) else prior);
    if slots.None? {
      return None;
    }
    CloseStringSubstream(stream, substream.value);
    return Some(Message(slots.value));
  }

  method DecodeStaticField(stream: IStream, field: Field, wireType: nat, slot: Slot) returns (r: Option<Slot>)
    requires stream.Valid() && SlotFits(field, slot) && KindWellFormed(field.kind)
    modifies stream
    ensures Consumed(stream, old(End(stream)), r, DecodeSlot(field, wireType, old(stream.Contents()), slot))
    decreases field, 0
  {
    ZeroHolds(field.kind);
    match field.rule
    case Required =>
      var v := DecodeField(stream, field.kind, false, slot.value);
      r := if v.None? then None else Some(One(v.value));
    case Optional =>
      var v := DecodeField(stream, field.kind, false,
                           if slot.content.Some? then slot.content.value else ZeroOf(field.kind));
      r := if v.None? then None else Some(Maybe(v));
    case Repeated(arraySize) =>
      if wireType == WT_STRING && Packable(field.kind) {
        var items := DecodePackedArray(stream, field.kind, slot.items, arraySize);
        r := if items.None? then None else Some(Many(items.value));
      } else {
        if |slot.items| >= arraySize {
          return None;
        }
        var v := DecodeField(stream, field.kind, true, ZeroOf(field.kind));
        r := if v.None? then None else Some(Many(slot.items + [v.value]));
      }
    case Arm(_) =>
      var v := DecodeField(stream, field.kind, false, ZeroOf(field.kind));
      r := if v.None? then None else Some(Maybe(v));
  }

  // ---- the bitmap of required fields ----

  /** The k-th bit of the two words. */
  ghost predicate Marked(fieldsSeen: seq<nat>, k: nat)
    requires |fieldsSeen| == 2 && k < MAX_REQUIRED_FIELDS
  {
    Bit(fieldsSeen[k / 32], k % 32)
  }

  ghost predicate Tracks(fieldsSeen: seq<nat>, seen: set<nat>) {
    && |fieldsSeen| == 2
    && (forall k: nat :: k < MAX_REQUIRED_FIELDS ==> (Marked(fieldsSeen, k) <==> k in seen))
    && (forall j, i: nat :: 0 <= j < 2 && i >= 32 ==> !Bit(fieldsSeen[j], i))
  }

  lemma SetBit(fieldsSeen: seq<nat>, seen: set<nat>, k: nat)
    requires Tracks(fieldsSeen, seen) && k < MAX_REQUIRED_FIELDS
    ensures Tracks(fieldsSeen[k / 32 := Or(fieldsSeen[k / 32], Pow2(k % 32))], seen + {k})
  {
    var word := fieldsSeen[k / 32];
    var after := fieldsSeen[k / 32 := Or(word, Pow2(k % 32))];
    forall i: nat ensures Bit(after[k / 32], i) <==> Bit(word, i) || i == k % 32 {
      OrBits(word, Pow2(k % 32), i);
      PowerHasOneBit(k % 32, i);
    }
    forall m: nat | m < MAX_REQUIRED_FIELDS ensures Marked(after, m) <==> m in seen + {k} {
      assert Marked(fieldsSeen, m) <==> m in seen;
    }
  }

  /** Whole words first, then the bits that are left. */
  method CheckRequired(fieldsSeen: array<nat>, count: nat, ghost seen: set<nat>) returns (ok: bool)
    requires fieldsSeen.Length == 2 && count <= MAX_REQUIRED_FIELDS
    requires count > 0 ==> Tracks(fieldsSeen[..], seen) && forall k :: k in seen ==> k < count
    ensures ok <==> forall k: nat :: k < count ==> k in seen
  {
    ghost var words := fieldsSeen[..];
    var i := 0;
    while i < count / 32
      invariant i <= count / 32
      invariant forall k: nat :: k < 32 * i ==> k in seen
    {
      FullWord(words, seen, i, 32);
      if fieldsSeen[i] != Pow2(32) - 1 {
        return false;
      }
      i := i + 1;
    }
    if count % 32 != 0 {
      FullWord(words, seen, count / 32, count % 32);
      if fieldsSeen[count / 32] != Pow2(count % 32) - 1 {
        return false;
      }
    }
    return true;
  }

  /** A word equals so many ones exactly when so many fields from the word's first one on were seen, and none of
      the word's others. */
  lemma FullWord(words: seq<nat>, seen: set<nat>, j: nat, n: nat)
    requires Tracks(words, seen) && j < 2 && n <= 32
    requires forall k :: k in seen && 32 * j <= k < 32 * j + 32 ==> k < 32 * j + n
    ensures words[j] == Pow2(n) - 1 <==> forall k: nat :: 32 * j <= k < 32 * j + n ==> k in seen
  {
    forall i: nat ensures Bit(words[j], i) <==> i < 32 && 32 * j + i in seen {
      if i < 32 {
        assert Marked(words, 32 * j + i) <==> 32 * j + i in seen;
        assert (32 * j + i) / 32 == j && (32 * j + i) % 32 == i;
      }
    }
    var ones := Pow2(n) - 1;
    forall i: nat ensures Bit(ones, i) <==> i < n {
      OnesBelow(n, i);
    }
    if forall k: nat :: 32 * j <= k < 32 * j + n ==> k in seen {
      BitsDecide(words[j], ones);
    } else {
      var k: nat :| 32 * j <= k < 32 * j + n && k !in seen;
      assert !Bit(words[j], k - 32 * j) && Bit(ones, k - 32 * j);
    }
  }

  /** Walks to the end of the descriptor; an empty one has no required field although its terminator looks like
      one. */
  method CountRequired(iter: FieldIter) returns (count: nat)
    requires iter.Valid()
    modifies iter
    ensures iter.Valid() && count == RequiredCount(iter.descriptor)
  {
    var d := iter.descriptor;
    var lastIsRequired, more := false, true;
    count := 0;
    while more
      invariant iter.Valid()
      invariant !more ==> iter.pos == 0
      invariant !more && d.fields == [] ==> count == 0
      invariant !more && d.fields != [] ==> (
        lastIsRequired == d.fields[|d.fields| - 1].rule.Required? && count == RequiredBefore(d, |d.fields| - 1))
      decreases if more then |d.fields| - iter.pos + 1 else 0
    {
      count := iter.requiredIndex;
      lastIsRequired := iter.pos == |d.fields| || d.fields[iter.pos].rule.Required?;
      more := iter.Next();
    }
    if lastIsRequired && TagAt(d, iter.pos) != 0 {
      count := count + 1;
    }
    if count > MAX_REQUIRED_FIELDS {
      count := MAX_REQUIRED_FIELDS;
    }
  }

  // ---- messages ----

  /** What the loop has found out so far. */
  ghost predicate LoopState(d: Descriptor, fieldsSeen: seq<nat>, p: Progress) {
    && Fits(d, p.slots)
    && (d.fields != [] ==> Tracks(fieldsSeen, p.seen))
    && (forall k :: k in p.seen ==> k < RequiredCount(d))
  }

  /** The terminator of an empty descriptor stands for a required bool, the value of which goes nowhere. */
  method DecodeTerminator(stream: IStream, fieldsSeen: array<nat>) returns (r: Option<()>)
    requires stream.Valid() && fieldsSeen.Length == 2
    modifies stream, fieldsSeen
    ensures Consumed(stream, old(End(stream)), r, Forget(Read32(old(stream.Contents()))))
  {
    fieldsSeen[0] := Or(fieldsSeen[0], Pow2(0));
    var value := DecodeBool(stream);
    r := if value.None? then None else Some(());
  }

  /** One field that the iterator stands at. */
  method DecodeFound(stream: IStream, iter: FieldIter, wireType: nat, fieldsSeen: array<nat>, slots: seq<Slot>,
                     ghost seen: set<nat>)
    returns (r: Option<seq<Slot>>)
    requires stream.Valid() && iter.Valid() && iter.pos < |iter.descriptor.fields| && WellFormed(iter.descriptor)
    requires fieldsSeen.Length == 2 && LoopState(iter.descriptor, fieldsSeen[..], Progress(slots, seen))
    modifies stream, fieldsSeen
    ensures var d, i := iter.descriptor, iter.pos;
      var parsed := DecodeSlot(d.fields[i], wireType, old(stream.Contents()), slots[i]);
      && (r.Some? <==> parsed.Parsed?)
      && (r.Some? ==> Consumed(stream, old(End(stream)), Some(parsed.value), parsed)
                      && r.value == Put(d, slots, i, parsed.value)
                      && LoopState(d, fieldsSeen[..], Progress(r.value, seen + Mark(d, i))))
    decreases iter.descriptor, 0
  {
    var d, i := iter.descriptor, iter.pos;
    if d.fields[i].rule.Required? && iter.requiredIndex < MAX_REQUIRED_FIELDS {
      var k := iter.requiredIndex;
      SetBit(fieldsSeen[..], seen, k);
      RequiredGrows(d, i, |d.fields|);
      fieldsSeen[k / 32] := Or(fieldsSeen[k / 32], Pow2(k % 32));
    }
    assert FieldWellFormed(d.fields[i]);
    var slot := DecodeStaticField(stream, d.fields[i], wireType, slots[i]);
    if slot.None? {
      return None;
    }
    return Some(Put(d, slots, i, slot.value));
  }

  /** One field behind its key: an unknown one is skipped. */
  method DecodeRecord(stream: IStream, iter: FieldIter, key: nat, fieldsSeen: array<nat>, slots: seq<Slot>,
                      ghost seen: set<nat>)
    returns (r: Option<seq<Slot>>, ghost seen': set<nat>)
    requires stream.Valid() && iter.Valid() && WellFormed(iter.descriptor)
    requires fieldsSeen.Length == 2 && LoopState(iter.descriptor, fieldsSeen[..], Progress(slots, seen))
    modifies stream, iter, fieldsSeen
    ensures iter.Valid()
    ensures var parsed := DecodeOne(iter.descriptor, key, old(stream.Contents()), Progress(slots, seen));
      && (r.Some? <==> parsed.Parsed?)
      && (r.Some? ==> Consumed(stream, old(End(stream)), Some(parsed.value), parsed)
                      && parsed.value == Progress(r.value, seen')
                      && LoopState(iter.descriptor, fieldsSeen[..], Progress(r.value, seen')))
    decreases iter.descriptor, 1
  {
    var d := iter.descriptor;
    var tag, wireType := key / 8, key % 8;
    var found := iter.Find(tag);
    r, seen' := None, seen;
    if !found {
      var skipped := SkipUnknown(stream, wireType);
      r := if skipped.Some? then Some(slots) else None;
    } else if iter.pos == |d.fields| {
      var skipped := DecodeTerminator(stream, fieldsSeen);
      r := if skipped.Some? then Some(slots) else None;
    } else {
      FoundByTag(d, iter.pos, 0);
      r := DecodeFound(stream, iter, wireType, fieldsSeen, slots, seen);
      seen' := seen + Mark(d, iter.pos);
    }
  }

  /** pb_decode_noinit. A zero key ends the message before the end of the stream. */
  method DecodeNoInit(stream: IStream, d: Descriptor, slots: seq<Slot>) returns (r: Option<seq<Slot>>)
    requires stream.Valid() && WellFormed(d) && Fits(d, slots)
    modifies stream
    ensures r == DecodeFields(d, old(stream.Contents()), slots)
    ensures r.Some? ==> stream.Valid() && End(stream) == old(End(stream))
    decreases d, 2
  {
    var fieldsSeen := new nat[2][0, 0];
    var iter := new FieldIter(d);
    var current := slots;
    ghost var seen: set<nat> := {};
    ghost var outcome := DecodeLoop(d, stream.Contents(), Progress(slots, {}));
    NothingSeen(fieldsSeen[..]);
    while stream.bytesLeft > 0
      invariant stream.Valid() && iter.Valid() && fresh(iter) && fresh(fieldsSeen) && iter.descriptor == d
      invariant End(stream) == old(End(stream)) && fieldsSeen.Length == 2
      invariant LoopState(d, fieldsSeen[..], Progress(current, seen))
      invariant outcome == DecodeLoop(d, stream.Contents(), Progress(current, seen))
      decreases stream.bytesLeft
    {
      var key := DecodeVarint32(stream);
      if key.None? {
        return None;
      }
      if key.value == 0 {
        break;
      }
      r, seen := DecodeRecord(stream, iter, key.value, fieldsSeen, current, seen);
      if r.None? {
        return;
      }
      current := r.value;
    }
    var count := CountRequired(iter);
    var complete := CheckRequired(fieldsSeen, count, seen);
    r := if complete then Some(current) else None;
  }

  lemma NothingSeen(fieldsSeen: seq<nat>)
    requires fieldsSeen == [0, 0]
    ensures Tracks(fieldsSeen, {})
  {
    forall i: nat ensures !Bit(0, i) {
      ZeroHasNoBits(i);
    }
  }

  /** pb_decode. */
  method DecodeMessage(stream: IStream, d: Descriptor) returns (r: Option<seq<Slot>>)
    requires stream.Valid() && WellFormed(d)
    modifies stream
    ensures r == Decode(d, old(stream.Contents()))
  {
    DefaultsFit(d);
    r := DecodeNoInit(stream, d, Defaults(d, |d.fields|));
  }
}
