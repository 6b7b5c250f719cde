/** Decoding inverts encoding, and what the check for required fields notices. */
module ProtoRoundTrip {
  import opened Basics
  import opened Coding
  import opened ProtoFields
  import opened ProtoEncode
  import opened ProtoDecode

  // ---- varints ----

  predicate Place(bitpos: nat) {
    bitpos == 7 || bitpos == 14 || bitpos == 21 || bitpos == 28
  }

  lemma {:induction false} Continue32ReadsBack(v: nat, result: nat, bitpos: nat, rest: seq<Byte>, total: nat)
    requires Place(bitpos) && result < Pow2(bitpos) && Shl(v, bitpos) < 0x1_0000_0000
    requires total == result + Shl(v, bitpos)
    ensures Continue32(Varint(v) + rest, result, bitpos) == Parsed(total, rest)
    decreases v
  {
    VarintUnfolds(v, rest);
    var tail := if v < 128 then rest else Varint(v / 128) + rest;
    var next := ContinueDigit(v, Varint(v) + rest, tail, result, bitpos);
    if v >= 128 {
      Continue32ReadsBack(v / 128, next, bitpos + 7, rest, total);
    }
  }

  lemma ContinueDigit(v: nat, s: seq<Byte>, tail: seq<Byte>, result: nat, bitpos: nat) returns (next: nat)
    requires s == [Digit(v)] + tail
    requires Place(bitpos) && result < Pow2(bitpos) && Shl(v, bitpos) < 0x1_0000_0000
    ensures v < 128 ==> Continue32(s, result, bitpos) == Parsed(next, tail) && next == result + Shl(v, bitpos)
    ensures v >= 128 ==> Continue32(s, result, bitpos) == Continue32(tail, next, bitpos + 7)
    ensures next + Shl(v / 128, bitpos + 7) == result + Shl(v, bitpos)
    ensures next < Pow2(bitpos + 7) && Shl(v / 128, bitpos + 7) < 0x1_0000_0000
    ensures v >= 128 ==> Place(bitpos + 7)
  {
    next := MergeDigit(v, result, bitpos);
    LowSeptet(v);
    Continue32One(Digit(v), tail, result, bitpos, next);
  }

  lemma Continue32One(b: Byte, tail: seq<Byte>, result: nat, bitpos: nat, next: nat)
    requires bitpos <= 28 && (bitpos == 28 ==> b < 16) && next == Merge32(b, result, bitpos)
    ensures Continue32([b] + tail, result, bitpos)
      == if b >= 128 then Continue32(tail, next, bitpos + 7) else Parsed(next, tail)
  {
    assert ([b] + tail)[1..] == tail;
  }

  lemma MergeDigit(v: nat, result: nat, bitpos: nat) returns (next: nat)
    requires Place(bitpos) && result < Pow2(bitpos) && Shl(v, bitpos) < 0x1_0000_0000
    ensures next == Or(result, Shl(v % 128, bitpos) % 0x1_0000_0000) && next < Pow2(bitpos + 7)
    ensures next + Shl(v / 128, bitpos + 7) == result + Shl(v, bitpos)
    ensures Shl(v / 128, bitpos + 7) < 0x1_0000_0000
    ensures v < 128 ==> next == result + Shl(v, bitpos)
    ensures v >= 128 ==> Place(bitpos + 7)
    ensures bitpos == 28 ==> Digit(v) < 16
  {
    assert Pow2(32) == 0x1_0000_0000 by {
      WordPowers();
    }
    SeptetFits(v, bitpos, 32);
    OrOfHigherBits(result, v % 128, bitpos);
    next := result + Shl(v % 128, bitpos);
    SeptetAbove(result, v % 128, bitpos);
    if bitpos == 28 {
      FourBitsLeft(v);
    }
  }

  lemma SeptetAbove(result: nat, low: nat, bitpos: nat)
    requires result < Pow2(bitpos) && low < 128
    ensures result + Shl(low, bitpos) < Pow2(bitpos + 7)
  {
    SeptetShift(bitpos);
    SeptetBelow(low, bitpos);
  }

  lemma FourBitsLeft(v: nat)
    requires Shl(v, 28) < 0x1_0000_0000
    ensures v < 16
  {
    if v >= 16 {
      ShlFour(16, v - 16);
    }
  }

  lemma ShlFour(n: nat, m: nat)
    requires n == 16
    ensures Shl(n + m, 28) >= 0x1_0000_0000
  {
    ShlAdds(n, m, 28);
    ShlGrows(1, 32);
    ShlAdds(8, 8, 28);
    ShlAdds(4, 4, 28);
    ShlAdds(2, 2, 28);
    ShlAdds(1, 1, 28);
    ShlGrows(1, 28);
    WordPowers();
  }

  lemma SeptetBelow(low: nat, bitpos: nat)
    requires low < 128
    ensures Shl(low, bitpos) <= 127 * Pow2(bitpos)
  {
    if bitpos > 0 {
      SeptetBelow(low, bitpos - 1);
    }
  }

  lemma Read32ReadsBack(v: Word, rest: seq<Byte>)
    ensures Read32(Varint(v) + rest) == Parsed(v, rest)
  {
    if v < 128 {
      assert ([v] + rest)[1..] == rest;
    } else {
      var tail := Varint(v / 128) + rest;
      VarintUnfolds(v, rest);
      Read32Continues(v % 128, tail);
      SevenBits(v);
      Continue32ReadsBack(v / 128, v % 128, 7, rest, v % 128 + Shl(v / 128, 7));
    }
  }

  lemma Read32Continues(low: nat, tail: seq<Byte>)
    requires low < 128
    ensures Read32([low + 128] + tail) == Continue32(tail, low, 7)
  {
    var s := [low + 128] + tail;
    assert s[1..] == tail;
  }

  lemma SevenBits(v: nat)
    ensures Pow2(7) == 128 && v % 128 + Shl(v / 128, 7) == v
  {
    ShlSeven(v / 128, 0);
  }

  lemma PrefixedReadsBack(bytes: seq<Byte>, rest: seq<Byte>)
    requires |bytes| < 0x1_0000_0000
    ensures TakePrefixed(Prefixed(bytes) + rest) == Parsed(bytes, rest)
    ensures Read32(Prefixed(bytes) + rest) == Parsed(|bytes|, bytes + rest)
    ensures (bytes + rest)[..|bytes|] == bytes && (bytes + rest)[|bytes|..] == rest
  {
    assert Prefixed(bytes) + rest == Varint(|bytes|) + (bytes + rest);
    Read32ReadsBack(|bytes|, bytes + rest);
  }

  // ---- numbers ----

  lemma WrapKeeps(n: int, w: Width)
    requires FitsSigned(n, w)
    ensures Wrap(n, w) == n
  {
    var p := Pow2(8 * w - 1);
    assert Pow2(8 * w) == 2 * p;
    LowBits(n, p);
  }

  lemma LowBits(n: int, p: nat)
    requires p >= 1 && 0 - p <= n < p
    ensures n % (2 * p) == if n < 0 then n + 2 * p else n
  {
    if n < 0 {
      Remainder(n, 2 * p, -1, n + 2 * p);
    } else {
      Small(n, 2 * p);
    }
  }

  /** The 64-bit value of a negative number, cut to the width of the cast, is the number again. */
  lemma WrapOfUnsigned(n: int, w: Width)
    requires FitsSigned(n, w) && Int64(n)
    ensures Wrap(AsUnsigned(n), w) == n
  {
    WrapKeeps(n, w);
    if n < 0 {
      var m := Pow2(8 * w);
      WordPowers();
      Pow2Adds(8 * w, 64 - 8 * w);
      WholeTurns(n, m, Pow2(64 - 8 * w));
    }
  }

  lemma WholeTurns(n: int, m: nat, k: nat)
    requires m >= 1
    ensures (n + m * k) % m == n % m
  {
    var q, r := n / m, n % m;
    assert n == m * q + r;
    assert n + m * k == (q + k) * m + r;
    Remainder(n + m * k, m, q + k, r);
  }

  lemma NumberReadsBack(kind: Kind, n: int, rest: seq<Byte>)
    requires Packable(kind) && Holds(kind, Number(n))
    ensures DecodeNumber(kind, EncodeNumber(kind, n) + rest) == Parsed(n, rest)
  {
    match kind
    case Bool => Read32ReadsBack(n, rest);
    case Signed(w) => SignedReadsBack(n, w, rest);
    case Unsigned(w) => UnsignedReadsBack(n, w, rest);
    case ZigZag(w) => ZigZagReadsBack(n, w, rest);
    case Fixed32Kind => Fixed32ReadsBack(n, rest);
    case Fixed64Kind => Fixed64ReadsBack(n, rest);
  }

  lemma UnsignedReadsBack(n: nat, w: Width, rest: seq<Byte>)
    requires FitsUnsigned(n, w)
    ensures ReadUnsigned(w, Varint(n) + rest) == Parsed(n, rest)
  {
    UnsignedFits(n, w);
    Varint64ReadsBack(n, rest);
    Small(n, Pow2(8 * w));
  }

  lemma ZigZagReadsBack(n: int, w: Width, rest: seq<Byte>)
    requires FitsSigned(n, w)
    ensures Int64(n) && ReadZigZag(w, Varint(ZigZagged(n)) + rest) == Parsed(n, rest)
  {
    SignedFits(n, w);
    Varint64ReadsBack(ZigZagged(n), rest);
    WrapKeeps(n, w);
  }

  lemma Fixed32ReadsBack(n: nat, rest: seq<Byte>)
    requires FitsUnsigned(n, 4)
    ensures n < 0x1_0000_0000 && ReadFixed32(Fixed32(n) + rest) == Parsed(n, rest)
  {
    UnsignedFits(n, 4);
    Fixed32RoundTrip(n, rest);
    assert (Fixed32(n) + rest)[4..] == rest;
  }

  lemma Fixed64ReadsBack(n: nat, rest: seq<Byte>)
    requires FitsUnsigned(n, 8)
    ensures n < 0x1_0000_0000_0000_0000 && ReadFixed64(Fixed64(n) + rest) == Parsed(n, rest)
  {
    UnsignedFits(n, 8);
    Fixed64RoundTrip(n, rest);
    assert (Fixed64(n) + rest)[8..] == rest;
  }

  lemma SignedReadsBack(n: int, w: Width, rest: seq<Byte>)
    requires FitsSigned(n, w)
    ensures Int64(n) && ReadSigned(w, Varint(AsUnsigned(n)) + rest) == Parsed(n, rest)
  {
    SignedFits(n, w);
    Varint64ReadsBack(AsUnsigned(n), rest);
    var cast: Width := if w == 8 then 8 else 4;
    Pow2Grows(8 * w - 1, 8 * cast - 1);
    WrapOfUnsigned(n, cast);
    WrapKeeps(n, w);
  }

  // ---- values ----

  /** The C string fills its buffer up to a terminator that is inside the buffer. */
  ghost predicate Terminated(bytes: seq<Byte>, size: nat) {
    CString(bytes) == bytes && |bytes| < size
  }

  lemma {:induction false} CStringIsWhole(bytes: seq<Byte>)
    ensures CString(CString(bytes)) == CString(bytes)
  {
    if bytes != [] && bytes[0] != 0 {
      CStringIsWhole(bytes[1..]);
      assert CString(bytes)[1..] == CString(bytes[1..]);
    }
  }

  /** A string field comes back exactly when it is terminated; one that fills its whole buffer is encoded and
      then refused. */
  lemma StringReadsBackIff(size: Word, v: Value, rest: seq<Byte>)
    requires Holds(String(size), v)
    ensures ReadString(size, EncodeValue(String(size), v) + rest) == Parsed(v, rest) <==> Terminated(v.bytes, size)
    ensures ReadString(size, EncodeValue(String(size), v) + rest).Malformed? <==> |CString(v.bytes)| == size
  {
    PrefixedReadsBack(CString(v.bytes), rest);
  }

  /** What the wire format and the buffers can carry: byte arrays and arrays within their buffers, terminated
      strings, one arm at most of every oneof, and lengths of 32 bits. */
  ghost predicate Faithful(kind: Kind, v: Value)
    requires Holds(kind, v)
    decreases kind, 0
  {
    match kind
    case Bytes(size) => |v.bytes| + BYTES_HEADER <= size
    case String(size) => Terminated(v.bytes, size)
    case Submessage(d) => AllFaithful(d, v.slots) && |EncodeFields(d, v.slots, 0)| < 0x1_0000_0000
    case _ => true
  }

  ghost predicate SlotFaithful(field: Field, slot: Slot)
    requires SlotFits(field, slot)
    decreases field
  {
    match slot
    case One(v) => Faithful(field.kind, v)
    case Maybe(None) => true
    case Maybe(Some(v)) => Faithful(field.kind, v)
    case Many(items) =>
      && |items| <= field.rule.arraySize
      && (forall k :: 0 <= k < |items| ==> Faithful(field.kind, items[k]))
      && (Packable(field.kind) ==> |EncodePacked(field.kind, items)| < 0x1_0000_0000)
  }

  ghost predicate OneArmEach(d: Descriptor, slots: seq<Slot>)
    requires Fits(d, slots)
  {
    forall i, j :: 0 <= i < |slots| && 0 <= j < |slots| && i != j && d.fields[i].rule.Arm? &&
      d.fields[j].rule == d.fields[i].rule
      ==> !(slots[i].Maybe? && slots[i].content.Some? && slots[j].Maybe? && slots[j].content.Some?)
  }

  ghost predicate AllFaithful(d: Descriptor, slots: seq<Slot>)
    requires Fits(d, slots)
    decreases d
  {
    OneArmEach(d, slots) && forall i :: 0 <= i < |slots| ==> SlotFaithful(d.fields[i], slots[i])
  }

  lemma {:induction false} ValueReadsBack(kind: Kind, item: bool, v: Value, rest: seq<Byte>)
    requires Holds(kind, v) && Faithful(kind, v) && (kind.Submessage? ==> WellFormed(kind.descriptor))
    ensures Holds(kind, ZeroOf(kind))
    ensures DecodeValue(kind, item, EncodeValue(kind, v) + rest, ZeroOf(kind)) == Parsed(v, rest)
    decreases kind, 0
  {
    ZeroHolds(kind);
    match kind
    case Bytes(size) => PrefixedReadsBack(v.bytes, rest);
    case String(size) => StringReadsBackIff(size, v, rest);
    case FixedBytes(size) => PrefixedReadsBack(v.bytes, rest);
    case Submessage(d) =>
      PrefixedReadsBack(EncodeFields(d, v.slots, 0), rest);
      DecodeInvertsEncode(d, v.slots);
    case _ => NumberReadsBack(kind, v.n, rest);
  }

  lemma {:induction false} PackedReadsBack(kind: Kind, items: seq<Value>, done: seq<Value>, arraySize: nat)
    requires Packable(kind) && AllHold(kind, items) && AllHold(kind, done) && |done| + |items| <= arraySize
    ensures DecodePacked(kind, EncodePacked(kind, items), done, arraySize) == Some(done + items)
    decreases |items|
  {
    if items == [] {
      assert done + items == done;
    } else {
      var n, rest := items[0].n, EncodePacked(kind, items[1..]);
      NumberReadsBack(kind, n, rest);
      PackedHead(kind, items);
      PackedStep(kind, EncodePacked(kind, items), n, rest, done, arraySize);
      PackedReadsBack(kind, items[1..], done + [Number(n)], arraySize);
      HeadAndTail(done, items);
    }
  }

  lemma PackedHead(kind: Kind, items: seq<Value>)
    requires Packable(kind) && AllHold(kind, items) && items != []
    ensures items[0] == Number(items[0].n) && EncodePacked(kind, items) != []
    ensures EncodePacked(kind, items) == EncodeNumber(kind, items[0].n) + EncodePacked(kind, items[1..])
  {
    NumberReadsBack(kind, items[0].n, []);
    assert EncodeNumber(kind, items[0].n) + [] == EncodeNumber(kind, items[0].n);
  }

  lemma HeadAndTail<T>(done: seq<T>, items: seq<T>)
    requires items != []
    ensures (done + [items[0]]) + items[1..] == done + items
  {
  }

  lemma PackedStep(kind: Kind, s: seq<Byte>, n: int, rest: seq<Byte>, done: seq<Value>, arraySize: nat)
    requires Packable(kind) && AllHold(kind, done) && |done| < arraySize && s != []
    requires DecodeNumber(kind, s) == Parsed(n, rest)
    ensures DecodePacked(kind, s, done, arraySize) == DecodePacked(kind, rest, done + [Number(n)], arraySize)
  {
  }

  // ---- one field of a message ----

  lemma RecordReadsBack(d: Descriptor, i: nat, wireType: nat, payload: seq<Byte>, rest: seq<Byte>, p: Progress,
                        slot: Slot)
    requires WellFormed(d) && Fits(d, p.slots) && i < |d.fields| && wireType < 8
    requires DecodeSlot(d.fields[i], wireType, payload + rest, p.slots[i]) == Parsed(slot, rest)
    ensures DecodeLoop(d, Varint(FieldKey(d.fields[i].tag, wireType)) + (payload + rest), p)
      == DecodeLoop(d, rest, Progress(Put(d, p.slots, i, slot), p.seen + Mark(d, i)))
  {
    assert FieldWellFormed(d.fields[i]);
    var key := FieldKey(d.fields[i].tag, wireType);
    Read32ReadsBack(key, payload + rest);
    FoundByTag(d, i, 0);
    KeyParts(d.fields[i].tag, wireType);
  }

  lemma KeyParts(tag: nat, wireType: nat)
    requires wireType < 8
    ensures FieldKey(tag, wireType) / 8 == tag && FieldKey(tag, wireType) % 8 == wireType
  {
  }

  /** The message after its first i fields but for one. */
  ghost function Partial(d: Descriptor, slots: seq<Slot>, i: nat, without: nat): (r: seq<Slot>)
    requires Fits(d, slots)
    ensures Fits(d, r)
  {
    DefaultsFit(d);
    seq(|slots|, j requires 0 <= j < |slots| => if j < i && j != without then slots[j] else Initial(d.fields[j]))
  }

  ghost function SeenUpTo(d: Descriptor, i: nat, without: nat): set<nat>
    requires i <= |d.fields|
  {
    if i == 0 then {} else SeenUpTo(d, i - 1, without) + if i - 1 == without then {} else Mark(d, i - 1)
  }

  ghost function After(d: Descriptor, slots: seq<Slot>, i: nat, without: nat): Progress
    requires Fits(d, slots) && i <= |d.fields|
  {
    Progress(Partial(d, slots, i, without), SeenUpTo(d, i, without))
  }

  lemma PutNext(d: Descriptor, slots: seq<Slot>, i: nat, without: nat)
    requires Fits(d, slots) && OneArmEach(d, slots) && i < |slots| && i != without
    requires slots[i].Maybe? ==> slots[i].content.Some?
    ensures Put(d, Partial(d, slots, i, without), i, slots[i]) == Partial(d, slots, i + 1, without)
  {
    var was, next := Partial(d, slots, i, without), Partial(d, slots, i + 1, without);
    forall j | 0 <= j < |slots| ensures Put(d, was, i, slots[i])[j] == next[j] {
      assert SlotFits(d.fields[j], slots[j]) && SlotFits(d.fields[i], slots[i]);
    }
  }

  lemma PutAfter(d: Descriptor, slots: seq<Slot>, i: nat, without: nat)
    requires Fits(d, slots) && OneArmEach(d, slots) && i < |slots| && i != without
    requires slots[i].Maybe? ==> slots[i].content.Some?
    ensures Progress(Put(d, After(d, slots, i, without).slots, i, slots[i]),
      After(d, slots, i, without).seen + Mark(d, i))
      == After(d, slots, i + 1, without)
  {
    PutNext(d, slots, i, without);
  }

  /** An empty slot is where the message starts. */
  lemma EmptyAfter(d: Descriptor, slots: seq<Slot>, i: nat, without: nat)
    requires Fits(d, slots) && i < |slots| && i != without
    requires slots[i] == Initial(d.fields[i]) && !d.fields[i].rule.Required?
    ensures After(d, slots, i, without) == After(d, slots, i + 1, without)
  {
    assert Partial(d, slots, i, without) == Partial(d, slots, i + 1, without);
  }

  ghost predicate UnpackedAt(d: Descriptor, slots: seq<Slot>, i: nat, k: nat, p: Progress)
    requires Fits(d, slots)
  {
    && i < |slots| && Fits(d, p.slots) && slots[i].Many? && !Packable(d.fields[i].kind)
    && k <= |slots[i].items| && p.slots[i] == Many(slots[i].items[..k])
  }

  lemma ItemReadsBack(d: Descriptor, slots: seq<Slot>, i: nat, k: nat, rest: seq<Byte>, p: Progress)
    returns (next: Progress)
    requires WellFormed(d) && Fits(d, slots) && AllFaithful(d, slots) && UnpackedAt(d, slots, i, k, p)
    requires k < |slots[i].items|
    ensures Holds(d.fields[i].kind, slots[i].items[k])
    ensures UnpackedAt(d, slots, i, k + 1, next) && next.slots[i := slots[i]] == p.slots[i := slots[i]]
    ensures next.seen == p.seen
    ensures DecodeLoop(d, EncodeTagged(d.fields[i], slots[i].items[k]) + rest, p) == DecodeLoop(d, rest, next)
    decreases d, |slots| - i, 0
  {
    var field, items := d.fields[i], slots[i].items;
    assert SlotFits(field, slots[i]) && SlotFaithful(field, slots[i]) && FieldWellFormed(field);
    var key, bytes := Varint(FieldKey(field.tag, WireType(field.kind))), EncodeValue(field.kind, items[k]);
    ValueReadsBack(field.kind, true, items[k], rest);
    assert items[..k] + [items[k]] == items[..k + 1];
    RecordReadsBack(d, i, WireType(field.kind), bytes, rest, p, Many(items[..k + 1]));
    Associate(key, bytes, rest);
    next := Progress(Put(d, p.slots, i, Many(items[..k + 1])), p.seen + Mark(d, i));
  }

  lemma {:induction false} ItemsReadBack(d: Descriptor, slots: seq<Slot>, i: nat, k: nat, rest: seq<Byte>, p: Progress)
    requires WellFormed(d) && Fits(d, slots) && AllFaithful(d, slots) && UnpackedAt(d, slots, i, k, p)
    ensures AllHold(d.fields[i].kind, slots[i].items[k..])
    ensures Fits(d, p.slots[i := slots[i]])
    ensures DecodeLoop(d, EncodeEach(d.fields[i], slots[i].items[k..]) + rest, p)
      == DecodeLoop(d, rest, p.(slots := p.slots[i := slots[i]]))
    decreases d, |slots| - i, 1, |slots[i].items| - k
  {
    var field, items := d.fields[i], slots[i].items;
    assert SlotFits(field, slots[i]);
    if k == |items| {
      assert items[..k] == items && items[k..] == [] && p.slots[i := slots[i]] == p.slots;
      assert [] + rest == rest;
    } else {
      SuffixStep(items, k);
      var more := EncodeEach(field, items[k + 1..]);
      Associate(EncodeTagged(field, items[k]), more, rest);
      var next := ItemReadsBack(d, slots, i, k, more + rest, p);
      ItemsReadBack(d, slots, i, k + 1, rest, next);
    }
  }

  lemma SlotReadsBack(d: Descriptor, slots: seq<Slot>, i: nat, without: nat, rest: seq<Byte>)
    requires WellFormed(d) && Fits(d, slots) && AllFaithful(d, slots) && i < |slots| && i != without
    ensures DecodeLoop(d, EncodeSlot(d.fields[i], slots[i]) + rest, After(d, slots, i, without))
      == DecodeLoop(d, rest, After(d, slots, i + 1, without))
    decreases d, |slots| - i, 3
  {
    var field, slot, p := d.fields[i], slots[i], After(d, slots, i, without);
    assert SlotFits(field, slot) && SlotFaithful(field, slot) && FieldWellFormed(field);
    match slot
    case One(v) => TaggedReadsBack(d, slots, i, without, v, rest);
    case Maybe(None) =>
      assert slot == Initial(field);
      EmptyAfter(d, slots, i, without);
      assert [] + rest == rest;
    case Maybe(Some(v)) => TaggedReadsBack(d, slots, i, without, v, rest);
    case Many(items) =>
      if items == [] {
        EmptyAfter(d, slots, i, without);
        assert [] + rest == rest;
      } else if Packable(field.kind) {
        PackedArrayReadsBack(d, slots, i, without, rest);
      } else {
        UnpackedArrayReadsBack(d, slots, i, without, rest);
      }
  }

  lemma UnpackedArrayReadsBack(d: Descriptor, slots: seq<Slot>, i: nat, without: nat, rest: seq<Byte>)
    requires WellFormed(d) && Fits(d, slots) && AllFaithful(d, slots) && i < |slots| && i != without
    requires slots[i].Many? && slots[i].items != [] && !Packable(d.fields[i].kind)
    ensures DecodeLoop(d, EncodeSlot(d.fields[i], slots[i]) + rest, After(d, slots, i, without))
      == DecodeLoop(d, rest, After(d, slots, i + 1, without))
    decreases d, |slots| - i, 2
  {
    var items, p := slots[i].items, After(d, slots, i, without);
    assert SlotFits(d.fields[i], slots[i]);
    assert items[..0] == [] && items[0..] == items;
    ItemsReadBack(d, slots, i, 0, rest, p);
    PutAfter(d, slots, i, without);
    var next := After(d, slots, i + 1, without);
    assert p.slots[i := slots[i]] == next.slots;
    assert p.seen + {} == p.seen;
  }

  lemma PackedArrayReadsBack(d: Descriptor, slots: seq<Slot>, i: nat, without: nat, rest: seq<Byte>)
    requires WellFormed(d) && Fits(d, slots) && AllFaithful(d, slots) && i < |slots| && i != without
    requires slots[i].Many? && slots[i].items != [] && Packable(d.fields[i].kind)
    ensures DecodeLoop(d, EncodeSlot(d.fields[i], slots[i]) + rest, After(d, slots, i, without))
      == DecodeLoop(d, rest, After(d, slots, i + 1, without))
  {
    var field, items, p := d.fields[i], slots[i].items, After(d, slots, i, without);
    assert SlotFits(field, slots[i]) && SlotFaithful(field, slots[i]);
    var key, body := Varint(FieldKey(field.tag, WT_STRING)), EncodePacked(field.kind, items);
    PackedReadsBack(field.kind, items, [], field.rule.arraySize);
    assert [] + items == items;
    PrefixedReadsBack(body, rest);
    RecordReadsBack(d, i, WT_STRING, Prefixed(body), rest, p, slots[i]);
    PutAfter(d, slots, i, without);
    Associate(key, Prefixed(body), rest);
  }

  lemma TaggedReadsBack(d: Descriptor, slots: seq<Slot>, i: nat, without: nat, v: Value, rest: seq<Byte>)
    requires WellFormed(d) && Fits(d, slots) && AllFaithful(d, slots) && i < |slots| && i != without
    requires slots[i] == One(v) || slots[i] == Maybe(Some(v))
    ensures Holds(d.fields[i].kind, v)
    ensures DecodeLoop(d, EncodeTagged(d.fields[i], v) + rest, After(d, slots, i, without))
      == DecodeLoop(d, rest, After(d, slots, i + 1, without))
    decreases d, |slots| - i, 2
  {
    var field, slot, p := d.fields[i], slots[i], After(d, slots, i, without);
    assert SlotFits(field, slot) && SlotFaithful(field, slot) && FieldWellFormed(field);
    assert p.slots[i] == Initial(field);
    var key, bytes := Varint(FieldKey(field.tag, WireType(field.kind))), EncodeValue(field.kind, v);
    ValueReadsBack(field.kind, false, v, rest);
    RecordReadsBack(d, i, WireType(field.kind), bytes, rest, p, slot);
    PutAfter(d, slots, i, without);
    Associate(key, bytes, rest);
  }

  // ---- whole messages ----

  /** The bytes of the fields from the i-th one on, but for one that is left out. */
  ghost function EncodeWithout(d: Descriptor, slots: seq<Slot>, i: nat, without: nat): seq<Byte>
    requires Fits(d, slots) && i <= |slots|
    decreases |slots| - i
  {
    if i == |slots| then []
    else (if i == without then [] else EncodeSlot(d.fields[i], slots[i])) + EncodeWithout(d, slots, i + 1, without)
  }

  lemma {:induction false} NothingLeftOut(d: Descriptor, slots: seq<Slot>, i: nat)
    requires Fits(d, slots) && i <= |slots|
    ensures EncodeWithout(d, slots, i, |slots|) == EncodeFields(d, slots, i)
    decreases |slots| - i
  {
    if i < |slots| {
      NothingLeftOut(d, slots, i + 1);
    }
  }

  lemma SkipAfter(d: Descriptor, slots: seq<Slot>, i: nat)
    requires Fits(d, slots) && i < |slots|
    ensures After(d, slots, i, i) == After(d, slots, i + 1, i)
  {
    assert Partial(d, slots, i, i) == Partial(d, slots, i + 1, i);
  }

  lemma {:induction false} FieldsReadBack(d: Descriptor, slots: seq<Slot>, i: nat, without: nat)
    requires WellFormed(d) && Fits(d, slots) && AllFaithful(d, slots) && i <= |slots|
    ensures DecodeLoop(d, EncodeWithout(d, slots, i, without), After(d, slots, i, without))
      == Some(After(d, slots, |slots|, without))
    decreases d, |slots| - i, 4
  {
    if i < |slots| {
      var rest := EncodeWithout(d, slots, i + 1, without);
      FieldsReadBack(d, slots, i + 1, without);
      if i == without {
        assert [] + rest == rest;
        SkipAfter(d, slots, i);
      } else {
        SlotReadsBack(d, slots, i, without, rest);
      }
    }
  }

  /** A required field that the check covers. */
  predicate Checked64(d: Descriptor, i: nat) {
    i < |d.fields| && d.fields[i].rule.Required? && RequiredBefore(d, i) < MAX_REQUIRED_FIELDS
  }

  lemma {:induction false} SeenIs(d: Descriptor, i: nat, without: nat, k: nat)
    requires i <= |d.fields|
    ensures k in SeenUpTo(d, i, without) <==>
      && k < RequiredBefore(d, i) && k < MAX_REQUIRED_FIELDS
      && !(without < i && Checked64(d, without) && RequiredBefore(d, without) == k)
  {
    if i > 0 {
      SeenIs(d, i - 1, without, k);
      if without < i - 1 {
        RequiredGrows(d, without, i - 1);
      }
    }
  }

  lemma AllSeenUnlessLeftOut(d: Descriptor, without: nat)
    ensures AllSeen(d, SeenUpTo(d, |d.fields|, without)) <==> !Checked64(d, without)
  {
    forall k: nat ensures k in SeenUpTo(d, |d.fields|, without)
        <==> k < RequiredCount(d) && !(Checked64(d, without) && RequiredBefore(d, without) == k) {
      SeenIs(d, |d.fields|, without, k);
    }
    if Checked64(d, without) {
      RequiredGrows(d, without, |d.fields|);
      assert RequiredBefore(d, without) !in SeenUpTo(d, |d.fields|, without);
    }
  }

  lemma WithoutReadsBack(d: Descriptor, slots: seq<Slot>, without: nat)
    requires WellFormed(d) && Fits(d, slots) && AllFaithful(d, slots)
    ensures Decode(d, EncodeWithout(d, slots, 0, without))
      == if Checked64(d, without) then None else Some(Partial(d, slots, |slots|, without))
    decreases d, |slots| + 1
  {
    DefaultsFit(d);
    assert Partial(d, slots, 0, without) == Defaults(d, |d.fields|);
    FieldsReadBack(d, slots, 0, without);
    AllSeenUnlessLeftOut(d, without);
  }

  /** pb_decode gives back what pb_encode was given. */
  lemma {:induction false} DecodeInvertsEncode(d: Descriptor, slots: seq<Slot>)
    requires WellFormed(d) && Fits(d, slots) && AllFaithful(d, slots)
    ensures Decode(d, EncodeFields(d, slots, 0)) == Some(slots)
    decreases d, |slots| + 2
  {
    NothingLeftOut(d, slots, 0);
    WithoutReadsBack(d, slots, |slots|);
    assert Partial(d, slots, |slots|, |slots|) == slots;
  }

  /** A message with one field left out is refused exactly when the field is one of the first 64 required ones;
      otherwise the field has its initial value. */
  lemma LeftOutField(d: Descriptor, slots: seq<Slot>, j: nat)
    requires WellFormed(d) && Fits(d, slots) && AllFaithful(d, slots) && j < |slots|
    ensures Decode(d, EncodeWithout(d, slots, 0, j))
      == if d.fields[j].rule.Required? && RequiredBefore(d, j) < MAX_REQUIRED_FIELDS then None
         else Some(slots[j := Initial(d.fields[j])])
  {
    WithoutReadsBack(d, slots, j);
    assert Partial(d, slots, |slots|, j) == slots[j := Initial(d.fields[j])];
  }

  // ---- the check for required fields, on any input ----

  /** The fields that a message has a record for, up to where its decoding stops. */
  ghost function FieldsRead(d: Descriptor, s: seq<Byte>, p: Progress): set<nat>
    requires Fits(d, p.slots)
    decreases |s|
  {
    match Read32(s)
    case Malformed => {}
    case Parsed(key, rest) =>
      if key == 0 || DecodeOne(d, key, rest, p).Malformed? then {}
      else
        var next := DecodeOne(d, key, rest, p);
        (match IndexOf(d, key / 8, 0)
         case None => {}
         case Some(i) => {i}) + FieldsRead(d, next.rest, next.value)
  }

  ghost predicate MarkedBy(d: Descriptor, fields: set<nat>, k: nat) {
    exists i :: i in fields && Checked64(d, i) && RequiredBefore(d, i) == k
  }

  lemma {:induction false} SeenIsRead(d: Descriptor, s: seq<Byte>, p: Progress, k: nat)
    requires Fits(d, p.slots) && DecodeLoop(d, s, p).Some?
    ensures k in DecodeLoop(d, s, p).value.seen <==> k in p.seen || MarkedBy(d, FieldsRead(d, s, p), k)
    decreases |s|
  {
    if s != [] && Read32(s).value != 0 {
      var key, rest := Read32(s).value, Read32(s).rest;
      var next := DecodeOne(d, key, rest, p);
      SeenIsRead(d, next.rest, next.value, k);
      var fields, later := FieldsRead(d, s, p), FieldsRead(d, next.rest, next.value);
      var i := IndexOf(d, key / 8, 0);
      if i.Some? {
        assert next.value.seen == p.seen + Mark(d, i.value) && fields == {i.value} + later;
        MarkedByMore(d, i.value, later, k);
      } else {
        assert fields == later;
      }
    }
  }

  lemma MarkedByMore(d: Descriptor, i: nat, later: set<nat>, k: nat)
    requires i < |d.fields|
    ensures MarkedBy(d, {i} + later, k) <==> k in Mark(d, i) || MarkedBy(d, later, k)
  {
    if k in Mark(d, i) {
      assert i in {i} + later;
    }
    if MarkedBy(d, later, k) {
      var j :| j in later && Checked64(d, j) && RequiredBefore(d, j) == k;
      assert j in {i} + later;
    }
  }

  lemma {:induction false} SomeRequired(d: Descriptor, n: nat, k: nat) returns (i: nat)
    requires n <= |d.fields| && k < RequiredBefore(d, n)
    ensures i < n && d.fields[i].rule.Required? && RequiredBefore(d, i) == k
  {
    if k < RequiredBefore(d, n - 1) {
      i := SomeRequired(d, n - 1, k);
    } else {
      i := n - 1;
    }
  }

  /** A message that can be decoded passes the bitmap test exactly when it has a record for every one of the
      first 64 required fields: for every required field, when there are no more than 64. */
  lemma RequiredCheck(d: Descriptor, s: seq<Byte>, slots: seq<Slot>)
    requires Fits(d, slots) && DecodeLoop(d, s, Progress(slots, {})).Some?
    ensures DecodeFields(d, s, slots).Some?
      <==> forall i: nat :: i < |d.fields| && d.fields[i].rule.Required? && RequiredBefore(d, i) < MAX_REQUIRED_FIELDS
             ==> i in FieldsRead(d, s, Progress(slots, {}))
  {
    var p := Progress(slots, {});
    var seen, fields := DecodeLoop(d, s, p).value.seen, FieldsRead(d, s, p);
    forall k: nat ensures k in seen <==> MarkedBy(d, fields, k) {
      SeenIsRead(d, s, p, k);
    }
    if AllSeen(d, seen) {
      forall i: nat | Checked64(d, i) ensures i in fields {
        RequiredGrows(d, i, |d.fields|);
        assert RequiredBefore(d, i) in seen;
        var j :| j in fields && Checked64(d, j) && RequiredBefore(d, j) == RequiredBefore(d, i);
        if i != j {
          RequiredGrows(d, if i < j then i else j, if i < j then j else i);
        }
      }
    } else {
      var k: nat :| k < RequiredCount(d) && k !in seen;
      var i := SomeRequired(d, |d.fields|, k);
      assert Checked64(d, i) && !MarkedBy(d, fields, k);
      assert i !in fields;
    }
  }
}
