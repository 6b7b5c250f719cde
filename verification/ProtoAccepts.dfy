/** What the decoder takes and refuses besides what the encoder of the same descriptor writes (pb_decode.c): arrays in
    either form and too long, numbers that do not fit, sign-extended lengths, and messages ended by a zero. */
module ProtoAccepts {
  import opened Basics
  import opened Coding
  import opened ProtoFields
  import opened ProtoEncode
  import opened ProtoDecode
  import opened ProtoRoundTrip

  // ---- arrays ----

  ghost predicate ArrayAt(d: Descriptor, i: nat, p: Progress) {
    && WellFormed(d) && Fits(d, p.slots) && i < |d.fields| && d.fields[i].rule.Repeated?
    && p.slots[i].Many? && |p.slots[i].items| <= d.fields[i].rule.arraySize
  }

  function WithItems(p: Progress, i: nat, items: seq<Value>): Progress
    requires i < |p.slots|
  {
    p.(slots := p.slots[i := Many(items)])
  }

  ghost predicate AllFaithfulItems(kind: Kind, items: seq<Value>) {
    AllHold(kind, items) && forall k :: 0 <= k < |items| ==> Faithful(kind, items[k])
  }

  /** Reading the bytes appends the items, or is refused when the array has no room for all of them. */
  ghost predicate Appends(d: Descriptor, i: nat, p: Progress, items: seq<Value>, bytes: seq<Byte>, rest: seq<Byte>)
    requires ArrayAt(d, i, p)
  {
    var all := p.slots[i].items + items;
    if |all| <= d.fields[i].rule.arraySize then
      && ArrayAt(d, i, WithItems(p, i, all))
      && DecodeLoop(d, bytes + rest, p) == DecodeLoop(d, rest, WithItems(p, i, all))
    else DecodeLoop(d, bytes + rest, p) == None
  }

  lemma WithItemsFits(d: Descriptor, i: nat, p: Progress, items: seq<Value>)
    requires ArrayAt(d, i, p) && AllHold(d.fields[i].kind, items)
    requires |p.slots[i].items| + |items| <= d.fields[i].rule.arraySize
    ensures var all := p.slots[i].items + items;
      && SlotFits(d.fields[i], Many(all)) && ArrayAt(d, i, WithItems(p, i, all))
      && Progress(Put(d, p.slots, i, Many(all)), p.seen + Mark(d, i)) == WithItems(p, i, all)
  {
    var all := p.slots[i].items + items;
    assert SlotFits(d.fields[i], p.slots[i]);
    assert Put(d, p.slots, i, Many(all)) == p.slots[i := Many(all)];
  }

  lemma RecordIsRefused(d: Descriptor, i: nat, wireType: nat, payload: seq<Byte>, p: Progress)
    requires WellFormed(d) && Fits(d, p.slots) && i < |d.fields| && wireType < 8
    requires DecodeSlot(d.fields[i], wireType, payload, p.slots[i]).Malformed?
    ensures DecodeLoop(d, Varint(FieldKey(d.fields[i].tag, wireType)) + payload, p) == None
  {
    assert FieldWellFormed(d.fields[i]);
    Read32ReadsBack(FieldKey(d.fields[i].tag, wireType), payload);
    FoundByTag(d, i, 0);
    KeyParts(d.fields[i].tag, wireType);
  }

  /** A record of one item, also of a kind that is usually packed. */
  lemma ItemAppends(d: Descriptor, i: nat, p: Progress, v: Value, rest: seq<Byte>)
    requires ArrayAt(d, i, p) && Holds(d.fields[i].kind, v) && Faithful(d.fields[i].kind, v)
    ensures Appends(d, i, p, [v], EncodeTagged(d.fields[i], v), rest)
  {
    var field, bytes := d.fields[i], EncodeValue(d.fields[i].kind, v);
    assert FieldWellFormed(field);
    Associate(Varint(FieldKey(field.tag, WireType(field.kind))), bytes, rest);
    if |p.slots[i].items| < field.rule.arraySize {
      ZeroHolds(field.kind);
      ValueReadsBack(field.kind, true, v, rest);
      WithItemsFits(d, i, p, [v]);
      RecordReadsBack(d, i, WireType(field.kind), bytes, rest, p, Many(p.slots[i].items + [v]));
    } else {
      RecordIsRefused(d, i, WireType(field.kind), bytes + rest, p);
    }
  }

  lemma NothingAppends(d: Descriptor, i: nat, p: Progress, rest: seq<Byte>)
    requires ArrayAt(d, i, p)
    ensures Appends(d, i, p, [], [], rest)
  {
    var had := p.slots[i].items;
    assert had + [] == had && [] + rest == rest && WithItems(p, i, had) == p;
  }

  lemma AppendsOn(d: Descriptor, i: nat, p: Progress, v: Value, items: seq<Value>, first: seq<Byte>, more: seq<Byte>,
                  rest: seq<Byte>)
    requires ArrayAt(d, i, p) && Appends(d, i, p, [v], first, more + rest)
    requires |p.slots[i].items| < d.fields[i].rule.arraySize ==>
      var next := WithItems(p, i, p.slots[i].items + [v]);
      ArrayAt(d, i, next) && Appends(d, i, next, items, more, rest)
    ensures Appends(d, i, p, [v] + items, first + more, rest)
  {
    var had := p.slots[i].items;
    Associate(first, more, rest);
    assert (had + [v]) + items == had + ([v] + items);
    if |had| < d.fields[i].rule.arraySize {
      var next := WithItems(p, i, had + [v]);
      assert WithItems(next, i, (had + [v]) + items) == WithItems(p, i, had + ([v] + items));
    }
  }

  /** An array may come as one record per item, whatever its kind. */
  lemma {:induction false} UnpackedArrayAppends(d: Descriptor, i: nat, p: Progress, items: seq<Value>, rest: seq<Byte>)
    requires ArrayAt(d, i, p) && AllFaithfulItems(d.fields[i].kind, items)
    ensures Appends(d, i, p, items, EncodeEach(d.fields[i], items), rest)
    decreases |items|
  {
    if items == [] {
      NothingAppends(d, i, p, rest);
    } else {
      var first, more := EncodeTagged(d.fields[i], items[0]), EncodeEach(d.fields[i], items[1..]);
      ItemAppends(d, i, p, items[0], more + rest);
      if |p.slots[i].items| < d.fields[i].rule.arraySize {
        UnpackedArrayAppends(d, i, WithItems(p, i, p.slots[i].items + [items[0]]), items[1..], rest);
      }
      AppendsOn(d, i, p, items[0], items[1..], first, more, rest);
      assert [items[0]] + items[1..] == items;
    }
  }

  lemma {:induction false} PackedTooLong(kind: Kind, items: seq<Value>, done: seq<Value>, arraySize: nat)
    requires Packable(kind) && AllHold(kind, items) && AllHold(kind, done) && |done| <= arraySize < |done| + |items|
    ensures DecodePacked(kind, EncodePacked(kind, items), done, arraySize) == None
    decreases |items|
  {
    PackedHead(kind, items);
    if |done| < arraySize {
      var n, rest := items[0].n, EncodePacked(kind, items[1..]);
      NumberReadsBack(kind, n, rest);
      PackedStep(kind, EncodePacked(kind, items), n, rest, done, arraySize);
      PackedTooLong(kind, items[1..], done + [Number(n)], arraySize);
    }
  }

  /** Or, if its kind allows, as any number of packed records. */
  lemma PackedArrayAppends(d: Descriptor, i: nat, p: Progress, items: seq<Value>, rest: seq<Byte>)
    requires ArrayAt(d, i, p) && Packable(d.fields[i].kind) && AllHold(d.fields[i].kind, items)
    requires |EncodePacked(d.fields[i].kind, items)| < 0x1_0000_0000
    ensures
      var record := Varint(FieldKey(d.fields[i].tag, WT_STRING)) + Prefixed(EncodePacked(d.fields[i].kind, items));
      Appends(d, i, p, items, record, rest)
  {
    var field, body := d.fields[i], EncodePacked(d.fields[i].kind, items);
    var had, size := p.slots[i].items, field.rule.arraySize;
    assert FieldWellFormed(field) && SlotFits(field, p.slots[i]);
    Associate(Varint(FieldKey(field.tag, WT_STRING)), Prefixed(body), rest);
    PrefixedReadsBack(body, rest);
    if |had| + |items| <= size {
      PackedReadsBack(field.kind, items, had, size);
      WithItemsFits(d, i, p, items);
      RecordReadsBack(d, i, WT_STRING, Prefixed(body), rest, p, Many(had + items));
    } else {
      PackedTooLong(field.kind, items, had, size);
      RecordIsRefused(d, i, WT_STRING, Prefixed(body) + rest, p);
    }
  }

  // ---- numbers ----

  /** An unsigned number is read exactly when it fits its field; it is never cut. */
  lemma UnsignedReadIff(w: Width, v: nat, rest: seq<Byte>)
    requires v < 0x1_0000_0000_0000_0000
    ensures DecodeNumber(Unsigned(w), Varint(v) + rest) == if FitsUnsigned(v, w) then Parsed(v, rest) else Malformed
  {
    Varint64ReadsBack(v, rest);
    if FitsUnsigned(v, w) {
      Small(v, Pow2(8 * w));
    }
  }

  lemma CheckedIff(n: int, w: Width, rest: seq<Byte>)
    ensures Checked(n, w, rest) == if FitsSigned(n, w) then Parsed(n, rest) else Malformed
  {
    if FitsSigned(n, w) {
      WrapKeeps(n, w);
    }
  }

  lemma UnZigZagged(n: int)
    requires Int64(n)
    ensures UnZigZag(ZigZagged(n)) == n
  {
  }

  lemma ZigZagReadIff(w: Width, n: int, rest: seq<Byte>)
    requires Int64(n)
    ensures DecodeNumber(ZigZag(w), Varint(ZigZagged(n)) + rest) ==
            if FitsSigned(n, w) then Parsed(n, rest) else Malformed
  {
    Varint64ReadsBack(ZigZagged(n), rest);
    UnZigZagged(n);
    CheckedIff(n, w, rest);
  }

  /** A signed number of up to 32 bits is first cut to 32 bits, as writers that cast to a 32-bit type need it, and is
      then read exactly when it fits. */
  lemma SignedReadIff(w: Width, n: int, cut: int, rest: seq<Byte>)
    requires Int64(n)
    requires if w == 8 then cut == n else FitsSigned(cut, 4) && (n - cut) % 0x1_0000_0000 == 0
    ensures DecodeNumber(Signed(w), Varint(AsUnsigned(n)) + rest) ==
            if FitsSigned(cut, w) then Parsed(cut, rest) else Malformed
  {
    Varint64ReadsBack(AsUnsigned(n), rest);
    CutTo(w, n, cut);
    CheckedIff(cut, w, rest);
  }

  lemma CutTo(w: Width, n: int, cut: int)
    requires Int64(n)
    requires if w == 8 then cut == n else FitsSigned(cut, 4) && (n - cut) % 0x1_0000_0000 == 0
    ensures Wrap(AsUnsigned(n), if w == 8 then 8 else 4) == cut
  {
    if w == 8 {
      SignedFits64(n);
      WrapOfUnsigned(n, 8);
    } else {
      WrapKeeps(cut, 4);
      SameLowBits(AsUnsigned(n), cut);
    }
  }

  lemma SignedFits64(n: int)
    requires Int64(n)
    ensures FitsSigned(n, 8)
  {
    WordPowers();
  }

  lemma SameLowBits(v: int, cut: int)
    requires (v - cut) % 0x1_0000_0000 == 0
    ensures Pow2(32) == 0x1_0000_0000 && v % Pow2(32) == cut % Pow2(32)
  {
    WordPowers();
  }

  // ---- sign-extended numbers of 32 bits ----

  lemma TopShift(top: nat)
    requires 8 <= top < 16
    ensures Shl(112 + top, 28) % 0x1_0000_0000 == Shl(top, 28) == top * 0x1000_0000
  {
    WordPowers();
    ShlIsProduct(112 + top, 28);
    ShlIsProduct(top, 28);
  }

  lemma FifthMerge(top: nat, low: nat, at: nat)
    requires 8 <= top < 16 && at == 28 && low < Pow2(at)
    ensures Merge32(240 + top, low, at) == low + top * 0x1000_0000
  {
    TopShift(top);
    OrOfHigherBits(low, top, at);
  }

  /** The fifth byte of a sign-extended number carries the four bits left and sign bits above them. */
  lemma FifthByte(top: nat, low: nat, at: nat, tail: seq<Byte>)
    requires 8 <= top < 16 && at == 28 && low < Pow2(at)
    ensures Continue32([240 + top] + tail, low, at) == Continue32(tail, low + top * 0x1000_0000, 35)
  {
    FifthMerge(top, low, at);
    OneByteOn(240 + top, low, at, low + top * 0x1000_0000, tail);
  }

  lemma OneByteOn(b: Byte, low: nat, at: nat, next: nat, tail: seq<Byte>)
    requires b >= 128 && at < 32 && next == Merge32(b, low, at)
    ensures Continue32([b] + tail, low, at) == Continue32(tail, next, at + 7)
  {
    assert ([b] + tail)[1..] == tail;
  }

  /** Sign bits, and the highest bit of 64. */
  function SignBytes(n: nat): seq<Byte> {
    if n == 0 then [1] else [255] + SignBytes(n - 1)
  }

  lemma {:induction false} SignBytesPass(v: nat, n: nat, bitpos: nat, rest: seq<Byte>)
    requires v >= 0x8000_0000 && n <= 4 && bitpos == 63 - 7 * n
    ensures Continue32(SignBytes(n) + rest, v, bitpos) == Parsed(v, rest)
  {
    if n == 0 {
      assert ([1] + rest)[1..] == rest;
    } else {
      Associate([255], SignBytes(n - 1), rest);
      assert ([255] + (SignBytes(n - 1) + rest))[1..] == SignBytes(n - 1) + rest;
      SignBytesPass(v, n - 1, bitpos + 7, rest);
    }
  }

  lemma FourSignBytes()
    ensures Varint(0x1FFF_FFFF) == SignBytes(4)
  {
    assert Varint(1) == SignBytes(0);
    assert Varint(0xFF) == SignBytes(1);
    assert Varint(0x7FFF) == SignBytes(2);
    assert Varint(0x3F_FFFF) == SignBytes(3);
  }

  lemma SameDigit(v: nat, above: nat)
    requires v >= 128
    ensures Digit(v + 128 * above) == Digit(v) == v % 128 + 128 && (v + 128 * above) / 128 == v / 128 + above
  {
  }

  /** The rest of the varint reads as the goal; only looked into for an opened number. */
  ghost predicate GoesOn(goal: Parsed<nat>, left: nat, low: nat, bitpos: nat, rest: seq<Byte>) {
    forall x: nat {:trigger Opened(x)} ::
      Opened(x) && x == left ==> Continue32(Varint(x) + rest, low, bitpos) == goal
  }

  /** A byte below the sign extension is that of the number alone. */
  lemma LowDigit(goal: Parsed<nat>, v: nat, left: nat, whole: nat, above: nat, low: nat, bitpos: nat, rest: seq<Byte>)
    returns (next: nat)
    requires bitpos == 7 || bitpos == 14 || bitpos == 21
    requires low < Pow2(bitpos) && Shl(v, bitpos) < 0x1_0000_0000
    requires v >= 128 && left == v / 128 && whole == v + 128 * above && GoesOn(goal, whole, low, bitpos, rest)
    ensures GoesOn(goal, left + above, next, bitpos + 7, rest) && next + Shl(left, bitpos + 7) == low + Shl(v, bitpos)
    ensures next < Pow2(bitpos + 7) && Shl(left, bitpos + 7) < 0x1_0000_0000
  {
    assert Opened(whole);
    SameDigit(v, above);
    VarintUnfolds(whole, rest);
    next := ContinueDigit(v, Varint(whole) + rest, Varint(left + above) + rest, low, bitpos);
  }

  lemma FirstByte(v: Word, second: nat, whole: nat, rest: seq<Byte>)
    requires v >= 0x8000_0000 && second == v / 128 && whole == v + 128 * 0x1FF_FFFF_FE00_0000
    ensures Read32(Varint(whole) + rest) == Continue32(Varint(second + 0x1FF_FFFF_FE00_0000) + rest, v % 128, 7)
    ensures v % 128 < Pow2(7) && v % 128 + Shl(second, 7) == v
  {
    SameDigit(v, 0x1FF_FFFF_FE00_0000);
    VarintUnfolds(whole, rest);
    Read32Continues(v % 128, Varint(second + 0x1FF_FFFF_FE00_0000) + rest);
    SevenBits(v);
  }

  /** Three bytes on: `n` are what is left of the number, `s` what is left of the sign. */
  lemma MiddleBytes(goal: Parsed<nat>, n: seq<nat>, s: seq<nat>, low: nat, at: nat, rest: seq<Byte>)
    returns (next: nat)
    requires |n| == |s| == 4 && forall i :: 0 <= i < 3 ==> n[i] >= 128 && n[i + 1] == n[i] / 128
    requires forall i :: 0 <= i < 3 ==> s[i] == 128 * s[i + 1]
    requires at == 7 && low < Pow2(at) && Shl(n[0], at) < 0x1_0000_0000 && GoesOn(goal, n[0] + s[0], low, at, rest)
    ensures GoesOn(goal, n[3] + s[3], next, at + 21, rest)
    ensures next < Pow2(at + 21) && next + Shl(n[3], at + 21) == low + Shl(n[0], at)
  {
    next := LowDigit(goal, n[0], n[1], n[0] + s[0], s[1], low, at, rest);
    next := LowDigit(goal, n[1], n[2], n[1] + s[1], s[2], next, at + 7, rest);
    next := LowDigit(goal, n[2], n[3], n[2] + s[2], s[3], next, at + 14, rest);
  }

  lemma NumberLeft(v: Word) returns (n: seq<nat>)
    requires v >= 0x8000_0000
    ensures |n| == 4 && n[0] == v / 128 && 8 <= n[3] < 16
    ensures forall i :: 0 <= i < 3 ==> n[i] >= 128 && n[i + 1] == n[i] / 128
  {
    var second := v / 128;
    var third := second / 128;
    var fourth := third / 128;
    n := [second, third, fourth, fourth / 128];
  }

  lemma ShlByteFive(top: nat, at: nat)
    requires at == 28
    ensures Shl(top, at) == top * 0x1000_0000
  {
    ShlIsProduct(top, at);
    WordPowers();
  }

  lemma LowBytes(v: Word, rest: seq<Byte>) returns (low: nat, top: nat)
    requires v >= 0x8000_0000
    ensures GoesOn(Read32(Varint(v + 0xFFFF_FFFF_0000_0000) + rest), top + 0xF_FFFF_FFF0, low, 28, rest)
    ensures low < Pow2(28) && 8 <= top < 16 && low + top * 0x1000_0000 == v
  {
    var n := NumberLeft(v);
    var at := 7;
    var signs := [0x1FF_FFFF_FE00_0000, 0x3_FFFF_FFFC_0000, 0x7FF_FFFF_F800, 0xF_FFFF_FFF0];
    FirstByte(v, n[0], v + 0xFFFF_FFFF_0000_0000, rest);
    low := MiddleBytes(Read32(Varint(v + 0xFFFF_FFFF_0000_0000) + rest), n, signs, v % 128, at, rest);
    top := n[3];
    ShlByteFive(top, at + 21);
  }

  lemma FifthUnfolds(top: nat, rest: seq<Byte>)
    requires 8 <= top < 16
    ensures Varint(top + 0xF_FFFF_FFF0) + rest == [240 + top] + (SignBytes(4) + rest)
  {
    VarintUnfolds(top + 0xF_FFFF_FFF0, rest);
    FourSignBytes();
  }

  /** A writer may have extended the sign of a negative 32-bit number to 64 bits: the lower half is read. */
  lemma SignExtendedReads(v: Word, rest: seq<Byte>)
    requires v >= 0x8000_0000
    ensures Read32(Varint(v + 0xFFFF_FFFF_0000_0000) + rest) == Parsed(v, rest)
  {
    var low, top := LowBytes(v, rest);
    assert Opened(top + 0xF_FFFF_FFF0);
    FifthUnfolds(top, rest);
    FifthByte(top, low, 28, SignBytes(4) + rest);
    SignBytesPass(v, 4, 35, rest);
  }

  // ---- the end of a message ----

  /** A zero ends a message, whatever follows. */
  lemma ZeroEndsMessage(d: Descriptor, slots: seq<Slot>, junk: seq<Byte>)
    requires WellFormed(d) && Fits(d, slots) && AllFaithful(d, slots)
    ensures Decode(d, EncodeFields(d, slots, 0) + ([0] + junk)) == Some(slots)
  {
    DefaultsFit(d);
    assert Partial(d, slots, 0, |slots|) == Defaults(d, |d.fields|);
    EndsAtZero(d, slots, 0, junk);
    AllSeenUnlessLeftOut(d, |slots|);
    assert Partial(d, slots, |slots|, |slots|) == slots;
  }

  lemma {:induction false} EndsAtZero(d: Descriptor, slots: seq<Slot>, i: nat, junk: seq<Byte>)
    requires WellFormed(d) && Fits(d, slots) && AllFaithful(d, slots) && i <= |slots|
    ensures DecodeLoop(d, EncodeFields(d, slots, i) + ([0] + junk), After(d, slots, i, |slots|))
      == Some(After(d, slots, |slots|, |slots|))
    decreases |slots| - i
  {
    var end := [0] + junk;
    if i == |slots| {
      assert [] + end == end;
    } else {
      assert SlotFits(d.fields[i], slots[i]);
      var rest := EncodeFields(d, slots, i + 1);
      Associate(EncodeSlot(d.fields[i], slots[i]), rest, end);
      SlotReadsBack(d, slots, i, |slots|, rest + end);
      EndsAtZero(d, slots, i + 1, junk);
    }
  }
}
