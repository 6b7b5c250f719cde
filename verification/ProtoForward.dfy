/** What a decoder makes of records that another encoder may send: fields it does not know, several arms of one
    oneof, the same field again (pb_skip_field, decode_static_field and pb_decode_noinit of nanopb/pb_decode.c). */
module ProtoForward {
  import opened Basics
  import opened Coding
  import opened ProtoFields
  import opened ProtoEncode
  import opened ProtoDecode
  import opened ProtoRoundTrip

  // ---- fields that the descriptor does not know ----

  lemma {:induction false} SkipsVarint(n: nat, rest: seq<Byte>)
    ensures SkipVarint(Varint(n) + rest) == Parsed((), rest)
    decreases n
  {
    VarintUnfolds(n, rest);
    if n < 128 {
      assert ([Digit(n)] + rest)[1..] == rest;
    } else {
      var tail := Varint(n / 128) + rest;
      assert ([Digit(n)] + tail)[1..] == tail;
      SkipsVarint(n / 128, rest);
    }
  }

  /** Lengths that the wire format can carry. */
  ghost predicate Sendable(kind: Kind, v: Value)
    requires Holds(kind, v)
  {
    match kind
    case String(_) => |CString(v.bytes)| < 0x1_0000_0000
    case Submessage(d) => |EncodeFields(d, v.slots, 0)| < 0x1_0000_0000
    case _ => true
  }

  ghost predicate SlotSendable(field: Field, slot: Slot)
    requires SlotFits(field, slot)
  {
    match slot
    case One(v) => Sendable(field.kind, v)
    case Maybe(None) => true
    case Maybe(Some(v)) => Sendable(field.kind, v)
    case Many(items) =>
      && (forall k :: 0 <= k < |items| ==> Sendable(field.kind, items[k]))
      && (Packable(field.kind) ==> |EncodePacked(field.kind, items)| < 0x1_0000_0000)
  }

  /** The bytes that skipping takes for a wire type are those that the encoder writes for it. */
  lemma SkipsValue(kind: Kind, v: Value, rest: seq<Byte>)
    requires Holds(kind, v) && Sendable(kind, v)
    ensures SkipField(WireType(kind), EncodeValue(kind, v) + rest) == Parsed((), rest)
  {
    match kind
    case Bytes(_) => PrefixedReadsBack(v.bytes, rest);
    case String(_) => PrefixedReadsBack(CString(v.bytes), rest);
    case FixedBytes(_) => PrefixedReadsBack(v.bytes, rest);
    case Submessage(d) => PrefixedReadsBack(EncodeFields(d, v.slots, 0), rest);
    case Fixed32Kind =>
      UnsignedFits(v.n, 4);
      assert (Fixed32(v.n) + rest)[4..] == rest;
    case Fixed64Kind =>
      UnsignedFits(v.n, 8);
      assert (Fixed64(v.n) + rest)[8..] == rest;
    case Bool => SkipsVarint(v.n, rest);
    case Signed(w) =>
      SignedFits(v.n, w);
      SkipsVarint(AsUnsigned(v.n), rest);
    case Unsigned(w) => SkipsVarint(v.n, rest);
    case ZigZag(w) =>
      SignedFits(v.n, w);
      SkipsVarint(ZigZagged(v.n), rest);
  }

  /** A tag that fits a key and that no field has. */
  ghost predicate Unknown(d: Descriptor, tag: nat) {
    0 < tag < 0x2000_0000 && !HasTag(d, tag)
  }

  lemma UnknownRecord(d: Descriptor, tag: nat, wireType: nat, payload: seq<Byte>, rest: seq<Byte>, p: Progress)
    requires Fits(d, p.slots) && Unknown(d, tag) && wireType < 8
    requires SkipField(wireType, payload + rest) == Parsed((), rest)
    ensures DecodeLoop(d, (Varint(FieldKey(tag, wireType)) + payload) + rest, p) == DecodeLoop(d, rest, p)
  {
    var key := FieldKey(tag, wireType);
    Associate(Varint(key), payload, rest);
    Read32ReadsBack(key, payload + rest);
    KeyParts(tag, wireType);
    assert IndexOf(d, tag, 0).None?;
  }

  /** A field that the descriptor does not know is passed over as a whole, whatever its kind and value. */
  lemma UnknownField(d: Descriptor, g: Field, v: Value, rest: seq<Byte>, p: Progress)
    requires Fits(d, p.slots) && Unknown(d, g.tag) && Holds(g.kind, v) && Sendable(g.kind, v)
    ensures DecodeLoop(d, EncodeTagged(g, v) + rest, p) == DecodeLoop(d, rest, p)
  {
    SkipsValue(g.kind, v, rest);
    UnknownRecord(d, g.tag, WireType(g.kind), EncodeValue(g.kind, v), rest, p);
  }

  lemma {:induction false} UnknownItems(d: Descriptor, g: Field, items: seq<Value>, rest: seq<Byte>, p: Progress)
    requires Fits(d, p.slots) && Unknown(d, g.tag) && AllHold(g.kind, items)
    requires forall k :: 0 <= k < |items| ==> Sendable(g.kind, items[k])
    ensures DecodeLoop(d, EncodeEach(g, items) + rest, p) == DecodeLoop(d, rest, p)
    decreases |items|
  {
    if items == [] {
      assert [] + rest == rest;
    } else {
      var more := EncodeEach(g, items[1..]);
      Associate(EncodeTagged(g, items[0]), more, rest);
      UnknownField(d, g, items[0], more + rest, p);
      UnknownItems(d, g, items[1..], rest, p);
    }
  }

  lemma UnknownSlot(d: Descriptor, g: Field, slot: Slot, rest: seq<Byte>, p: Progress)
    requires Fits(d, p.slots) && Unknown(d, g.tag) && SlotFits(g, slot) && SlotSendable(g, slot)
    ensures DecodeLoop(d, EncodeSlot(g, slot) + rest, p) == DecodeLoop(d, rest, p)
  {
    match slot
    case One(v) => UnknownField(d, g, v, rest, p);
    case Maybe(None) => assert [] + rest == rest;
    case Maybe(Some(v)) => UnknownField(d, g, v, rest, p);
    case Many(items) =>
      if items == [] {
        assert [] + rest == rest;
      } else if Packable(g.kind) {
        var body := EncodePacked(g.kind, items);
        PrefixedReadsBack(body, rest);
        UnknownRecord(d, g.tag, WT_STRING, Prefixed(body), rest, p);
      } else {
        UnknownItems(d, g, items, rest, p);
      }
  }

  /** From position i of the larger message on, the fields are those of the smaller one from position j on, with the
      same contents and in the same order, among others that the smaller descriptor does not know. */
  ghost predicate Extends(larger: Descriptor, all: seq<Slot>, i: nat, d: Descriptor, slots: seq<Slot>, j: nat)
    requires Fits(larger, all) && Fits(d, slots) && i <= |all|
    decreases |all| - i
  {
    if i == |all| then j == |slots|
    else
      || (j < |slots| && larger.fields[i] == d.fields[j] && all[i] == slots[j]
          && Extends(larger, all, i + 1, d, slots, j + 1))
      || (Unknown(d, larger.fields[i].tag) && SlotSendable(larger.fields[i], all[i])
          && Extends(larger, all, i + 1, d, slots, j))
  }

  lemma {:induction false} ExtendedReadsBack(larger: Descriptor, all: seq<Slot>, i: nat, d: Descriptor,
                                             slots: seq<Slot>, j: nat)
    requires WellFormed(d) && Fits(larger, all) && Fits(d, slots) && AllFaithful(d, slots) && i <= |all| && j <= |slots|
    requires Extends(larger, all, i, d, slots, j)
    ensures DecodeLoop(d, EncodeFields(larger, all, i), After(d, slots, j, |slots|))
      == Some(After(d, slots, |slots|, |slots|))
    decreases |all| - i
  {
    if i < |all| {
      var rest := EncodeFields(larger, all, i + 1);
      assert SlotFits(larger.fields[i], all[i]);
      if j < |slots| && larger.fields[i] == d.fields[j] && all[i] == slots[j]
        && Extends(larger, all, i + 1, d, slots, j + 1) {
        SlotReadsBack(d, slots, j, |slots|, rest);
        ExtendedReadsBack(larger, all, i + 1, d, slots, j + 1);
      } else {
        UnknownSlot(d, larger.fields[i], all[i], rest, After(d, slots, j, |slots|));
        ExtendedReadsBack(larger, all, i + 1, d, slots, j);
      }
    }
  }

  /** Fields that were added to a message type do not disturb a decoder that does not know them: it gets the message
      without them. */
  lemma NewFieldsAreSkipped(larger: Descriptor, all: seq<Slot>, d: Descriptor, slots: seq<Slot>)
    requires WellFormed(d) && Fits(larger, all) && Fits(d, slots) && AllFaithful(d, slots)
    requires Extends(larger, all, 0, d, slots, 0)
    ensures Decode(d, EncodeFields(larger, all, 0)) == Some(slots)
  {
    DefaultsFit(d);
    assert Partial(d, slots, 0, |slots|) == Defaults(d, |d.fields|);
    ExtendedReadsBack(larger, all, 0, d, slots, 0);
    AllSeenUnlessLeftOut(d, |slots|);
    assert Partial(d, slots, |slots|, |slots|) == slots;
  }

  // ---- arms of a oneof, one after the other ----

  /** The arm is set, the other arms of its oneof are not, and everything else is as before. */
  ghost predicate OnlyArm(d: Descriptor, before: seq<Slot>, i: nat, v: Value, after: seq<Slot>)
    requires Fits(d, before) && i < |before|
  {
    && |after| == |before| && after[i] == Maybe(Some(v))
    && forall j :: 0 <= j < |before| && j != i ==>
         after[j] == if d.fields[j].rule == d.fields[i].rule then Maybe(None) else before[j]
  }

  lemma ArmIsSet(d: Descriptor, i: nat, v: Value, rest: seq<Byte>, p: Progress) returns (next: Progress)
    requires WellFormed(d) && Fits(d, p.slots) && i < |d.fields| && d.fields[i].rule.Arm?
    requires Holds(d.fields[i].kind, v) && Faithful(d.fields[i].kind, v)
    ensures Fits(d, next.slots) && OnlyArm(d, p.slots, i, v, next.slots) && next.seen == p.seen
    ensures DecodeLoop(d, EncodeTagged(d.fields[i], v) + rest, p) == DecodeLoop(d, rest, next)
  {
    var field := d.fields[i];
    assert FieldWellFormed(field) && SlotFits(field, p.slots[i]);
    var key, bytes := Varint(FieldKey(field.tag, WireType(field.kind))), EncodeValue(field.kind, v);
    ValueReadsBack(field.kind, false, v, rest);
    RecordReadsBack(d, i, WireType(field.kind), bytes, rest, p, Maybe(Some(v)));
    Associate(key, bytes, rest);
    next := Progress(Put(d, p.slots, i, Maybe(Some(v))), p.seen + Mark(d, i));
    assert next.seen == p.seen;
  }

  /** Of two arms of a oneof the one that comes last stands, alone. */
  lemma LastArmStands(d: Descriptor, i: nat, v: Value, j: nat, w: Value, rest: seq<Byte>, p: Progress)
    returns (next: Progress)
    requires WellFormed(d) && Fits(d, p.slots) && i < |d.fields| && j < |d.fields| && i != j
    requires d.fields[i].rule.Arm? && d.fields[j].rule == d.fields[i].rule
    requires Holds(d.fields[i].kind, v) && Faithful(d.fields[i].kind, v)
    requires Holds(d.fields[j].kind, w) && Faithful(d.fields[j].kind, w)
    ensures Fits(d, next.slots) && next.slots[i] == Maybe(None) && OnlyArm(d, p.slots, j, w, next.slots)
    ensures DecodeLoop(d, EncodeTagged(d.fields[i], v) + (EncodeTagged(d.fields[j], w) + rest), p)
      == DecodeLoop(d, rest, next)
  {
    var middle := ArmIsSet(d, i, v, EncodeTagged(d.fields[j], w) + rest, p);
    next := ArmIsSet(d, j, w, rest, middle);
  }

  // ---- a field again ----

  /** A value that is not a submessage replaces the one before. */
  lemma LastValueStands(d: Descriptor, i: nat, v: Value, rest: seq<Byte>, p: Progress) returns (next: Progress)
    requires WellFormed(d) && Fits(d, p.slots) && i < |d.fields|
    requires (d.fields[i].rule.Required? || d.fields[i].rule.Optional?) && !d.fields[i].kind.Submessage?
    requires Holds(d.fields[i].kind, v) && Faithful(d.fields[i].kind, v)
    ensures Fits(d, next.slots)
    ensures next.slots == p.slots[i := if d.fields[i].rule.Required? then One(v) else Maybe(Some(v))]
    ensures DecodeLoop(d, EncodeTagged(d.fields[i], v) + rest, p) == DecodeLoop(d, rest, next)
  {
    var field := d.fields[i];
    assert FieldWellFormed(field) && SlotFits(field, p.slots[i]);
    var key, bytes := Varint(FieldKey(field.tag, WireType(field.kind))), EncodeValue(field.kind, v);
    ValueReadsBack(field.kind, false, v, rest);
    var slot := if field.rule.Required? then One(v) else Maybe(Some(v));
    RecordReadsBack(d, i, WireType(field.kind), bytes, rest, p, slot);
    Associate(key, bytes, rest);
    next := Progress(Put(d, p.slots, i, slot), p.seen + Mark(d, i));
    assert next.slots == p.slots[i := slot];
  }

  /** A record of a submessage goes on from what is there: an empty one leaves an optional submessage as it is. */
  lemma EmptyRecordMerges(d: Descriptor, i: nat, rest: seq<Byte>, p: Progress)
    requires WellFormed(d) && Fits(d, p.slots) && i < |d.fields| && d.fields[i].rule.Optional?
    requires d.fields[i].kind.Submessage? && RequiredCount(d.fields[i].kind.descriptor) == 0
    requires p.slots[i].Maybe? && p.slots[i].content.Some?
    ensures DecodeLoop(d, (Varint(FieldKey(d.fields[i].tag, WT_STRING)) + Prefixed([])) + rest, p)
      == DecodeLoop(d, rest, p)
  {
    var field, e := d.fields[i], d.fields[i].kind.descriptor;
    assert FieldWellFormed(field) && SlotFits(field, p.slots[i]);
    var key := Varint(FieldKey(field.tag, WT_STRING));
    PrefixedReadsBack([], rest);
    var prior := p.slots[i].content.value;
    assert DecodeFields(e, [], prior.slots) == Some(prior.slots);
    RecordReadsBack(d, i, WT_STRING, Prefixed([]), rest, p, p.slots[i]);
    Associate(key, Prefixed([]), rest);
    assert Put(d, p.slots, i, p.slots[i]) == p.slots && p.seen + Mark(d, i) == p.seen;
  }
}
