/** The decoder (nanopb/pb_decode.c): what it makes of any bytes at all. */
module ProtoDecode {
  import opened Basics
  import opened Coding
  import opened ProtoFields
  import opened ProtoEncode

  // ---- varints ----

  /** pb_decode_varint32: bits above the 32nd may only extend the sign, and a shift count of eight bits wraps
      around when zero bytes go on and on. */
  function Read32(s: seq<Byte>): (r: Parsed<nat>)
    ensures r.Parsed? ==> |r.rest| < |s|
  {
    if s == [] then Malformed
    else if s[0] < 128 then Parsed(s[0], s[1..])
    else Continue32(s[1..], s[0] - 128, 7)
  }

  function Continue32(s: seq<Byte>, result: nat, bitpos: nat): (r: Parsed<nat>)
    ensures r.Parsed? ==> |r.rest| < |s|
  {
    if s == [] || !Acceptable32(s[0], result, bitpos) then Malformed
    else
      var next := Merge32(s[0], result, bitpos);
      var bitpos' := (bitpos + 7) % 256;
      if s[0] >= 128 then Continue32(s[1..], next, bitpos')
      else if bitpos' == 35 && s[0] / 16 % 8 != 0 then Malformed
      else Parsed(next, s[1..])
  }

  predicate Acceptable32(b: Byte, result: nat, bitpos: nat) {
    bitpos < 32 || b % 128 == 0 || (result >= 0x8000_0000 && b == if bitpos < 63 then 0xFF else 0x01)
  }

  function Merge32(b: Byte, result: nat, bitpos: nat): nat {
    if bitpos < 32 then Or(result, Shl(b % 128, bitpos) % 0x1_0000_0000) else result
  }

  function Read64(s: seq<Byte>): (r: Parsed<nat>)
    ensures r.Parsed? ==> |r.rest| < |s|
  {
    ReadVarint(s, 64, 0, 0)
  }

  // ---- wire types of unknown fields ----

  function SkipVarint(s: seq<Byte>): (r: Parsed<()>)
    ensures r.Parsed? ==> |r.rest| <= |s|
  {
    if s == [] then Malformed else if s[0] >= 128 then SkipVarint(s[1..]) else Parsed((), s[1..])
  }

  function Take(s: seq<Byte>, n: nat): (r: Parsed<seq<Byte>>)
    ensures r.Parsed? ==> |r.value| == n && |r.rest| == |s| - n
  {
    if |s| < n then Malformed else Parsed(s[..n], s[n..])
  }

  /** The bytes after a length that comes first. */
  function TakePrefixed(s: seq<Byte>): (r: Parsed<seq<Byte>>)
    ensures r.Parsed? ==> |r.rest| + |r.value| < |s|
  {
    match Read32(s)
    case Malformed => Malformed
    case Parsed(n, rest) => Take(rest, n)
  }

  function Forget<T>(p: Parsed<T>): Parsed<()> {
    match p
    case Malformed => Malformed
    case Parsed(_, rest) => Parsed((), rest)
  }

  function SkipField(wireType: nat, s: seq<Byte>): (r: Parsed<()>)
    ensures r.Parsed? ==> |r.rest| <= |s|
  {
    if wireType == WT_VARINT then SkipVarint(s)
    else if wireType == WT_64BIT then Forget(Take(s, 8))
    else if wireType == WT_STRING then Forget(TakePrefixed(s))
    else if wireType == WT_32BIT then Forget(Take(s, 4))
    else Malformed
  }

  // ---- values ----

  /** A cast to a signed type of so many bytes. */
  function Wrap(n: int, w: Width): (r: int)
    ensures FitsSigned(r, w)
  {
    var low := n % Pow2(8 * w);
    if low < Pow2(8 * w - 1) then low else low - Pow2(8 * w)
  }

  /** ~(value >> 1) for odd values. */
  function UnZigZag(v: nat): int {
    if v % 2 == 1 then -1 - v / 2 else v / 2
  }

  /** The cast to the size of the field must not change the value. */
  function Checked(n: int, w: Width, rest: seq<Byte>): (r: Parsed<int>)
    ensures r.Parsed? ==> r == Parsed(n, rest) && FitsSigned(n, w)
    ensures r.Malformed? ==> Wrap(n, w) != n
  {
    if Wrap(n, w) == n then Parsed(n, rest) else Malformed
  }

  function CheckedUnsigned(v: nat, w: Width, rest: seq<Byte>): (r: Parsed<int>)
    ensures r.Parsed? ==> r == Parsed(v, rest) && FitsUnsigned(v, w)
    ensures r.Malformed? ==> v % Pow2(8 * w) != v
  {
    if v % Pow2(8 * w) == v then Parsed(v, rest) else Malformed
  }

  function ReadFixed32(s: seq<Byte>): (r: Parsed<int>)
    ensures r.Parsed? ==> |r.rest| < |s| && FitsUnsigned(r.value, 4)
  {
    WordPowers();
    if |s| < 4 then Malformed else Parsed(DecodeFixed32(s), s[4..])
  }

  function ReadFixed64(s: seq<Byte>): (r: Parsed<int>)
    ensures r.Parsed? ==> |r.rest| < |s| && FitsUnsigned(r.value, 8)
  {
    WordPowers();
    if |s| < 8 then Malformed else Parsed(DecodeFixed64(s), s[8..])
  }

  function ReadBool(s: seq<Byte>): (r: Parsed<int>)
    ensures r.Parsed? ==> |r.rest| < |s| && (r.value == 0 || r.value == 1)
  {
    match Read32(s)
    case Malformed => Malformed
    case Parsed(v, rest) => Parsed(if v != 0 then 1 else 0, rest)
  }

  /** Fields of up to 32 bits keep the low 32 bits, so that negative numbers written as 32-bit ones come out right. */
  function ReadSigned(w: Width, s: seq<Byte>): (r: Parsed<int>)
    ensures r.Parsed? ==> |r.rest| < |s| && FitsSigned(r.value, w)
  {
    match Read64(s)
    case Malformed => Malformed
    case Parsed(v, rest) => Checked(Wrap(v, if w == 8 then 8 else 4), w, rest)
  }

  function ReadUnsigned(w: Width, s: seq<Byte>): (r: Parsed<int>)
    ensures r.Parsed? ==> |r.rest| < |s| && FitsUnsigned(r.value, w)
  {
    match Read64(s)
    case Malformed => Malformed
    case Parsed(v, rest) => CheckedUnsigned(v, w, rest)
  }

  function ReadZigZag(w: Width, s: seq<Byte>): (r: Parsed<int>)
    ensures r.Parsed? ==> |r.rest| < |s| && FitsSigned(r.value, w)
  {
    match Read64(s)
    case Malformed => Malformed
    case Parsed(v, rest) => Checked(UnZigZag(v), w, rest)
  }

  function DecodeNumber(kind: Kind, s: seq<Byte>): (r: Parsed<int>)
    requires Packable(kind)
    ensures r.Parsed? ==> |r.rest| < |s| && Holds(kind, Number(r.value))
  {
    match kind
    case Bool => ReadBool(s)
    case Signed(w) => ReadSigned(w, s)
    case Unsigned(w) => ReadUnsigned(w, s)
    case ZigZag(w) => ReadZigZag(w, s)
    case Fixed32Kind => ReadFixed32(s)
    case Fixed64Kind => ReadFixed64(s)
  }

  function ReadBytes(size: Word, s: seq<Byte>): (r: Parsed<Value>)
    ensures r.Parsed? ==> |r.rest| < |s| && Holds(Bytes(size), r.value)
  {
    match Read32(s)
    case Malformed => Malformed
    case Parsed(n, rest) =>
      if n + BYTES_HEADER > size || |rest| < n then Malformed else Parsed(Data(rest[..n]), rest[n..])
  }

  /** One byte is for the terminator. */
  function ReadString(size: Word, s: seq<Byte>): (r: Parsed<Value>)
    ensures r.Parsed? ==> |r.rest| < |s| && Holds(String(size), r.value)
  {
    match Read32(s)
    case Malformed => Malformed
    case Parsed(n, rest) => if n + 1 > size || |rest| < n then Malformed else Parsed(Data(rest[..n]), rest[n..])
  }

  function ReadFixedBytes(size: Word, s: seq<Byte>): (r: Parsed<Value>)
    ensures r.Parsed? ==> |r.rest| < |s| && Holds(FixedBytes(size), r.value)
  {
    match Read32(s)
    case Malformed => Malformed
    case Parsed(n, rest) =>
      if n == 0 then Parsed(Data(seq(size, _ => 0)), rest)
      else if n != size || |rest| < n then Malformed
      else Parsed(Data(rest[..n]), rest[n..])
  }

  /** `item`: an item of an array starts from its defaults, any other submessage from what is there. */
  function DecodeValue(kind: Kind, item: bool, s: seq<Byte>, prior: Value): (r: Parsed<Value>)
    requires Holds(kind, prior)
    ensures r.Parsed? ==> |r.rest| < |s| && Holds(kind, r.value)
    decreases kind, 0
  {
    match kind
    case Bytes(size) => ReadBytes(size, s)
    case String(size) => ReadString(size, s)
    case FixedBytes(size) => ReadFixedBytes(size, s)
    case Submessage(d) =>
      DefaultsFit(d);
      (match TakePrefixed(s)
       case Malformed => Malformed
       case Parsed(body, rest) =>
         match DecodeFields(d, body, if item then Defaults(d, |d.fields|) else prior.slots)
         case None => Malformed
         case Some(slots) => Parsed(Message(slots), rest))
    case _ =>
      (match DecodeNumber(kind, s)
       case Malformed => Malformed
       case Parsed(n, rest) => Parsed(Number(n), rest))
  }

  /** The items of a packed array; the whole of `s` has to be used up. */
  function DecodePacked(kind: Kind, s: seq<Byte>, items: seq<Value>, arraySize: nat): (r: Option<seq<Value>>)
    requires Packable(kind) && AllHold(kind, items)
    ensures r.Some? ==> AllHold(kind, r.value) && (|r.value| <= arraySize || r.value == items)
    decreases |s|
  {
    if s == [] then Some(items)
    else if |items| >= arraySize then None
    else
      match DecodeNumber(kind, s)
      case Malformed => None
      case Parsed(n, rest) => DecodePacked(kind, rest, items + [Number(n)], arraySize)
  }

  // ---- fields ----

  function DecodeSlot(field: Field, wireType: nat, s: seq<Byte>, slot: Slot): (r: Parsed<Slot>)
    requires SlotFits(field, slot)
    ensures r.Parsed? ==> |r.rest| <= |s| && SlotFits(field, r.value)
    decreases field, 0
  {
    match field.rule
    case Required =>
      (match DecodeValue(field.kind, false, s, slot.value)
       case Malformed => Malformed
       case Parsed(v, rest) => Parsed(One(v), rest))
    case Optional =>
      ZeroHolds(field.kind);
      (match DecodeValue(field.kind, false, s, if slot.content.Some? then slot.content.value else ZeroOf(field.kind))
       case Malformed => Malformed
       case Parsed(v, rest) => Parsed(Maybe(Some(v)), rest))
    case Arm(_) =>
      ZeroHolds(field.kind);
      (match DecodeValue(field.kind, false, s, ZeroOf(field.kind))
       case Malformed => Malformed
       case Parsed(v, rest) => Parsed(Maybe(Some(v)), rest))
    case Repeated(arraySize) =>
      if wireType == WT_STRING && Packable(field.kind) then
        match TakePrefixed(s)
        case Malformed => Malformed
        case Parsed(body, rest) =>
          match DecodePacked(field.kind, body, slot.items, arraySize)
          case None => Malformed
          case Some(items) => Parsed(Many(items), rest)
      else if |slot.items| >= arraySize then Malformed
      else
        ZeroHolds(field.kind);
        match DecodeValue(field.kind, true, s, ZeroOf(field.kind))
        case Malformed => Malformed
        case Parsed(v, rest) => Parsed(Many(slot.items + [v]), rest)
  }

  lemma {:induction false} ZeroHolds(kind: Kind)
    ensures Holds(kind, ZeroOf(kind))
    decreases kind
  {
    if kind.Submessage? {
      DefaultsFit(kind.descriptor);
    }
  }

  lemma {:induction false} DefaultsFit(d: Descriptor)
    ensures Fits(d, Defaults(d, |d.fields|))
    decreases d
  {
    forall i | 0 <= i < |d.fields| ensures SlotFits(d.fields[i], Initial(d.fields[i])) {
      ZeroHolds(d.fields[i].kind);
    }
  }

  /** The first field with the tag. */
  function IndexOf(d: Descriptor, tag: nat, from: nat): (i: Option<nat>)
    requires from <= |d.fields|
    ensures i.Some? ==> from <= i.value < |d.fields| && d.fields[i.value].tag == tag
    ensures i.None? ==> forall k :: from <= k < |d.fields| ==> d.fields[k].tag != tag
    decreases |d.fields| - from
  {
    if from == |d.fields| then None else if d.fields[from].tag == tag then Some(from) else IndexOf(d, tag, from + 1)
  }

  lemma {:induction false} FoundByTag(d: Descriptor, i: nat, from: nat)
    requires TagsAreDistinct(d) && from <= i < |d.fields|
    ensures IndexOf(d, d.fields[i].tag, from) == Some(i)
    decreases i - from
  {
    if from < i {
      FoundByTag(d, i, from + 1);
    }
  }

  /** Setting an arm of a oneof takes the union from the other arms. */
  function Put(d: Descriptor, slots: seq<Slot>, i: nat, slot: Slot): (r: seq<Slot>)
    requires Fits(d, slots) && i < |slots| && SlotFits(d.fields[i], slot)
    ensures Fits(d, r)
  {
    seq(|slots|, j requires 0 <= j < |slots| =>
      if j == i then slot
      else if d.fields[i].rule.Arm? && d.fields[j].rule == d.fields[i].rule then Maybe(None)
      else slots[j])
  }

  /** The bit a required field leaves in the bitmap; the fields after the 64th leave none. */
  function Mark(d: Descriptor, i: nat): set<nat>
    requires i < |d.fields|
  {
    if d.fields[i].rule.Required? && RequiredBefore(d, i) < MAX_REQUIRED_FIELDS then {RequiredBefore(d, i)} else {}
  }

  datatype Progress = Progress(slots: seq<Slot>, seen: set<nat>)

  /** One field after its key: skipped when no field has the tag. An empty descriptor is its own terminator,
      which passes for a field with tag zero. */
  function DecodeOne(d: Descriptor, key: nat, s: seq<Byte>, p: Progress): (r: Parsed<Progress>)
    requires Fits(d, p.slots)
    ensures r.Parsed? ==> |r.rest| <= |s| && Fits(d, r.value.slots)
    decreases d, 0
  {
    var tag, wireType := key / 8, key % 8;
    match IndexOf(d, tag, 0)
    case None =>
      (match if d.fields == [] && tag == 0 then Forget(Read32(s)) else SkipField(wireType, s)
       case Malformed => Malformed
       case Parsed(_, rest) => Parsed(p, rest))
    case Some(i) =>
      (match DecodeSlot(d.fields[i], wireType, s, p.slots[i])
       case Malformed => Malformed
       case Parsed(slot, rest) => Parsed(Progress(Put(d, p.slots, i, slot), p.seen + Mark(d, i)), rest))
  }

  /** A zero key ends the message early. */
  function DecodeLoop(d: Descriptor, s: seq<Byte>, p: Progress): (r: Option<Progress>)
    requires Fits(d, p.slots)
    ensures r.Some? ==> Fits(d, r.value.slots)
    decreases d, 1 + |s|
  {
    if s == [] then Some(p)
    else
      match Read32(s)
      case Malformed => None
      case Parsed(key, rest) =>
        if key == 0 then Some(p)
        else
          match DecodeOne(d, key, rest, p)
          case Malformed => None
          case Parsed(next, rest') => DecodeLoop(d, rest', next)
  }

  function RequiredCount(d: Descriptor): (n: nat)
    ensures n <= MAX_REQUIRED_FIELDS
  {
    var n := RequiredBefore(d, |d.fields|);
    if n > MAX_REQUIRED_FIELDS then MAX_REQUIRED_FIELDS else n
  }

  predicate AllSeen(d: Descriptor, seen: set<nat>) {
    forall k :: 0 <= k < RequiredCount(d) ==> k in seen
  }

  /** pb_decode_noinit. */
  function DecodeFields(d: Descriptor, s: seq<Byte>, slots: seq<Slot>): (r: Option<seq<Slot>>)
    requires Fits(d, slots)
    ensures r.Some? ==> Fits(d, r.value)
    decreases d, 2 + |s|
  {
    match DecodeLoop(d, s, Progress(slots, {}))
    case None => None
    case Some(p) => if AllSeen(d, p.seen) then Some(p.slots) else None
  }

  /** pb_decode. */
  function Decode(d: Descriptor, s: seq<Byte>): (r: Option<seq<Slot>>)
    ensures r.Some? ==> Fits(d, r.value)
  {
    DefaultsFit(d);
    DecodeFields(d, s, Defaults(d, |d.fields|))
  }
}
