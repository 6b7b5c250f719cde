/** Message descriptors, the values they describe, and the walk over a descriptor
    (nanopb/pb.h, nanopb/pb_common.c). A message is a value that matches its descriptor slot by slot. */
module ProtoFields {
  import opened Basics
  import opened Coding

  type Width = w: nat | w == 1 || w == 2 || w == 4 || w == 8 witness 4

  /** The LTYPE of a field, with data_size where it matters. */
  datatype Kind =
    | Bool
    | Signed(width: Width)
    | Unsigned(width: Width)
    | ZigZag(width: Width)
    | Fixed32Kind
    | Fixed64Kind
    | Bytes(dataSize: Word)
    | String(dataSize: Word)
    | FixedBytes(dataSize: Word)
    | Submessage(descriptor: Descriptor)

  /** The HTYPE of a field. The arms of a oneof share a union. */
  datatype Rule = Required | Optional | Repeated(arraySize: Word) | Arm(union: nat)

  datatype Field = Field(tag: nat, rule: Rule, kind: Kind)

  datatype Descriptor = Descriptor(fields: seq<Field>)

  datatype Value = Number(n: int) | Data(bytes: seq<Byte>) | Message(slots: seq<Slot>)

  /** A required field, an optional field or arm of a oneof, a repeated field. */
  datatype Slot = One(value: Value) | Maybe(content: Option<Value>) | Many(items: seq<Value>)

  const MAX_REQUIRED_FIELDS: nat := 64

  /** sizeof(pb_size_t), the count in front of the bytes of a bytes array, with 32-bit fields. */
  const BYTES_HEADER: nat := 4

  predicate Packable(kind: Kind) {
    kind.Bool? || kind.Signed? || kind.Unsigned? || kind.ZigZag? || kind.Fixed32Kind? || kind.Fixed64Kind?
  }

  predicate FitsSigned(n: int, w: Width) {
    0 - Pow2(8 * w - 1) <= n < Pow2(8 * w - 1)
  }

  predicate FitsUnsigned(n: int, w: Width) {
    0 <= n < Pow2(8 * w)
  }

  // ---- what a struct can hold ----

  ghost predicate Holds(kind: Kind, v: Value)
    decreases kind
  {
    match kind
    case Bool => v.Number? && (v.n == 0 || v.n == 1)
    case Signed(w) => v.Number? && FitsSigned(v.n, w)
    case Unsigned(w) => v.Number? && FitsUnsigned(v.n, w)
    case ZigZag(w) => v.Number? && FitsSigned(v.n, w)
    case Fixed32Kind => v.Number? && FitsUnsigned(v.n, 4)
    case Fixed64Kind => v.Number? && FitsUnsigned(v.n, 8)
    case Bytes(_) => v.Data? && |v.bytes| < 0x1_0000_0000
    case String(size) => v.Data? && |v.bytes| <= size
    case FixedBytes(size) => v.Data? && |v.bytes| == size
    case Submessage(d) => v.Message? && Fits(d, v.slots)
  }

  ghost predicate SlotFits(field: Field, slot: Slot)
    decreases field
  {
    match field.rule
    case Required => slot.One? && Holds(field.kind, slot.value)
    case Optional => slot.Maybe? && (slot.content.Some? ==> Holds(field.kind, slot.content.value))
    case Arm(_) => slot.Maybe? && (slot.content.Some? ==> Holds(field.kind, slot.content.value))
    case Repeated(_) => slot.Many? && |slot.items| < 0x1_0000_0000 && forall k :: 0 <= k < |slot.items| ==>
      Holds(field.kind, slot.items[k])
  }

  ghost predicate Fits(d: Descriptor, slots: seq<Slot>)
    decreases d
  {
    |slots| == |d.fields| && forall i :: 0 <= i < |slots| ==> SlotFits(d.fields[i], slots[i])
  }

  // ---- where a struct starts ----

  function ZeroOf(kind: Kind): (v: Value)
    decreases kind
  {
    match kind
    case Bytes(_) => Data([])
    case String(_) => Data([])
    case FixedBytes(size) => Data(seq(size, _ => 0))
    case Submessage(d) => Message(Defaults(d, |d.fields|))
    case _ => Number(0)
  }

  function Initial(field: Field): Slot
    decreases field
  {
    match field.rule
    case Required => One(ZeroOf(field.kind))
    case Optional => Maybe(None)
    case Arm(_) => Maybe(None)
    case Repeated(_) => Many([])
  }

  /** pb_message_set_to_defaults, over the first n fields. */
  function Defaults(d: Descriptor, n: nat): (slots: seq<Slot>)
    requires n <= |d.fields|
    ensures |slots| == n
    ensures forall i :: 0 <= i < n ==> slots[i] == Initial(d.fields[i])
    decreases d, n
  {
    if n == 0 then [] else Defaults(d, n - 1) + [Initial(d.fields[n - 1])]
  }

  // ---- the walk over a descriptor ----

  function RequiredBefore(d: Descriptor, i: nat): (n: nat)
    requires i <= |d.fields|
    ensures n <= i
  {
    if i == 0 then 0 else RequiredBefore(d, i - 1) + if d.fields[i - 1].rule.Required? then 1 else 0
  }

  lemma {:induction false} RequiredGrows(d: Descriptor, i: nat, j: nat)
    requires i <= j <= |d.fields|
    ensures RequiredBefore(d, i) <= RequiredBefore(d, j)
    ensures i < j && d.fields[i].rule.Required? ==> RequiredBefore(d, i) < RequiredBefore(d, j)
  {
    if i < j {
      RequiredGrows(d, i, j - 1);
    }
  }

  /** The terminator has tag zero, so no field may. */
  ghost predicate TagsAreNonZero(d: Descriptor) {
    forall i :: 0 <= i < |d.fields| ==> d.fields[i].tag != 0
  }

  ghost predicate TagsAreDistinct(d: Descriptor) {
    forall i, j :: 0 <= i < j < |d.fields| ==> d.fields[i].tag != d.fields[j].tag
  }

  /** The tag at a position; the position after the last field is the terminator. */
  function TagAt(d: Descriptor, i: nat): nat
    requires i <= |d.fields|
  {
    if i < |d.fields| then d.fields[i].tag else 0
  }

  /** How many steps the cyclic walk from `start` needs to get to i. */
  function StepsTo(d: Descriptor, start: nat, i: nat): nat
    requires start <= |d.fields| && i <= |d.fields|
  {
    if start <= i then i - start else |d.fields| - start + i
  }

  ghost predicate HasTag(d: Descriptor, tag: nat) {
    exists i :: 0 <= i < |d.fields| && d.fields[i].tag == tag
  }

  /** No field with the tag comes earlier in the walk from `start` than the one at `pos`. */
  ghost predicate NearestFrom(d: Descriptor, start: nat, pos: nat, tag: nat)
    requires start <= |d.fields| && pos <= |d.fields|
  {
    forall i :: 0 <= i < |d.fields| && StepsTo(d, start, i) < StepsTo(d, start, pos) ==> d.fields[i].tag != tag
  }

  class FieldIter {
    const descriptor: Descriptor
    var pos: nat
    var requiredIndex: nat

    ghost predicate Valid()
      reads this
    {
      && TagsAreNonZero(descriptor)
      && (pos < |descriptor.fields| || (pos == 0 && descriptor.fields == []))
      && requiredIndex == RequiredBefore(descriptor, pos)
    }

    constructor (descriptor: Descriptor)
      requires TagsAreNonZero(descriptor)
      ensures Valid() && this.descriptor == descriptor && pos == 0
    {
      this.descriptor := descriptor;
      pos, requiredIndex := 0, 0;
    }

    method Begin() returns (nonEmpty: bool)
      requires TagsAreNonZero(descriptor)
      modifies this
      ensures Valid() && pos == 0
      ensures nonEmpty == (descriptor.fields != [])
    {
      pos, requiredIndex := 0, 0;
      nonEmpty := TagAt(descriptor, pos) != 0;
    }

    /** Steps to the next field, or back to the first one and says so. */
    method Next() returns (more: bool)
      requires Valid()
      modifies this
      ensures Valid()
      ensures more == (old(pos) + 1 < |descriptor.fields|)
      ensures pos == if more then old(pos) + 1 else 0
    {
      var prev := pos;
      if TagAt(descriptor, prev) == 0 {
        return false;
      }
      pos := pos + 1;
      if TagAt(descriptor, pos) == 0 {
        var _ := Begin();
        return false;
      }
      if descriptor.fields[prev].rule.Required? {
        requiredIndex := requiredIndex + 1;
      }
      return true;
    }

    /** Walks on from where the iterator stands, once around at most. */
    method Find(tag: nat) returns (found: bool)
      requires Valid()
      modifies this
      ensures Valid()
      ensures found <==> HasTag(descriptor, tag) || (descriptor.fields == [] && tag == 0)
      ensures found ==> TagAt(descriptor, pos) == tag && NearestFrom(descriptor, old(pos), pos, tag)
      ensures !found ==> pos == old(pos)
    {
      var start, n := pos, |descriptor.fields|;
      ghost var steps := 0;
      while true
        invariant Valid() && (n == 0 || steps < n)
        invariant steps == StepsTo(descriptor, start, pos)
        invariant forall i :: 0 <= i < n && StepsTo(descriptor, start, i) < steps ==> descriptor.fields[i].tag != tag
        decreases n - steps
      {
        if TagAt(descriptor, pos) == tag {
          return true;
        }
        var _ := Next();
        if pos == start {
          return false;
        }
        steps := steps + 1;
      }
    }
  }
}
