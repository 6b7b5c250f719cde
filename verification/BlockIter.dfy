/** The iterator over a block (table/block.cc): a cursor over the entries that were added to the builder. */
module BlockIterators {
  import opened Basics
  import opened Coding
  import opened BlockFormat
  import opened BlockReader

  /** The first entry with a key that is not before the target. */
  ghost predicate IsSeekPos(less: Order, es: seq<Pair>, target: Key, i: nat) {
    && i <= |es|
    && (forall j :: 0 <= j < i ==> less(es[j].key, target))
    && (forall j :: i <= j < |es| ==> !less(es[j].key, target))
  }

  lemma SeekPosIs(less: Order, es: seq<Pair>, target: Key, i: nat)
    requires StrictOrder(less) && Ascending(less, es) && i <= |es|
    requires i < |es| ==> !less(es[i].key, target)
    requires i > 0 ==> less(es[i - 1].key, target)
    ensures IsSeekPos(less, es, target, i)
  {
    forall j | i < j < |es| ensures !less(es[j].key, target) {
      assert less(es[i].key, es[j].key);
    }
    forall j | 0 <= j < i - 1 ensures less(es[j].key, target) {
      assert less(es[j].key, es[i - 1].key);
    }
  }

  /** Offsets and positions order entries alike. */
  lemma OffsetOrder(l: Layout, i: nat, j: nat)
    requires i <= |l.entries| && j <= |l.entries|
    ensures Offset(l, i) < Offset(l, j) <==> i < j
  {
    if i <= j {
      DataIsPrefix(l, i, j);
    } else {
      DataIsPrefix(l, j, i);
    }
  }

  /** NumRestarts, and where the restart array starts; None marks a block that is too small for them. */
  method OpenBlock(contents: seq<Byte>, ghost l: Layout) returns (r: Option<(nat, nat)>)
    ensures IsBlock(contents, l) ==> r == Some((|WholeData(l)|, |l.starts|))
  {
    if IsBlock(contents, l) {
      NumRestartsRead(contents, l);
    }
    if |contents| < 4 {
      return None;
    }
    var maxRestartsAllowed := (|contents| - 4) / 4;
    var numRestarts := DecodeFixed32(contents[|contents| - 4..]);
    if numRestarts > maxRestartsAllowed {
      return None;
    }
    return Some((|contents| - (1 + numRestarts) * 4, numRestarts));
  }

  /** A block, where its parts are, and what was added to it: for each entry its offset and how much of the key
      before it its key shares. */
  datatype Shape = Shape(contents: seq<Byte>, restarts: nat, numRestarts: nat, layout: Layout, offsets: seq<nat>,
                         shared: seq<nat>)

  ghost function ShapeOf(contents: seq<Byte>, l: Layout): Shape {
    var n := |l.entries|;
    Shape(contents, |WholeData(l)|, |l.starts|, l,
          seq(n + 1, i requires 0 <= i < n + 1 => Offset(l, i)), seq(n, i requires 0 <= i < n => Shared(l, i)))
  }

  /** A finished block. What that means is only looked up for an opened shape. */
  ghost predicate Sound(b: Shape) {
    forall x: Shape {:trigger Opened(x)} :: Opened(x) && x == b ==> Finished(x)
  }

  ghost predicate Finished(b: Shape) {
    IsBlock(b.contents, b.layout) && b == ShapeOf(b.contents, b.layout)
  }

  ghost predicate Sized(b: Shape) {
    && |b.offsets| == |b.layout.entries| + 1 && |b.shared| == |b.layout.entries|
    && b.restarts == b.offsets[|b.layout.entries|] <= |b.contents|
    && b.numRestarts == |b.layout.starts| > 0
    && (forall i :: 0 <= i < |b.shared| ==> b.shared[i] <= |b.layout.entries[i].key|)
  }

  lemma SoundIsSized(b: Shape)
    requires Sound(b)
    ensures Sized(b)
  {
    assert Opened(b) && Finished(b);
    LayoutIsOpen(b.contents, b.layout);
    ContentsStart(b.contents, b.layout, |b.layout.entries|);
  }

  lemma BlockOf(b: Shape)
    requires Sound(b)
    ensures IsBlock(b.contents, b.layout) && b.restarts == |WholeData(b.layout)| && b.numRestarts == |b.layout.starts|
  {
    assert Opened(b) && Finished(b);
  }

  lemma OffsetIs(b: Shape, i: nat)
    requires Sound(b) && Sized(b) && i <= |b.layout.entries|
    ensures b.offsets[i] == Offset(b.layout, i)
  {
    assert Opened(b) && Finished(b);
  }

  /** Offsets and positions order entries alike. */
  lemma OffsetsRise(b: Shape, i: nat, j: nat)
    requires Sound(b) && Sized(b) && i <= |b.layout.entries| && j <= |b.layout.entries|
    ensures b.offsets[i] < b.offsets[j] <==> i < j
    ensures b.offsets[i] <= b.restarts
  {
    OffsetIs(b, i);
    OffsetIs(b, j);
    OffsetIs(b, |b.layout.entries|);
    OffsetOrder(b.layout, i, j);
    OffsetOrder(b.layout, |b.layout.entries|, i);
  }

  lemma StartsRise(b: Shape, q: nat, r: nat)
    requires Sound(b) && q <= r < |b.layout.starts|
    ensures b.layout.starts[r] <= |b.layout.entries|
    ensures (b.layout.entries != [] ==> b.layout.starts[r] < |b.layout.entries|)
    ensures q < r ==> b.layout.starts[q] < b.layout.starts[r]
    ensures b.layout.starts[0] == 0
  {
    BlockOf(b);
    LayoutIsOpen(b.contents, b.layout);
    StartInside(b.layout, r);
  }

  // ---- where an iterator stands ----

  datatype Cursor = Cursor(current: nat, restartIndex: nat, key: Key, valueStart: nat, valueEnd: nat)

  /** The restart point is the last one before the entry, or the entry itself when the walk jumped there. */
  ghost predicate InRegion(l: Layout, r: nat, i: nat) {
    r < |l.starts| && l.starts[r] <= i && (r + 1 < |l.starts| ==> i <= l.starts[r + 1])
  }

  /** The value of an entry ends where the entry does. */
  ghost predicate ShowsEntry(b: Shape, c: Cursor, i: nat)
    requires i < |b.layout.entries|
  {
    c.key == b.layout.entries[i].key && c.valueStart + |b.layout.entries[i].value| == c.valueEnd
  }

  lemma ValueOf(b: Shape, i: nat)
    requires Sound(b) && Sized(b) && i < |b.layout.entries|
    ensures |b.layout.entries[i].value| <= b.offsets[i + 1] <= |b.contents|
    ensures b.contents[b.offsets[i + 1] - |b.layout.entries[i].value|..b.offsets[i + 1]] == b.layout.entries[i].value
  {
    BlockOf(b);
    OffsetIs(b, i + 1);
    ValueInBlock(b.contents, b.layout, i);
  }

  /** At the i-th entry, or past the last one. */
  ghost predicate StandsAt(b: Shape, c: Cursor, i: nat)
    requires Sized(b)
  {
    && i <= |b.layout.entries|
    && (if i < |b.layout.entries| then
          && c.current == b.offsets[i] && c.valueEnd == b.offsets[i + 1]
          && ShowsEntry(b, c, i) && InRegion(b.layout, c.restartIndex, i)
        else c.current == b.restarts && c.restartIndex == b.numRestarts)
  }

  ghost predicate HasShared(b: Shape, key: Key, i: nat)
    requires Sized(b)
  {
    i < |b.shared| ==> b.shared[i] <= |key| && key[..b.shared[i]] == b.layout.entries[i].key[..b.shared[i]]
  }

  /** The next entry to parse is the i-th, and the key so far has what that one shares. */
  ghost predicate Ready(b: Shape, c: Cursor, i: nat)
    requires Sized(b)
  {
    && i <= |b.layout.entries| && c.valueEnd == b.offsets[i]
    && c.restartIndex < b.numRestarts && b.layout.starts[c.restartIndex] <= i
    && HasShared(b, c.key, i)
  }

  lemma SharedOf(b: Shape, i: nat)
    requires Sound(b) && Sized(b) && i < |b.layout.entries|
    ensures b.shared[i] == Shared(b.layout, i)
  {
    assert Opened(b) && Finished(b);
  }

  lemma ReadyAfter(b: Shape, c: Cursor, i: nat)
    requires Sound(b) && Sized(b) && StandsAt(b, c, i) && i < |b.layout.entries|
    ensures Ready(b, c, i + 1)
  {
    if i + 1 < |b.layout.entries| {
      SharedOf(b, i + 1);
      SharedWithLast(b.layout, i + 1);
    }
  }

  lemma ReadyAtStart(b: Shape, c: Cursor)
    requires Sound(b) && Sized(b) && c.restartIndex < b.numRestarts && c.key == []
    requires b.layout.starts[c.restartIndex] <= |b.layout.entries|
    requires c.valueEnd == b.offsets[b.layout.starts[c.restartIndex]]
    ensures Ready(b, c, b.layout.starts[c.restartIndex])
  {
    var i := b.layout.starts[c.restartIndex];
    if i < |b.layout.entries| {
      SharedOf(b, i);
    }
  }

  // ---- reading the parts of a block ----

  method GetRestartPoint(contents: seq<Byte>, restarts: nat, index: nat, ghost b: Shape) returns (offset: nat)
    requires Sound(b) && Sized(b) && b.contents == contents && b.restarts == restarts && index < |b.layout.starts|
    ensures b.layout.starts[index] <= |b.layout.entries| && offset == b.offsets[b.layout.starts[index]]
  {
    BlockOf(b);
    RestartPointRead(contents, b.layout, index);
    OffsetIs(b, b.layout.starts[index]);
    offset := DecodeFixed32(contents[restarts + 4 * index..]);
  }

  /** The last restart point that is not behind the entry, from one that is not. */
  method AdvanceRestartIndex(contents: seq<Byte>, restarts: nat, numRestarts: nat, index: nat, current: nat,
                             ghost b: Shape, ghost i: nat)
    returns (r: nat)
    requires Sound(b) && Sized(b) && b.contents == contents && b.restarts == restarts && b.numRestarts == numRestarts
    requires i <= |b.layout.entries| && current == b.offsets[i] && index < numRestarts && b.layout.starts[index] <= i
    ensures InRegion(b.layout, r, i)
  {
    r := index;
    while r + 1 < numRestarts
      invariant r < numRestarts && b.layout.starts[r] <= i
      decreases numRestarts - r
    {
      var point := GetRestartPoint(contents, restarts, r + 1, b);
      OffsetsRise(b, b.layout.starts[r + 1], i);
      if point >= current {
        break;
      }
      r := r + 1;
    }
  }

  /** The last restart point before an entry, going back from one that is not behind it. */
  method RestartBefore(contents: seq<Byte>, restarts: nat, index: nat, original: nat, ghost b: Shape, ghost i: nat)
    returns (r: Option<nat>)
    requires Sound(b) && Sized(b) && b.contents == contents && b.restarts == restarts
    requires i <= |b.layout.entries| && original == b.offsets[i] && index < |b.layout.starts|
    requires b.layout.starts[index] <= i
    ensures r.None? ==> i == 0
    ensures r.Some? ==> r.value < |b.layout.starts| && b.layout.starts[r.value] < i
  {
    var k: nat := index;
    while true
      invariant k < |b.layout.starts| && b.layout.starts[k] <= i
      decreases k
    {
      var point := GetRestartPoint(contents, restarts, k, b);
      OffsetsRise(b, b.layout.starts[k], i);
      StartsRise(b, if k == 0 then 0 else k - 1, k);
      if point < original {
        return Some(k);
      }
      if k == 0 {
        return None;
      }
      k := k - 1;
    }
  }

  lemma PairAt(b: Shape, before: Key, i: nat) returns (h: Header)
    requires Sound(b) && Sized(b) && i < |b.layout.entries| && HasShared(b, before, i)
    ensures b.offsets[i] < b.restarts && ParseHeader(b.contents[b.offsets[i]..b.restarts]) == Some(h)
    ensures h.shared == b.shared[i] <= |before| && h.nonShared + h.valueLength <= |h.rest| <= b.restarts
    ensures before[..h.shared] + h.rest[..h.nonShared] == b.layout.entries[i].key
    ensures h.valueLength == |b.layout.entries[i].value|
    ensures b.restarts - |h.rest| + h.nonShared + h.valueLength == b.offsets[i + 1]
  {
    BlockOf(b);
    OffsetIs(b, i);
    OffsetIs(b, i + 1);
    SharedOf(b, i);
    h := NextKeyRead(b.contents, b.layout, before, i);
  }

  /** Key and value of the entry behind the value of a cursor. */
  method ParsePair(contents: seq<Byte>, restarts: nat, at: nat, before: Key, ghost b: Shape, ghost i: nat)
    returns (ok: bool, key: Key, valueStart: nat, valueEnd: nat)
    requires Sound(b) && Sized(b) && b.contents == contents && b.restarts == restarts
    requires i < |b.layout.entries| && at == b.offsets[i] && HasShared(b, before, i)
    ensures ok && key == b.layout.entries[i].key
    ensures valueStart + |b.layout.entries[i].value| == valueEnd == b.offsets[i + 1]
  {
    ghost var expected := PairAt(b, before, i);
    var h := DecodeEntry(contents[at..restarts]);
    ok := h.Some? && h.value.shared <= |before|;
    key, valueStart, valueEnd := [], 0, 0;
    if ok {
      key := before[..h.value.shared] + h.value.rest[..h.value.nonShared];
      valueStart := restarts - |h.value.rest| + h.value.nonShared;
      valueEnd := valueStart + h.value.valueLength;
    }
  }

  /** The key at a restart point is stored whole. */
  method RestartKey(contents: seq<Byte>, restarts: nat, index: nat, ghost b: Shape) returns (key: Option<Key>)
    requires Sound(b) && Sized(b) && b.contents == contents && b.restarts == restarts && 0 < index < |b.layout.starts|
    ensures b.layout.starts[index] < |b.layout.entries| && key == Some(b.layout.entries[b.layout.starts[index]].key)
  {
    StartsRise(b, 0, index);
    var offset := GetRestartPoint(contents, restarts, index, b);
    WholeKeyAt(b, index);
    var h := DecodeEntry(contents[offset..restarts]);
    key := if h.None? || h.value.shared != 0 then None else Some(h.value.rest[..h.value.nonShared]);
  }

  ghost predicate HoldsWhole(h: Option<Header>, key: Key) {
    h.Some? && h.value.shared == 0 && h.value.nonShared <= |h.value.rest| && h.value.rest[..h.value.nonShared] == key
  }

  lemma WholeKeyAt(b: Shape, index: nat)
    requires Sound(b) && Sized(b) && 0 < index < |b.layout.starts|
    ensures b.layout.starts[index] < |b.layout.entries| && b.offsets[b.layout.starts[index]] <= b.restarts
    ensures HoldsWhole(ParseHeader(b.contents[b.offsets[b.layout.starts[index]]..b.restarts]),
      b.layout.entries[b.layout.starts[index]].key)
  {
    StartsRise(b, 0, index);
    var i := b.layout.starts[index];
    assert i in b.layout.starts;
    SharedOf(b, i);
    var h := PairAt(b, [], i);
    assert [] + h.rest[..h.nonShared] == h.rest[..h.nonShared];
  }

  // ---- the iterator ----

  /** The restart points before `left` have keys before the target, those behind `right` do not. */
  ghost predicate Bracket(b: Shape, less: Order, target: Key, left: nat, right: nat) {
    && left <= right < |b.layout.starts|
    && (left > 0 ==> StartsBefore(b, less, target, left))
    && (right + 1 < |b.layout.starts| ==> !StartsBefore(b, less, target, right + 1))
  }

  ghost predicate StartsBefore(b: Shape, less: Order, target: Key, r: nat) {
    r < |b.layout.starts| && b.layout.starts[r] < |b.layout.entries| &&
      less(b.layout.entries[b.layout.starts[r]].key, target)
  }

  /** Binary search for the last restart point with a key before the target. */
  method SearchRestarts(contents: seq<Byte>, restarts: nat, numRestarts: nat, less: Order, target: Key, ghost b: Shape)
    returns (left: nat)
    requires Sound(b) && Sized(b) && b.contents == contents && b.restarts == restarts && b.numRestarts == numRestarts
    ensures Bracket(b, less, target, left, left)
  {
    left := 0;
    var right: nat := numRestarts - 1;
    while left < right
      invariant Bracket(b, less, target, left, right)
      decreases right - left
    {
      var mid := (left + right + 1) / 2;
      var midKey := RestartKey(contents, restarts, mid, b);
      if less(midKey.value, target) {
        left := mid;
      } else {
        right := mid - 1;
      }
    }
  }

  function Settled(ok: bool, here: nat, past: nat): nat {
    if ok then here else past
  }

  class BlockIter {
    const contents: seq<Byte>
    const restarts: nat
    const numRestarts: nat
    const less: Order
    ghost const layout: Layout
    var current: nat
    var restartIndex: nat
    var key: Key
    var valueStart: nat
    var valueEnd: nat
    var corrupt: bool

    ghost function State(): Cursor
      reads this
    {
      Cursor(current, restartIndex, key, valueStart, valueEnd)
    }

    ghost const block: Shape

    ghost predicate OfBlock() {
      && Sound(block) && Sized(block) && block.contents == contents && block.layout == layout
      && block.restarts == restarts && block.numRestarts == numRestarts
    }

    /** The iterator stands at the i-th entry, or past the last one. */
    ghost predicate At(i: nat)
      reads this
    {
      OfBlock() && !corrupt && StandsAt(block, State(), i)
    }

    /** The iterator starts out past the last entry. */
    constructor (contents: seq<Byte>, restarts: nat, numRestarts: nat, less: Order, ghost layout: Layout)
      requires IsBlock(contents, layout) && restarts == |WholeData(layout)| && numRestarts == |layout.starts|
      ensures At(|layout.entries|) && this.contents == contents && this.layout == layout && this.less == less
    {
      this.contents, this.restarts, this.numRestarts, this.less := contents, restarts, numRestarts, less;
      this.layout, this.block := layout, ShapeOf(contents, layout);
      current, restartIndex, key, valueStart, valueEnd, corrupt := restarts, numRestarts, [], 0, 0, false;
      new;
      SoundIsSized(block);
    }

    predicate Valid()
      reads this
    {
      current < restarts
    }

    function Value(): (v: seq<Byte>)
      requires valueStart <= valueEnd <= |contents|
      reads this
    {
      contents[valueStart..valueEnd]
    }

    /** What the iterator shows is the entry it stands at. */
    lemma Shows(i: nat)
      requires At(i)
      ensures Valid() <==> i < |layout.entries|
      ensures Valid() ==> valueStart <= valueEnd <= |contents| && Pair(key, Value()) == layout.entries[i]
    {
      OffsetsRise(block, i, |layout.entries|);
      if i < |layout.entries| {
        ValueOf(block, i);
      }
    }

    method SeekToRestartPoint(index: nat)
      requires OfBlock() && index < |layout.starts|
      modifies this
      ensures layout.starts[index] <= |layout.entries| && Ready(block, State(), layout.starts[index])
      ensures corrupt == old(corrupt)
    {
      key := [];
      restartIndex := index;
      var offset := GetRestartPoint(contents, restarts, index, block);
      valueStart, valueEnd := offset, offset;
      ReadyAtStart(block, State());
    }

    /** Parses the entry behind the value, unless the restart array starts there. A corrupt entry, which a
        finished block does not have, would leave the iterator past the end. */
    method ParseNextKey(ghost i: nat) returns (more: bool)
      requires OfBlock() && !corrupt && Ready(block, State(), i)
      modifies this
      ensures At(i) && more == (i < |layout.entries|)
    {
      OffsetsRise(block, i, |layout.entries|);
      current := valueEnd;
      if current >= restarts {
        current, restartIndex := restarts, numRestarts;
        return false;
      }
      var key', start, end;
      more, key', start, end := ParsePair(contents, restarts, current, key, block, i);
      var index := AdvanceRestartIndex(contents, restarts, numRestarts, restartIndex, current, block, i);
      current, restartIndex := Settled(more, current, restarts), Settled(more, index, numRestarts);
      key, valueStart, valueEnd, corrupt := key', start, end, !more;
    }

    method Next(ghost i: nat)
      requires At(i) && i < |layout.entries|
      modifies this
      ensures At(i + 1)
    {
      ReadyAfter(block, State(), i);
      var _ := ParseNextKey(i + 1);
    }

    method SeekToFirst()
      requires OfBlock() && !corrupt
      modifies this
      ensures At(0)
    {
      StartsRise(block, 0, 0);
      SeekToRestartPoint(0);
      var _ := ParseNextKey(0);
    }

    /** Parses entry `i`; there is more to parse when it ends before `end`, the start of entry `j`. */
    method ParseOne(ghost i: nat, end: nat, ghost j: nat) returns (another: bool)
      requires OfBlock() && !corrupt && Ready(block, State(), i)
      requires i <= j <= |layout.entries| && (i < j || j == |layout.entries|) && end == block.offsets[j]
      modifies this
      ensures At(i) && another == (i + 1 < j)
      ensures another ==> Ready(block, State(), i + 1)
    {
      var more := ParseNextKey(i);
      if i < j {
        OffsetsRise(block, i + 1, j);
        ReadyAfter(block, State(), i);
      }
      another := more && valueEnd < end;
    }

    /** Parses on from entry `i` until the entry that ends at `end`, the start of entry `j`, if there is one. */
    method ParseUpTo(ghost i: nat, end: nat, ghost j: nat)
      requires OfBlock() && !corrupt && Ready(block, State(), i)
      requires i <= j <= |layout.entries| && (i < j || j == |layout.entries|) && end == block.offsets[j]
      modifies this
      ensures At(if i < j then j - 1 else j)
    {
      ghost var k := i;
      var another := ParseOne(k, end, j);
      while another
        invariant At(k) && another == (k + 1 < j) && (if i < j then k < j else k == j)
        invariant another ==> Ready(block, State(), k + 1)
        decreases j - k
      {
        k := k + 1;
        another := ParseOne(k, end, j);
      }
    }

    method SeekToLast()
      requires OfBlock() && !corrupt
      modifies this
      ensures At(if layout.entries == [] then 0 else |layout.entries| - 1)
    {
      StartsRise(block, 0, |layout.starts| - 1);
      SeekToRestartPoint(numRestarts - 1);
      ParseUpTo(layout.starts[numRestarts - 1], restarts, |layout.entries|);
    }

    /** Scans back to a restart point before the entry, and forward again to the entry before it. */
    method Prev(ghost i: nat)
      requires At(i) && i < |layout.entries|
      modifies this
      ensures At(if i == 0 then |layout.entries| else i - 1)
    {
      var original := current;
      var index := RestartBefore(contents, restarts, restartIndex, original, block, i);
      if index.None? {
        current, restartIndex := restarts, numRestarts;
        return;
      }
      SeekToRestartPoint(index.value);
      ParseUpTo(layout.starts[index.value], original, i);
    }

    /** The linear search from an entry on. */
    method ScanTo(target: Key, ghost from: nat) returns (ghost i: nat)
      requires OfBlock() && !corrupt && Ready(block, State(), from)
      modifies this
      ensures At(i) && from <= i && (i < |layout.entries| ==> !less(layout.entries[i].key, target))
      ensures from < i ==> less(layout.entries[i - 1].key, target)
    {
      i := from;
      var more := ParseNextKey(i);
      while more && less(key, target)
        invariant At(i) && more == (i < |layout.entries|) && from <= i
        invariant from < i ==> less(layout.entries[i - 1].key, target)
        decreases |layout.entries| - i
      {
        ReadyAfter(block, State(), i);
        i := i + 1;
        more := ParseNextKey(i);
      }
    }

    /** Lands on the first entry with a key that is not before the target. */
    method Seek(target: Key) returns (ghost i: nat)
      requires OfBlock() && !corrupt && StrictOrder(less) && Ascending(less, layout.entries)
      modifies this
      ensures At(i) && IsSeekPos(less, layout.entries, target, i)
    {
      var left := SearchRestarts(contents, restarts, numRestarts, less, target, block);
      SeekToRestartPoint(left);
      i := ScanTo(target, layout.starts[left]);
      FoundBehind(block, less, target, left, i);
    }
  }

  /** Nothing before the restart point has a key as large as the target, so the first entry from there on that
      has one is the first of all. */
  lemma FoundBehind(b: Shape, less: Order, target: Key, left: nat, i: nat)
    requires Sound(b) && StrictOrder(less) && Ascending(less, b.layout.entries) && Bracket(b, less, target, left, left)
    requires b.layout.starts[left] <= i <= |b.layout.entries|
    requires b.layout.starts[left] < i ==> less(b.layout.entries[i - 1].key, target)
    requires i < |b.layout.entries| ==> !less(b.layout.entries[i].key, target)
    ensures IsSeekPos(less, b.layout.entries, target, i)
  {
    var es, s := b.layout.entries, b.layout.starts[left];
    StartsRise(b, 0, left);
    if i > 0 && s == i {
      assert false;
    }
    SeekPosIs(less, es, target, i);
  }
}
