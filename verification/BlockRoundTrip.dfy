/** Building a block and reading it back: whatever was added comes out again, in either direction. */
module BlockRoundTrip {
  import opened Basics
  import opened BlockFormat
  import opened Coding
  import opened BlockReader
  import opened BlockIterators

  /** The state of a builder after a list of entries. */
  ghost function Built(interval: nat, es: seq<Pair>): Fields {
    if es == [] then EMPTY
    else Next(interval, Built(interval, es[..|es| - 1]), es[|es| - 1])
  }

  lemma {:induction false} BuiltEntries(interval: nat, es: seq<Pair>)
    ensures Built(interval, es).layout.entries == es
    ensures Built(interval, es).lastKey == if es == [] then [] else es[|es| - 1].key
  {
    if es != [] {
      BuiltEntries(interval, es[..|es| - 1]);
      InitAndLast(es);
    }
  }

  lemma InitAndLast(es: seq<Pair>)
    requires es != []
    ensures es[..|es| - 1] + [es[|es| - 1]] == es
  {
  }

  lemma BuiltStep(interval: nat, es: seq<Pair>, i: nat)
    requires i < |es|
    ensures Built(interval, es[..i + 1]) == Next(interval, Built(interval, es[..i]), Pair(es[i].key, es[i].value))
  {
    assert es[..i + 1][..i] == es[..i] && es[..i + 1][i] == es[i];
  }

  /** A list of entries with a block that 32-bit offsets can address. */
  ghost predicate Fits32(interval: nat, es: seq<Pair>) {
    && (forall i :: 0 <= i < |es| ==> |es[i].key| < 0x1_0000_0000 && |es[i].value| < 0x1_0000_0000)
    && BlockSize(Built(interval, es).layout) < 0x1_0000_0000
  }

  method BuildBlock(interval: nat, less: Order, es: seq<Pair>) returns (block: seq<Byte>)
    requires interval >= 1 && Ascending(less, es) && Fits32(interval, es)
    ensures IsBlock(block, Built(interval, es).layout)
  {
    var builder := new BlockBuilder(interval, less);
    var i := 0;
    while i < |es|
      invariant i <= |es| && fresh(builder) && builder.Valid() && !builder.finished
      invariant builder.restartInterval == interval && builder.less == less
      invariant builder.State() == Built(interval, es[..i])
    {
      BuiltEntries(interval, es[..i]);
      BuiltStep(interval, es, i);
      AscendingAt(less, es, i);
      builder.Add(es[i].key, es[i].value);
      i := i + 1;
    }
    assert es[..i] == es;
    BuiltEntries(interval, es);
    FinishedBlock(interval, es, builder.State());
    block := builder.Finish();
  }

  lemma AscendingAt(less: Order, es: seq<Pair>, i: nat)
    requires Ascending(less, es) && i < |es|
    ensures i > 0 ==> less(es[..i][i - 1].key, es[i].key)
    ensures es[..i] == [] <==> i == 0
  {
  }

  lemma FinishedBlock(interval: nat, es: seq<Pair>, f: Fields)
    requires Fits32(interval, es) && f == Built(interval, es) && Building(interval, f)
    ensures WellLaid(f.layout) && Small32(f.layout) && IsBlock(BlockBytes(f.layout), f.layout)
  {
    assert Opened(f) && Builds(interval, f);
    BuiltEntries(interval, es);
    assert HasBytes(BlockBytes(f.layout), f.layout);
  }

  /** The entry an iterator stands at. */
  method Current(iter: BlockIter, ghost i: nat) returns (e: Pair)
    requires iter.At(i) && i < |iter.layout.entries|
    ensures e == iter.layout.entries[i]
  {
    iter.Shows(i);
    e := Pair(iter.key, iter.Value());
  }

  /** SeekToFirst, and Next for as long as there is an entry. */
  method ScanForward(block: seq<Byte>, less: Order, ghost l: Layout) returns (es: seq<Pair>)
    requires IsBlock(block, l)
    ensures es == l.entries
  {
    var parts := OpenBlock(block, l);
    var iter := new BlockIter(block, parts.value.0, parts.value.1, less, l);
    iter.SeekToFirst();
    es := [];
    ghost var i, n := 0, |l.entries|;
    iter.Shows(0);
    while iter.Valid()
      invariant fresh(iter) && iter.layout == l && 0 <= i <= n && es == l.entries[..i]
      invariant iter.At(i) && (iter.Valid() <==> i < n)
      decreases n - i
    {
      SliceTo(l.entries, i);
      var e := Current(iter, i);
      iter.Next(i);
      es := es + [e];
      i := i + 1;
      iter.Shows(i);
    }
  }

  lemma SliceTo<T>(s: seq<T>, i: nat)
    requires i < |s|
    ensures s[..i] + [s[i]] == s[..i + 1]
  {
  }

  /** SeekToLast, and Prev for as long as there is an entry. */
  method ScanBackward(block: seq<Byte>, less: Order, ghost l: Layout) returns (es: seq<Pair>)
    requires IsBlock(block, l)
    ensures es == l.entries
  {
    var parts := OpenBlock(block, l);
    var iter := new BlockIter(block, parts.value.0, parts.value.1, less, l);
    iter.SeekToLast();
    es := [];
    ghost var n := |l.entries|;
    ghost var left: nat, here: nat := n, if n == 0 then 0 else n - 1;
    iter.Shows(here);
    while iter.Valid()
      invariant fresh(iter) && iter.layout == l && left <= n && es == l.entries[left..]
      invariant iter.At(here) && (iter.Valid() <==> left > 0) && (left > 0 ==> here == left - 1)
      decreases left
    {
      left := here;
      SliceFrom(l.entries, left);
      var e := Current(iter, left);
      iter.Prev(left);
      es := [e] + es;
      here := if left == 0 then n else left - 1;
      iter.Shows(here);
    }
  }

  lemma SliceFrom<T>(s: seq<T>, i: nat)
    requires i < |s|
    ensures [s[i]] + s[i + 1..] == s[i..]
  {
  }

  /** A block holds the list it was built from, and a seek in it finds the first key that is large enough. */
  method BuildAndRead(interval: nat, less: Order, es: seq<Pair>, target: Key)
    returns (forward: seq<Pair>, backward: seq<Pair>, found: Option<Pair>)
    requires interval >= 1 && StrictOrder(less) && Ascending(less, es) && Fits32(interval, es)
    ensures forward == es && backward == es
    ensures found.Some? ==> found.value in es && !less(found.value.key, target)
    ensures forall e :: e in es && !less(e.key, target) ==> found.Some? && !less(e.key, found.value.key)
  {
    var block := BuildBlock(interval, less, es);
    ghost var l := Built(interval, es).layout;
    BuiltEntries(interval, es);
    forward := ScanForward(block, less, l);
    backward := ScanBackward(block, less, l);
    var parts := OpenBlock(block, l);
    var iter := new BlockIter(block, parts.value.0, parts.value.1, less, l);
    ghost var i := iter.Seek(target);
    iter.Shows(i);
    found := if iter.Valid() then Some(Pair(iter.key, iter.Value())) else None;
    forall e | e in es && !less(e.key, target) ensures found.Some? && !less(e.key, found.value.key) {
      var j :| 0 <= j < |es| && es[j] == e;
      assert i <= j;
    }
  }
}
