/** The index of a table while the table grows: every index key lies between the keys of its block, and of those
    before it, and the keys that follow (table/table_builder.cc with db/dbformat.cc). */
module Division {
  import opened Basics
  import opened Flattening
  import opened BlockFormat
  import opened Coding
  import opened Separators
  import opened Tables
  import opened TableGet

  ghost predicate Divides(whole: seq<seq<Pair>>, b: nat, key: Key)
    requires b < |whole|
  {
    && |key| >= 8
    && (forall c, i :: 0 <= c <= b && 0 <= i < |whole[c]| ==> NotAfter(InternalLess, whole[c][i].key, key))
    && (forall c, i :: b < c < |whole| && 0 <= i < |whole[c]| ==> InternalLess(key, whole[c][i].key))
    && (EndsWith(whole[b], key) || UsersBehind(whole, b, key))
  }

  ghost predicate Growing(whole: seq<seq<Pair>>) {
    && (forall b :: 0 <= b < |whole| ==> whole[b] != [])
    && (forall b, i :: 0 <= b < |whole| && 0 <= i < |whole[b]| ==> |whole[b][i].key| >= 8)
    && Ascending(InternalLess, Flatten(whole))
  }

  ghost predicate Divided(index: seq<Pair>, whole: seq<seq<Pair>>) {
    && |index| <= |whole|
    && forall b :: 0 <= b < |index| ==> Divides(whole, b, index[b].key)
  }

  // ---- one more entry ----

  /** The entry starts a block of its own, or goes to the end of the last block. */
  function WithEntry(whole: seq<seq<Pair>>, e: Pair, starts: bool): (more: seq<seq<Pair>>)
    requires starts || whole != []
    ensures |more| == if starts then |whole| + 1 else |whole|
  {
    if starts then whole + [[e]] else whole[..|whole| - 1] + [whole[|whole| - 1] + [e]]
  }

  function LastKey(whole: seq<seq<Pair>>): Key {
    if whole == [] || whole[|whole| - 1] == [] then [] else
      var last := whole[|whole| - 1];
      last[|last| - 1].key
  }

  lemma WithEntryFlat(whole: seq<seq<Pair>>, e: Pair, starts: bool)
    requires starts || whole != []
    ensures Flatten(WithEntry(whole, e, starts)) == Flatten(whole) + [e]
  {
    if starts {
      FlattenOneMore(whole, [e]);
    } else {
      var init, last := whole[..|whole| - 1], whole[|whole| - 1];
      FlattenOneMore(init, last + [e]);
      FlattenOneMore(init, last);
      assert whole == init + [last];
    }
  }

  lemma AscendingMore(less: Order, es: seq<Pair>, e: Pair)
    requires StrictOrder(less) && Ascending(less, es) && (es != [] ==> less(es[|es| - 1].key, e.key))
    ensures Ascending(less, es + [e])
  {
    forall i | 0 <= i < |es| ensures less(es[i].key, e.key) {
      if i < |es| - 1 {
        assert less(es[i].key, es[|es| - 1].key);
      }
    }
  }

  lemma LastIsLast(whole: seq<seq<Pair>>)
    requires whole != [] && whole[|whole| - 1] != []
    ensures Flatten(whole) != [] && Flatten(whole)[|Flatten(whole)| - 1].key == LastKey(whole)
  {
    var n := |whole| - 1;
    ElementAt(whole, n, |whole[n]| - 1);
    NextStart(whole, n);
  }

  /** No key of the whole is after its last one. */
  lemma NotAfterLast(whole: seq<seq<Pair>>, c: nat, i: nat)
    requires Growing(whole) && c < |whole| && i < |whole[c]|
    ensures NotAfter(InternalLess, whole[c][i].key, LastKey(whole))
  {
    LastIsLast(whole);
    ElementAt(whole, c, i);
    var g := StartOf(whole, c) + i;
    if g < |Flatten(whole)| - 1 {
      assert InternalLess(Flatten(whole)[g].key, Flatten(whole)[|Flatten(whole)| - 1].key);
    }
  }

  lemma StillGrowing(whole: seq<seq<Pair>>, e: Pair, starts: bool)
    requires Growing(whole) && (starts || whole != []) && |e.key| >= 8
    requires whole != [] ==> InternalLess(LastKey(whole), e.key)
    ensures Growing(WithEntry(whole, e, starts))
  {
    InternalOrder();
    WithEntryFlat(whole, e, starts);
    if whole != [] {
      LastIsLast(whole);
    }
    AscendingMore(InternalLess, Flatten(whole), e);
  }

  lemma UsersAscend(a: Key, b: Key, c: Key)
    requires BytesLess(UserOf(a), UserOf(b)) && InternalLess(b, c)
    ensures BytesLess(UserOf(a), UserOf(c))
  {
    if UserOf(b) != UserOf(c) {
      BytesTransitive(UserOf(a), UserOf(b), UserOf(c));
    }
  }

  lemma InternalTransitive(a: Key, b: Key, c: Key)
    requires InternalLess(a, b) && InternalLess(b, c)
    ensures InternalLess(a, c)
  {
    InternalOrder();
  }

  /** A key that comes before the entry, and by user too unless it ends its block. */
  ghost predicate LeavesRoom(whole: seq<seq<Pair>>, b: nat, key: Key, e: Pair)
    requires b < |whole|
  {
    InternalLess(key, e.key) && (EndsWith(whole[b], key) || BytesLess(UserOf(key), UserOf(e.key)))
  }

  lemma RoomBehind(whole: seq<seq<Pair>>, b: nat, key: Key, e: Pair)
    requires b < |whole| - 1 && whole[|whole| - 1] != [] && Divides(whole, b, key)
    requires InternalLess(LastKey(whole), e.key)
    ensures LeavesRoom(whole, b, key, e)
  {
    var n := |whole| - 1;
    var last := whole[n][|whole[n]| - 1].key;
    assert InternalLess(key, last);
    InternalTransitive(key, last, e.key);
    if !EndsWith(whole[b], key) {
      UserBehind(whole, b, key, n, |whole[n]| - 1);
      UsersAscend(key, last, e.key);
    }
  }

  /** Every entry is the new one or was there before. */
  lemma OldOrNew(whole: seq<seq<Pair>>, e: Pair, starts: bool, c: nat, i: nat)
    requires (starts || whole != []) && c < |WithEntry(whole, e, starts)| && i < |WithEntry(whole, e, starts)[c]|
    ensures var p := WithEntry(whole, e, starts)[c][i];
      p == e || (c < |whole| && i < |whole[c]| && p == whole[c][i])
  {
  }

  lemma BeforeAllBehind(whole: seq<seq<Pair>>, b: nat, key: Key, e: Pair, starts: bool, c: nat, i: nat)
    requires b < |whole| && Divides(whole, b, key) && LeavesRoom(whole, b, key, e)
    requires b < c < |WithEntry(whole, e, starts)| && i < |WithEntry(whole, e, starts)[c]|
    ensures InternalLess(key, WithEntry(whole, e, starts)[c][i].key)
    ensures !EndsWith(whole[b], key) ==> BytesLess(UserOf(key), UserOf(WithEntry(whole, e, starts)[c][i].key))
  {
    OldOrNew(whole, e, starts, c, i);
    if WithEntry(whole, e, starts)[c][i] != e && !EndsWith(whole[b], key) {
      UserBehind(whole, b, key, c, i);
    }
  }

  lemma StillDivides(whole: seq<seq<Pair>>, b: nat, key: Key, e: Pair, starts: bool)
    requires b < |whole| && (starts || b < |whole| - 1) && Divides(whole, b, key) && LeavesRoom(whole, b, key, e)
    ensures Divides(WithEntry(whole, e, starts), b, key)
  {
    var more := WithEntry(whole, e, starts);
    assert forall c :: 0 <= c <= b ==> more[c] == whole[c];
    forall c, i | b < c < |more| && 0 <= i < |more[c]|
      ensures InternalLess(key, more[c][i].key)
      ensures !EndsWith(whole[b], key) ==> BytesLess(UserOf(key), UserOf(more[c][i].key))
    {
      BeforeAllBehind(whole, b, key, e, starts, c, i);
    }
  }

  /** An entry behind the last one divides nothing anew; the last index key may only cover all blocks when the
      entry starts another. */
  lemma StillDivided(index: seq<Pair>, whole: seq<seq<Pair>>, e: Pair, starts: bool)
    requires Growing(whole) && Divided(index, whole) && (starts || |index| < |whole|)
    requires whole != [] ==> InternalLess(LastKey(whole), e.key)
    requires whole != [] && |index| == |whole| ==> LeavesRoom(whole, |whole| - 1, index[|whole| - 1].key, e)
    ensures Divided(index, WithEntry(whole, e, starts))
  {
    forall b | 0 <= b < |index| ensures Divides(WithEntry(whole, e, starts), b, index[b].key) {
      if b < |whole| - 1 {
        RoomBehind(whole, b, index[b].key, e);
      }
      StillDivides(whole, b, index[b].key, e, starts);
    }
  }

  // ---- one more index key ----

  /** A key at or after the last one divides the last block from nothing. */
  lemma DividesLast(whole: seq<seq<Pair>>, key: Key)
    requires Growing(whole) && whole != [] && |key| >= 8 && NotAfter(InternalLess, LastKey(whole), key)
    ensures Divides(whole, |whole| - 1, key)
  {
    forall c, i | 0 <= c < |whole| && 0 <= i < |whole[c]| ensures NotAfter(InternalLess, whole[c][i].key, key) {
      NotAfterLast(whole, c, i);
      InternalOrder();
    }
  }

  lemma DividedMore(index: seq<Pair>, whole: seq<seq<Pair>>, p: Pair)
    requires Growing(whole) && Divided(index, whole) && |index| + 1 == |whole|
    requires |p.key| >= 8 && NotAfter(InternalLess, LastKey(whole), p.key)
    ensures Divided(index + [p], whole)
    ensures index != [] ==> InternalLess(index[|index| - 1].key, p.key)
  {
    DividesLast(whole, p.key);
    if index != [] {
      var n := |whole| - 1;
      var last := whole[n][|whole[n]| - 1].key;
      assert InternalLess(index[n - 1].key, last);
      InternalOrder();
    }
  }

  lemma SeparatorFits(start: Key, limit: Key, r: Key)
    requires |start| >= 8 && |limit| >= 8 && InternalLess(start, limit)
    requires r != start ==>
      r == EarliestOf(UserOf(r)) && BytesLess(UserOf(start), UserOf(r)) && BytesLess(UserOf(r), UserOf(limit))
    ensures |r| >= 8 && NotAfter(InternalLess, start, r) && InternalLess(r, limit)
    ensures r == start || BytesLess(UserOf(r), UserOf(limit))
  {
    if r != start {
      assert |EarliestOf(UserOf(r))| >= 8;
    }
  }

  lemma SuccessorFits(key: Key, r: Key)
    requires |key| >= 8
    requires r != key ==> r == EarliestOf(UserOf(r)) && BytesLess(UserOf(key), UserOf(r))
    ensures |r| >= 8 && NotAfter(InternalLess, key, r)
  {
    if r != key {
      assert |EarliestOf(UserOf(r))| >= 8;
    }
  }

  // ---- both together ----

  /** The index keys so far, and the entries block by block. */
  datatype Split = Split(index: seq<Pair>, whole: seq<seq<Pair>>)

  /** Only looked into for opened splits. */
  ghost predicate WellSplit(d: Split) {
    forall x: Split {:trigger Opened(x)} :: Opened(x) && x == d ==> Growing(x.whole) && Divided(x.index, x.whole)
  }

  lemma EmptySplit()
    ensures WellSplit(Split([], []))
  {
  }

  lemma LastOfSplit(d: Split)
    requires WellSplit(d) && d.whole != []
    ensures d.whole[|d.whole| - 1] != [] && |LastKey(d.whole)| >= 8
  {
    assert Opened(d) && Growing(d.whole);
  }

  lemma EntryAdded(d: Split, e: Pair, starts: bool)
    requires WellSplit(d) && |e.key| >= 8 && (starts || |d.index| < |d.whole|)
    requires d.whole != [] ==> InternalLess(LastKey(d.whole), e.key)
    requires d.whole != [] && |d.index| == |d.whole| ==>
      LeavesRoom(d.whole, |d.whole| - 1, d.index[|d.whole| - 1].key, e)
    ensures WellSplit(Split(d.index, WithEntry(d.whole, e, starts)))
  {
    assert Opened(d) && Growing(d.whole) && Divided(d.index, d.whole);
    StillGrowing(d.whole, e, starts);
    StillDivided(d.index, d.whole, e, starts);
  }

  lemma KeyAdded(d: Split, p: Pair)
    requires WellSplit(d) && |d.index| + 1 == |d.whole|
    requires |p.key| >= 8 && NotAfter(InternalLess, LastKey(d.whole), p.key)
    ensures WellSplit(Split(d.index + [p], d.whole))
    ensures d.index != [] ==> InternalLess(d.index[|d.index| - 1].key, p.key)
    ensures LastKey(d.whole) == p.key ==> EndsWith(d.whole[|d.whole| - 1], p.key)
  {
    assert Opened(d) && Growing(d.whole) && Divided(d.index, d.whole);
    DividedMore(d.index, d.whole, p);
  }

  // ---- a finished table ----

  lemma IndexAscends(index: seq<Pair>, whole: seq<seq<Pair>>)
    requires Growing(whole) && Divided(index, whole)
    ensures Ascending(InternalLess, index)
  {
    forall a, b | 0 <= a < b < |index| ensures InternalLess(index[a].key, index[b].key) {
      var between := whole[b][0].key;
      assert InternalLess(index[a].key, between) && NotAfter(InternalLess, between, index[b].key);
      InternalOrder();
    }
  }

  lemma PartAscends(whole: seq<seq<Pair>>, b: nat)
    requires Growing(whole) && b < |whole|
    ensures Ascending(InternalLess, whole[b])
  {
    forall i, j | 0 <= i < j < |whole[b]| ensures InternalLess(whole[b][i].key, whole[b][j].key) {
      ElementAt(whole, b, i);
      ElementAt(whole, b, j);
    }
  }

  lemma DividedIsSearchable(t: Table)
    requires |t.index.entries| == |t.blocks| && WellSplit(Split(t.index.entries, Parts(t)))
    ensures Searchable(t)
  {
    var index, parts := t.index.entries, Parts(t);
    assert Opened(Split(index, parts)) && Growing(parts) && Divided(index, parts);
    IndexAscends(index, parts);
    forall b | 0 <= b < |parts|
      ensures Ascending(InternalLess, parts[b]) && Divides(parts, b, index[b].key)
    {
      PartAscends(parts, b);
    }
    assert Separated(InternalLess, index, parts);
    assert UsersApart(index, parts);
    assert WellIndexed(t);
  }
}
