/** The merging iterator over n sorted children (table/merger.cc) is a cursor on their sorted union. */
module Merging {
  import opened Basics
  import opened InternalKeys
  import opened Cursors

  datatype Direction = Forward | Reverse

  /** `merged` is the sorted union of the children, whose keys are pairwise distinct. */
  ghost predicate SortedUnion(children: seq<seq<Entry>>, merged: seq<Entry>) {
    && SortedKeys(merged)
    && (forall i :: 0 <= i < |children| ==> SortedKeys(children[i]))
    && (forall e :: e in merged ==> exists i :: 0 <= i < |children| && e in children[i])
    && (forall i, e :: 0 <= i < |children| && e in children[i] ==> e in merged)
    && (forall i, j :: 0 <= i < j < |children| ==> KeysApart(children[i], children[j]))
  }

  ghost predicate KeysApart(a: seq<Entry>, b: seq<Entry>) {
    forall x, y :: x in a && y in b ==> Less(x.key, y.key) || Less(y.key, x.key)
  }

  /** Where an entry stands in the union. */
  ghost function Rank(merged: seq<Entry>, e: Entry): nat {
    SeekPos(merged, e.key)
  }

  /** Child entries before `p`, and no others, are among the first `at` entries of the union. */
  ghost predicate Cut(child: seq<Entry>, p: nat, merged: seq<Entry>, at: nat) {
    p <= |child| && forall j :: 0 <= j < |child| ==> (j < p <==> Rank(merged, child[j]) < at)
  }

  /** The last child entry among the first `at` entries of the union; the child is not valid if none is. */
  ghost predicate JustBefore(child: seq<Entry>, p: nat, merged: seq<Entry>, at: nat) {
    if p < |child| then Cut(child, p + 1, merged, at) else p == |child| && Cut(child, 0, merged, at)
  }

  class MergingIterator {
    const children: seq<seq<Entry>>
    var pos: seq<nat>
    var current: Option<nat>
    var direction: Direction
    ghost const merged: seq<Entry>
    /** The position in the union this iterator stands for. */
    ghost var at: nat

    ghost predicate Shape()
      reads this
    {
      && SortedUnion(children, merged)
      && |pos| == |children| && (forall i :: 0 <= i < |pos| ==> pos[i] <= |children[i]|)
      && at <= |merged|
      && (current.Some? ==> current.value < |children|)
    }

    /** What users of the iterator rely on; how its children stand is only looked into for opened children. */
    ghost predicate Valid()
      reads this
    {
      && at <= |merged| && SortedKeys(merged) && (current.None? <==> at == |merged|)
      && forall x: seq<seq<Entry>> {:trigger Opened(x)} :: Opened(x) && x == children ==> InPlace()
    }

    /** The current child is at the entry of the union; moving forward the other children stand after it,
        moving backward before it. */
    ghost predicate InPlace()
      reads this
    {
      && Shape()
      && (current.None? <==> at == |merged|)
      && (current.Some? ==> AtCurrent())
    }

    predicate HasCurrent()
      reads this
    {
      current.Some?
    }

    ghost predicate AtCurrent()
      reads this
      requires Shape() && current.Some?
    {
      && at < |merged| && pos[current.value] < |children[current.value]|
      && children[current.value][pos[current.value]] == merged[at]
      && (direction == Forward ==> Ahead(at))
      && (direction == Reverse ==> OthersBehind(at))
    }

    ghost predicate Ahead(target: nat)
      reads this
      requires |pos| == |children|
    {
      forall i :: 0 <= i < |children| ==> Cut(children[i], pos[i], merged, target)
    }

    ghost predicate Behind(target: nat)
      reads this
      requires |pos| == |children|
    {
      forall i :: 0 <= i < |children| ==> JustBefore(children[i], pos[i], merged, target)
    }

    ghost predicate OthersBehind(target: nat)
      reads this
      requires |pos| == |children| && current.Some?
    {
      forall i :: 0 <= i < |children| && i != current.value ==> JustBefore(children[i], pos[i], merged, target)
    }

    function Current(): (e: Entry)
      requires Valid() && current.Some?
      reads this
      ensures e == merged[at]
    {
      assert Opened(children) && InPlace();
      children[current.value][pos[current.value]]
    }

    constructor (children: seq<seq<Entry>>, ghost merged: seq<Entry>)
      requires SortedUnion(children, merged)
      ensures Valid() && this.children == children && this.merged == merged && at == |merged|
    {
      this.children, this.merged := children, merged;
      pos := seq(|children|, i requires 0 <= i < |children| => |children[i]|);
      current, direction := None, Forward;
      at := |merged|;
    }

    /** The child with the smallest key becomes current. */
    method FindSmallest(ghost target: nat)
      requires Shape() && target <= |merged| && Ahead(target)
      modifies this`current, this`at
      ensures Shape() && Ahead(at) && at == target
      ensures current.None? <==> at == |merged|
      ensures current.Some? ==>
        pos[current.value] < |children[current.value]| && children[current.value][pos[current.value]] == merged[at]
    {
      var smallest: Option<nat> := None;
      for i := 0 to |children|
        invariant smallest.Some? ==> smallest.value < i && pos[smallest.value] < |children[smallest.value]|
        invariant forall j :: 0 <= j < i && pos[j] < |children[j]| ==>
          smallest.Some? && !Less(children[j][pos[j]].key, children[smallest.value][pos[smallest.value]].key)
      {
        if pos[i] < |children[i]| {
          if smallest.None? || Less(children[i][pos[i]].key, children[smallest.value][pos[smallest.value]].key) {
            smallest := Some(i);
          }
        }
      }
      SmallestIsNext(children, merged, pos, target, smallest);
      current := smallest;
      at := target;
    }

    /** The child with the largest key becomes current. */
    method FindLargest(ghost target: nat)
      requires Shape() && target <= |merged| && Behind(target)
      modifies this`current, this`at
      ensures Shape() && (target == 0 ==> current.None? && at == |merged|)
      ensures target > 0 ==> current.Some? && at == target - 1 && OthersBehind(at)
      ensures target > 0 ==>
        pos[current.value] < |children[current.value]| && children[current.value][pos[current.value]] == merged[at]
    {
      var largest: Option<nat> := None;
      var i: nat := |children|;
      while i > 0
        invariant i <= |children|
        invariant largest.Some? ==> i <= largest.value < |children| && pos[largest.value] < |children[largest.value]|
        invariant forall j :: i <= j < |children| && pos[j] < |children[j]| ==>
          largest.Some? && !Less(children[largest.value][pos[largest.value]].key, children[j][pos[j]].key)
      {
        i := i - 1;
        if pos[i] < |children[i]| {
          if largest.None? || Less(children[largest.value][pos[largest.value]].key, children[i][pos[i]].key) {
            largest := Some(i);
          }
        }
      }
      LargestIsPrevious(children, merged, pos, target, largest);
      current := largest;
      at := if target == 0 then |merged| else target - 1;
      if target > 0 {
        OthersStayBehind(children, merged, pos, target, current.value);
      }
    }

    method SeekToFirst()
      requires Valid()
      modifies this
      ensures Valid() && at == 0
    {
      assert Opened(children) && InPlace();
      for i := 0 to |children|
        invariant Shape() && forall j :: 0 <= j < i ==> pos[j] == 0
      {
        pos := pos[i := 0];
      }
      forall j | 0 <= j < |children| ensures Cut(children[j], pos[j], merged, 0) {
        CutAtEnds(children, merged, j);
      }
      FindSmallest(0);
      direction := Forward;
    }

    method SeekToLast()
      requires Valid()
      modifies this
      ensures Valid() && at == LastPos(merged)
    {
      assert Opened(children) && InPlace();
      for i := 0 to |children|
        invariant Shape() && forall j :: 0 <= j < i ==> pos[j] == LastPos(children[j])
      {
        pos := pos[i := LastPos(children[i])];
      }
      forall j | 0 <= j < |children| ensures JustBefore(children[j], pos[j], merged, |merged|) {
        CutAtEnds(children, merged, j);
      }
      FindLargest(|merged|);
      direction := Reverse;
    }

    method Seek(target: InternalKey)
      requires Valid()
      modifies this
      ensures Valid() && at == SeekPos(merged, target)
    {
      assert Opened(children) && InPlace();
      for i := 0 to |children|
        invariant Shape() && forall j :: 0 <= j < i ==> pos[j] == SeekPos(children[j], target)
      {
        pos := pos[i := SeekPos(children[i], target)];
      }
      forall j | 0 <= j < |children| ensures Cut(children[j], pos[j], merged, SeekPos(merged, target)) {
        SeekIsCut(children, merged, j, target);
      }
      FindSmallest(SeekPos(merged, target));
      direction := Forward;
    }

    /** One entry on, also when the iterator was moving backward. */
    method Next()
      requires Valid() && at < |merged|
      modifies this
      ensures Valid() && at == old(at) + 1
    {
      assert Opened(children) && InPlace();
      var c := current.value;
      ghost var start := at;
      if direction != Forward {
        RepositionAfter(c);
        direction := Forward;
      }
      CurrentIsCut(children, merged, c, pos[c], start);
      forall i | 0 <= i < |children| && i != c ensures Cut(children[i], pos[i], merged, start + 1) {
        OtherCutStays(children, merged, i, pos[i], c, pos[c], start);
      }
      pos := pos[c := pos[c] + 1];
      FindSmallest(start + 1);
    }

    /** The children other than the current one go to their first entry after its key. */
    method RepositionAfter(c: nat)
      requires Shape() && current == Some(c) && at < |merged| && pos[c] < |children[c]|
      requires children[c][pos[c]] == merged[at]
      modifies this`pos
      ensures Shape() && pos[c] == old(pos[c])
      ensures forall i :: 0 <= i < |children| && i != c ==> Cut(children[i], pos[i], merged, at)
    {
      var key := children[c][pos[c]].key;
      for i := 0 to |children|
        invariant Shape() && pos[c] == old(pos[c])
        invariant forall j :: 0 <= j < i && j != c ==> Cut(children[j], pos[j], merged, at)
      {
        if i != c {
          SeekIsCut(children, merged, i, key);
          RankOfUnion(merged, at);
          var p := SeekPos(children[i], key);
          if p < |children[i]| {
            SameRank(children, merged, i, p, c, pos[c]);
            if children[i][p].key == key {
              p := p + 1;
            }
          }
          pos := pos[i := p];
        }
      }
    }

    /** One entry back, also when the iterator was moving forward. */
    method Prev()
      requires Valid() && at < |merged|
      modifies this
      ensures Valid() && at == PrevPos(merged, old(at))
    {
      assert Opened(children) && InPlace();
      var c := current.value;
      ghost var start := at;
      if direction != Reverse {
        RepositionBefore(c);
        direction := Reverse;
      }
      CurrentIsCut(children, merged, c, pos[c], start);
      pos := pos[c := PrevPos(children[c], pos[c])];
      FindLargest(start);
    }

    /** The children other than the current one go to their last entry before its key. */
    method RepositionBefore(c: nat)
      requires Shape() && current == Some(c) && at < |merged| && pos[c] < |children[c]|
      requires children[c][pos[c]] == merged[at]
      modifies this`pos
      ensures Shape() && pos[c] == old(pos[c])
      ensures OthersBehind(at)
    {
      var key := children[c][pos[c]].key;
      for i := 0 to |children|
        invariant Shape() && pos[c] == old(pos[c])
        invariant forall j :: 0 <= j < i && j != c ==> JustBefore(children[j], pos[j], merged, at)
      {
        if i != c {
          SeekIsCut(children, merged, i, key);
          RankOfUnion(merged, at);
          var p := SeekPos(children[i], key);
          if p < |children[i]| {
            pos := pos[i := PrevPos(children[i], p)];
          } else {
            pos := pos[i := LastPos(children[i])];
          }
        }
      }
    }
  }

  // ---- facts about the union ----

  lemma UnionOrder(merged: seq<Entry>, m: nat, n: nat)
    requires SortedKeys(merged) && m < |merged| && n < |merged|
    ensures Less(merged[m].key, merged[n].key) <==> m < n
  {
  }

  lemma RankOfUnion(merged: seq<Entry>, m: nat)
    requires SortedKeys(merged) && m < |merged|
    ensures Rank(merged, merged[m]) == m
  {
    SeekSplits(merged, merged[m].key);
    SplitIsUnique(merged, m, SeekPos(merged, merged[m].key), merged[m].key);
  }

  lemma RankOfChild(children: seq<seq<Entry>>, merged: seq<Entry>, i: nat, j: nat)
    requires SortedUnion(children, merged) && i < |children| && j < |children[i]|
    ensures var m := Rank(merged, children[i][j]); m < |merged| && merged[m] == children[i][j]
  {
    assert children[i][j] in children[i] && children[i][j] in merged;
    var m :| 0 <= m < |merged| && merged[m] == children[i][j];
    RankOfUnion(merged, m);
  }

  /** Two positions have the same rank only if they are the same position. */
  lemma SameRank(children: seq<seq<Entry>>, merged: seq<Entry>, i: nat, j: nat, i': nat, j': nat)
    requires SortedUnion(children, merged) && i < |children| && j < |children[i]| && i' < |children|
    requires j' < |children[i']|
    ensures Rank(merged, children[i][j]) == Rank(merged, children[i'][j']) <==> i == i' && j == j'
  {
    RankOfChild(children, merged, i, j);
    RankOfChild(children, merged, i', j');
    assert children[i][j] in children[i] && children[i'][j'] in children[i'];
    if i != i' {
      assert KeysApart(children[if i < i' then i else i'], children[if i < i' then i' else i]);
    } else if j != j' {
      assert Less(children[i][if j < j' then j else j'].key, children[i][if j < j' then j' else j].key);
    }
  }

  lemma RankKeepsOrder(children: seq<seq<Entry>>, merged: seq<Entry>, i: nat, j: nat, j': nat)
    requires SortedUnion(children, merged) && i < |children| && j < j' < |children[i]|
    ensures Rank(merged, children[i][j]) < Rank(merged, children[i][j'])
  {
    RankOfChild(children, merged, i, j);
    RankOfChild(children, merged, i, j');
    assert Less(children[i][j].key, children[i][j'].key);
    SameRank(children, merged, i, j, i, j');
  }

  lemma CurrentIsCut(children: seq<seq<Entry>>, merged: seq<Entry>, c: nat, p: nat, at: nat)
    requires SortedUnion(children, merged) && c < |children| && p < |children[c]| && at < |merged|
    requires children[c][p] == merged[at]
    ensures Cut(children[c], p, merged, at) && Cut(children[c], p + 1, merged, at + 1)
  {
    RankOfUnion(merged, at);
    forall j | 0 <= j < |children[c]|
      ensures j < p <==> Rank(merged, children[c][j]) < at
      ensures j < p + 1 <==> Rank(merged, children[c][j]) < at + 1
    {
      if j < p {
        RankKeepsOrder(children, merged, c, j, p);
      } else if p < j {
        RankKeepsOrder(children, merged, c, p, j);
      }
    }
  }

  lemma CutIsUnique(child: seq<Entry>, p: nat, q: nat, merged: seq<Entry>, at: nat)
    requires Cut(child, p, merged, at) && Cut(child, q, merged, at)
    ensures p == q
  {
    var j := if p < q then p else q;
    if j < |child| {
      var rank := Rank(merged, child[j]);
    }
  }

  /** An entry of the union and the child position it comes from. */
  lemma Owner(children: seq<seq<Entry>>, merged: seq<Entry>, at: nat) returns (owner: nat, p: nat)
    requires SortedUnion(children, merged) && at < |merged|
    ensures owner < |children| && p < |children[owner]| && children[owner][p] == merged[at]
    ensures Cut(children[owner], p, merged, at) && Cut(children[owner], p + 1, merged, at + 1)
  {
    assert merged[at] in merged;
    owner :| 0 <= owner < |children| && merged[at] in children[owner];
    p :| 0 <= p < |children[owner]| && children[owner][p] == merged[at];
    CurrentIsCut(children, merged, owner, p, at);
  }

  /** The smallest of the children that stand at their cuts holds the next entry of the union. */
  lemma SmallestIsNext(children: seq<seq<Entry>>, merged: seq<Entry>, pos: seq<nat>, at: nat, current: Option<nat>)
    requires SortedUnion(children, merged) && |pos| == |children| && at <= |merged|
    requires forall i :: 0 <= i < |children| ==> Cut(children[i], pos[i], merged, at)
    requires current.Some? ==> current.value < |children| && pos[current.value] < |children[current.value]|
    requires forall j :: 0 <= j < |children| && pos[j] < |children[j]| ==>
      current.Some? && !Less(children[j][pos[j]].key, children[current.value][pos[current.value]].key)
    ensures current.None? <==> at == |merged|
    ensures current.Some? ==> children[current.value][pos[current.value]] == merged[at]
  {
    if at < |merged| {
      var owner, p := Owner(children, merged, at);
      CutIsUnique(children[owner], pos[owner], p, merged, at);
    }
    if current.Some? {
      var c := current.value;
      RankOfChild(children, merged, c, pos[c]);
      var m := Rank(merged, children[c][pos[c]]);
      UnionOrder(merged, at, m);
    }
  }

  /** The largest of the children that stand before `target` holds the entry before it. */
  lemma LargestIsPrevious(children: seq<seq<Entry>>, merged: seq<Entry>, pos: seq<nat>, target: nat,
                          current: Option<nat>)
    requires SortedUnion(children, merged) && |pos| == |children| && target <= |merged|
    requires forall i :: 0 <= i < |children| ==> JustBefore(children[i], pos[i], merged, target)
    requires current.Some? ==> current.value < |children| && pos[current.value] < |children[current.value]|
    requires forall j :: 0 <= j < |children| && pos[j] < |children[j]| ==>
      current.Some? && !Less(children[current.value][pos[current.value]].key, children[j][pos[j]].key)
    ensures current.None? <==> target == 0
    ensures current.Some? ==> children[current.value][pos[current.value]] == merged[target - 1]
  {
    if target > 0 {
      var owner, p := Owner(children, merged, target - 1);
      var q := if pos[owner] < |children[owner]| then pos[owner] + 1 else 0;
      CutIsUnique(children[owner], q, p + 1, merged, target);
    }
    if current.Some? {
      var c := current.value;
      RankOfChild(children, merged, c, pos[c]);
      var m := Rank(merged, children[c][pos[c]]);
      UnionOrder(merged, m, target - 1);
    }
  }

  /** Seeking every child to a target cuts them all where the union is cut. */
  lemma SeekIsCut(children: seq<seq<Entry>>, merged: seq<Entry>, i: nat, target: InternalKey)
    requires SortedUnion(children, merged) && i < |children|
    ensures Cut(children[i], SeekPos(children[i], target), merged, SeekPos(merged, target))
  {
    SeekSplits(children[i], target);
    SeekSplits(merged, target);
    forall j | 0 <= j < |children[i]|
      ensures j < SeekPos(children[i], target) <==> Rank(merged, children[i][j]) < SeekPos(merged, target)
    {
      RankOfChild(children, merged, i, j);
    }
  }

  lemma CutAtEnds(children: seq<seq<Entry>>, merged: seq<Entry>, i: nat)
    requires SortedUnion(children, merged) && i < |children|
    ensures Cut(children[i], 0, merged, 0) && Cut(children[i], |children[i]|, merged, |merged|)
  {
    forall j | 0 <= j < |children[i]|
      ensures Rank(merged, children[i][j]) < |merged|
    {
      RankOfChild(children, merged, i, j);
    }
  }

  /** The cut of a child moves only past an entry of its own. */
  lemma OtherCutStays(children: seq<seq<Entry>>, merged: seq<Entry>, i: nat, p: nat, c: nat, q: nat, at: nat)
    requires SortedUnion(children, merged) && i < |children| && c < |children| && i != c
    requires q < |children[c]| && at < |merged| && children[c][q] == merged[at]
    ensures Cut(children[i], p, merged, at) <==> Cut(children[i], p, merged, at + 1)
  {
    RankOfUnion(merged, at);
    forall j | 0 <= j < |children[i]|
      ensures Rank(merged, children[i][j]) != at
    {
      SameRank(children, merged, i, j, c, q);
    }
  }

  lemma OthersStayBehind(children: seq<seq<Entry>>, merged: seq<Entry>, pos: seq<nat>, target: nat, c: nat)
    requires SortedUnion(children, merged) && |pos| == |children| && 0 < target <= |merged|
    requires forall i :: 0 <= i < |children| ==> JustBefore(children[i], pos[i], merged, target)
    requires c < |children| && pos[c] < |children[c]| && children[c][pos[c]] == merged[target - 1]
    ensures forall i :: 0 <= i < |children| && i != c ==> JustBefore(children[i], pos[i], merged, target - 1)
  {
    forall i | 0 <= i < |children| && i != c ensures JustBefore(children[i], pos[i], merged, target - 1) {
      OtherCutStays(children, merged, i, if pos[i] < |children[i]| then pos[i] + 1 else 0, c, pos[c], target - 1);
    }
  }
}
