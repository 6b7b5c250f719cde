/** The skip list behind a memtable (db/skiplist.h): one inserter, and readers that take no lock.

  Nodes are named by their index in the arena, the head being node 0. Keys are totally ordered and
  countably many, so they are taken to be real numbers.
 */
module SkipLists {
  import opened Basics

  const MAX_HEIGHT: nat := 12

  type Key = real

  /** A node and its next pointer for every level below its height. */
  datatype Node = Node(key: Key, next: seq<Option<nat>>)

  /** Node `z` comes after node `x`; the head comes before all. */
  predicate After(nodes: seq<Node>, x: nat, z: nat)
    requires x < |nodes| && z < |nodes|
  {
    x == 0 || nodes[x].key < nodes[z].key
  }

  /** `y` is the first node of a level after `x`. */
  ghost predicate NextIs(nodes: seq<Node>, level: set<nat>, x: nat, y: Option<nat>)
    requires x < |nodes| && forall z :: z in level ==> z < |nodes|
  {
    match y
    case None => forall z :: z in level ==> !After(nodes, x, z)
    case Some(n) => n in level && After(nodes, x, n) && forall z :: z in level && After(nodes, x, z) ==>
      nodes[n].key <= nodes[z].key
  }

  ghost predicate OnLevel(levels: seq<set<nat>>, l: nat, x: nat) {
    l < |levels| && (x == 0 || x in levels[l])
  }

  ghost predicate InArena(nodes: seq<Node>, levels: seq<set<nat>>) {
    && |levels| == MAX_HEIGHT && nodes != []
    && forall l, x :: 0 <= l < MAX_HEIGHT && x in levels[l] ==> 0 < x < |nodes|
  }

  /** Every level is a sorted list of the nodes on it, linked by the next pointers from the head on. */
  ghost predicate Linked(nodes: seq<Node>, levels: seq<set<nat>>) {
    && InArena(nodes, levels)
    && forall l: nat, x: nat :: OnLevel(levels, l, x) ==>
       l < |nodes[x].next| && NextIs(nodes, levels[l], x, nodes[x].next[l])
  }

  ghost predicate Within(levels: seq<set<nat>>, l: int) {
    0 < l < |levels| && levels[l] <= levels[l - 1]
  }

  /** Every level is part of the level below, and keys are distinct. */
  ghost predicate Nested(nodes: seq<Node>, levels: seq<set<nat>>)
    requires InArena(nodes, levels)
  {
    && (forall l :: 0 < l < MAX_HEIGHT ==> Within(levels, l))
    && (forall x, z :: x in levels[0] && z in levels[0] && nodes[x].key == nodes[z].key ==> x == z)
  }

  ghost predicate Sound(nodes: seq<Node>, levels: seq<set<nat>>) {
    Linked(nodes, levels) && Nested(nodes, levels)
  }

  lemma {:induction false} LowestLevelHasAll(nodes: seq<Node>, levels: seq<set<nat>>, l: nat)
    requires Sound(nodes, levels) && l < MAX_HEIGHT
    ensures levels[l] <= levels[0]
  {
    if l > 0 {
      assert Within(levels, l);
      LowestLevelHasAll(nodes, levels, l - 1);
    }
  }

  // ---- stores ----

  function SetNext(nodes: seq<Node>, x: nat, l: nat, y: Option<nat>): (r: seq<Node>)
    requires x < |nodes| && l < |nodes[x].next|
    ensures |r| == |nodes| && forall z :: 0 <= z < |nodes| ==>
      r[z].key == nodes[z].key && |r[z].next| == |nodes[z].next|
  {
    nodes[x := nodes[x].(next := nodes[x].next[l := y])]
  }

  /** The pointers of a node that is not on a level yet are nobody's business. */
  lemma UnpublishedStore(nodes: seq<Node>, levels: seq<set<nat>>, x: nat, l: nat, y: Option<nat>)
    requires Sound(nodes, levels) && 0 < x < |nodes| && l < MAX_HEIGHT && l < |nodes[x].next| && x !in levels[l]
    ensures Sound(SetNext(nodes, x, l, y), levels)
  {
    var after := SetNext(nodes, x, l, y);
    forall m: nat, z: nat | OnLevel(levels, m, z)
      ensures m < |after[z].next| && NextIs(after, levels[m], z, after[z].next[m])
    {
      assert NextIs(nodes, levels[m], z, nodes[z].next[m]);
      SameKeysSameNext(nodes, after, levels[m], z, nodes[z].next[m]);
    }
  }

  lemma SameKeysSameNext(nodes: seq<Node>, after: seq<Node>, level: set<nat>, x: nat, y: Option<nat>)
    requires x < |nodes| <= |after| && forall z :: z in level ==> z < |nodes|
    requires forall z :: 0 <= z < |nodes| ==> after[z].key == nodes[z].key
    ensures NextIs(after, level, x, y) <==> NextIs(nodes, level, x, y)
  {
    forall z | z in level ensures After(after, x, z) == After(nodes, x, z) {
    }
  }

  /** `p` is the last node of a level that comes before node `x`. */
  ghost predicate Precedes(nodes: seq<Node>, levels: seq<set<nat>>, l: nat, p: nat, x: nat)
    requires InArena(nodes, levels) && x < |nodes|
  {
    && OnLevel(levels, l, p) && After(nodes, p, x)
    && forall z :: z in levels[l] && After(nodes, p, z) ==> nodes[x].key < nodes[z].key
  }

  function Joined(levels: seq<set<nat>>, l: nat, x: nat): seq<set<nat>>
    requires l < |levels|
  {
    levels[l := levels[l] + {x}]
  }

  /** The one store that puts a node on a level. */
  lemma PublishingStore(nodes: seq<Node>, levels: seq<set<nat>>, p: nat, l: nat, x: nat)
    requires Sound(nodes, levels) && 0 < x < |nodes| && l < MAX_HEIGHT && l < |nodes[x].next| && x !in levels[l]
    requires Precedes(nodes, levels, l, p, x) && nodes[x].next[l] == nodes[p].next[l]
    requires if l > 0 then x in levels[l - 1] else forall z :: z in levels[0] ==> nodes[z].key != nodes[x].key
    ensures Sound(SetNext(nodes, p, l, Some(x)), Joined(levels, l, x))
  {
    var after, levels' := SetNext(nodes, p, l, Some(x)), Joined(levels, l, x);
    forall m: nat, z: nat | OnLevel(levels', m, z)
      ensures m < |after[z].next| && NextIs(after, levels'[m], z, after[z].next[m])
    {
      if m == l {
        PublishedNext(nodes, levels, p, l, x, z);
      } else {
        assert OnLevel(levels, m, z);
        SameKeysSameNext(nodes, after, levels[m], z, nodes[z].next[m]);
      }
    }
    forall m | 0 < m < MAX_HEIGHT ensures Within(levels', m) {
      assert Within(levels, m);
    }
  }

  lemma PublishedNext(nodes: seq<Node>, levels: seq<set<nat>>, p: nat, l: nat, x: nat, z: nat)
    requires Sound(nodes, levels) && 0 < x < |nodes| && l < MAX_HEIGHT && l < |nodes[x].next| && x !in levels[l]
    requires Precedes(nodes, levels, l, p, x) && nodes[x].next[l] == nodes[p].next[l]
    requires OnLevel(Joined(levels, l, x), l, z)
    ensures l < |nodes[z].next|
    ensures var after := SetNext(nodes, p, l, Some(x)); NextIs(after, levels[l] + {x}, z, after[z].next[l])
  {
    var after := SetNext(nodes, p, l, Some(x));
    assert NextIs(nodes, levels[l], p, nodes[p].next[l]);
    forall a, b | 0 <= a < |nodes| && 0 <= b < |nodes| ensures After(after, a, b) == After(nodes, a, b) {
    }
    if z == p {
      assert after[z].next[l] == Some(x);
    } else if z == x {
      assert after[z].next[l] == nodes[p].next[l];
    } else {
      assert OnLevel(levels, l, z) && after[z].next[l] == nodes[z].next[l];
      assert NextIs(nodes, levels[l], z, nodes[z].next[l]);
      LowestLevelHasAll(nodes, levels, l);
      assert z != 0 && p != 0 ==> nodes[z].key != nodes[p].key;
      assert After(nodes, z, x) ==> p != 0 && After(nodes, z, p);
    }
  }

  /** A node that no pointer leads to yet changes nothing. */
  lemma NewNode(nodes: seq<Node>, nodes': seq<Node>, levels: seq<set<nat>>)
    requires Sound(nodes, levels) && |nodes| <= |nodes'| && nodes'[..|nodes|] == nodes
    ensures Sound(nodes', levels)
  {
    forall l: nat, x: nat | OnLevel(levels, l, x)
      ensures l < |nodes'[x].next| && NextIs(nodes', levels[l], x, nodes'[x].next[l])
    {
      assert nodes'[x] == nodes[x];
      assert NextIs(nodes, levels[l], x, nodes[x].next[l]);
      SameKeysSameNext(nodes, nodes', levels[l], x, nodes[x].next[l]);
    }
    forall x, z | x in levels[0] && z in levels[0] && nodes'[x].key == nodes'[z].key ensures x == z {
      assert nodes'[x] == nodes[x] && nodes'[z] == nodes[z];
    }
  }

  /** Node `x` is on the levels below `l`; on those from `l` up to its height it belongs after `prev`. */
  ghost predicate Linking(nodes: seq<Node>, levels: seq<set<nat>>, x: nat, prev: seq<nat>, l: nat) {
    && Sound(nodes, levels) && 0 < x < |nodes| && l <= |nodes[x].next| <= |prev| && |nodes[x].next| <= MAX_HEIGHT
    && (forall m :: 0 <= m < MAX_HEIGHT ==> (x in levels[m] <==> m < l))
    && (forall m: nat :: l <= m < |nodes[x].next| ==> Precedes(nodes, levels, m, prev[m], x))
    && (forall z :: z in levels[0] && nodes[z].key == nodes[x].key ==> z == x)
  }

  function Copied(nodes: seq<Node>, levels: seq<set<nat>>, x: nat, p: nat, l: nat): seq<Node>
    requires Sound(nodes, levels) && x < |nodes| && l < |nodes[x].next| && OnLevel(levels, l, p)
  {
    SetNext(nodes, x, l, nodes[p].next[l])
  }

  /** First the new node's own pointer, ... */
  lemma CopyKeeps(nodes: seq<Node>, levels: seq<set<nat>>, x: nat, prev: seq<nat>, l: nat)
    requires Linking(nodes, levels, x, prev, l) && l < |nodes[x].next|
    ensures OnLevel(levels, l, prev[l]) && Linking(Copied(nodes, levels, x, prev[l], l), levels, x, prev, l)
  {
    assert Precedes(nodes, levels, l, prev[l], x);
    var after := Copied(nodes, levels, x, prev[l], l);
    UnpublishedStore(nodes, levels, x, l, nodes[prev[l]].next[l]);
    forall m: nat | l <= m < |after[x].next| ensures Precedes(after, levels, m, prev[m], x) {
      assert Precedes(nodes, levels, m, prev[m], x);
    }
  }

  /** ... then the one that makes it visible. */
  lemma PublishKeeps(nodes: seq<Node>, levels: seq<set<nat>>, x: nat, prev: seq<nat>, l: nat)
    requires Linking(nodes, levels, x, prev, l) && l < |nodes[x].next| && OnLevel(levels, l, prev[l])
    requires nodes[x].next[l] == nodes[prev[l]].next[l]
    ensures Linking(SetNext(nodes, prev[l], l, Some(x)), Joined(levels, l, x), x, prev, l + 1)
  {
    assert Precedes(nodes, levels, l, prev[l], x);
    PublishingStore(nodes, levels, prev[l], l, x);
    var after, levels' := SetNext(nodes, prev[l], l, Some(x)), Joined(levels, l, x);
    forall m: nat | l + 1 <= m < |after[x].next| ensures Precedes(after, levels', m, prev[m], x) {
      assert Precedes(nodes, levels, m, prev[m], x);
    }
  }

  // ---- searches, one load at a time ----

  /** A search for the first key at or after `target` has come to node `x` on a level. */
  ghost predicate Passed(nodes: seq<Node>, levels: seq<set<nat>>, target: Key, x: nat, l: nat) {
    InArena(nodes, levels) && OnLevel(levels, l, x) && (x != 0 ==> nodes[x].key < target)
  }

  /** `y` is the first node of the list with a key at or after `target`. */
  ghost predicate FirstFrom(nodes: seq<Node>, level: set<nat>, target: Key, y: Option<nat>)
    requires forall z :: z in level ==> z < |nodes|
  {
    match y
    case None => forall z :: z in level ==> nodes[z].key < target
    case Some(n) => n in level && target <= nodes[n].key && forall z :: z in level && target <= nodes[z].key ==>
      nodes[n].key <= nodes[z].key
  }

  /** `x` is the last node of the list with a key before `target`, or the head. */
  ghost predicate LastBefore(nodes: seq<Node>, level: set<nat>, target: Key, x: nat)
    requires x < |nodes| && forall z :: z in level ==> z < |nodes|
  {
    && (x == 0 || (x in level && nodes[x].key < target))
    && forall z :: z in level && nodes[z].key < target ==> x != 0 && nodes[z].key <= nodes[x].key
  }

  predicate KeyIsAfterNode(nodes: seq<Node>, target: Key, y: Option<nat>)
    requires y.Some? ==> y.value < |nodes|
  {
    y.Some? && nodes[y.value].key < target
  }

  /** Loading a next pointer either moves the search on or shows the place of `target` on this level. */
  lemma LoadedNext(nodes: seq<Node>, levels: seq<set<nat>>, target: Key, x: nat, l: nat)
    requires Sound(nodes, levels) && Passed(nodes, levels, target, x, l)
    ensures x < |nodes| && l < |nodes[x].next| && (nodes[x].next[l].Some? ==> nodes[x].next[l].value < |nodes|)
    ensures var y := nodes[x].next[l];
      if KeyIsAfterNode(nodes, target, y) then
        Passed(nodes, levels, target, y.value, l) && After(nodes, x, y.value)
      else
        FirstFrom(nodes, levels[l], target, y) && LastBefore(nodes, levels[l], target, x) &&
          (l > 0 ==> Passed(nodes, levels, target, x, l - 1))
  {
    assert NextIs(nodes, levels[l], x, nodes[x].next[l]);
    assert l > 0 ==> Within(levels, l);
  }

  /** What stores of the inserter do to the list: nodes join, nobody leaves, keys stay. */
  ghost predicate Grown(nodes: seq<Node>, levels: seq<set<nat>>, nodes': seq<Node>, levels': seq<set<nat>>) {
    && InArena(nodes, levels) && InArena(nodes', levels') && |nodes| <= |nodes'|
    && (forall z :: 0 <= z < |nodes| ==> nodes'[z].key == nodes[z].key)
    && forall l :: 0 <= l < MAX_HEIGHT ==> levels[l] <= levels'[l]
  }

  // ---- the list ----

  lemma LastIsPredecessor(nodes: seq<Node>, levels: seq<set<nat>>, l: nat, p: nat, x: nat)
    requires Sound(nodes, levels) && l < MAX_HEIGHT && 0 < x < |nodes| && p < |nodes|
    requires LastBefore(nodes, levels[l], nodes[x].key, p)
    requires forall z :: z in levels[0] ==> nodes[z].key != nodes[x].key
    ensures Precedes(nodes, levels, l, p, x)
  {
    LowestLevelHasAll(nodes, levels, l);
  }

  lemma EmptyIsSound()
    ensures Sound([Node(0.0, seq(MAX_HEIGHT, _ => None))], seq(MAX_HEIGHT, _ => {}))
  {
    var nodes, levels: seq<set<nat>> := [Node(0.0, seq(MAX_HEIGHT, _ => None))], seq(MAX_HEIGHT, _ => {});
    forall l: nat, x: nat | OnLevel(levels, l, x)
      ensures l < |nodes[x].next| && NextIs(nodes, levels[l], x, nodes[x].next[l])
    {
      assert x == 0 && levels[l] == {};
    }
    assert forall l :: 0 < l < MAX_HEIGHT ==> Within(levels, l);
  }

  class SkipList {
    var nodes: seq<Node>
    var maxHeight: nat
    /** The nodes on each level. */
    ghost var levels: seq<set<nat>>

    ghost predicate Valid()
      reads this
    {
      && Sound(nodes, levels) && 1 <= maxHeight <= MAX_HEIGHT
      && forall l :: maxHeight <= l < MAX_HEIGHT ==> levels[l] == {}
    }

    ghost predicate Contains(key: Key)
      requires Valid()
      reads this
    {
      exists z :: z in levels[0] && nodes[z].key == key
    }

    constructor ()
      ensures Valid() && levels[0] == {}
    {
      nodes := [Node(0.0, seq(MAX_HEIGHT, _ => None))];
      maxHeight := 1;
      levels := seq(MAX_HEIGHT, _ => {});
      new;
      EmptyIsSound();
    }

    /** The nodes still ahead of a search. */
    ghost function Ahead(x: nat): set<nat>
      requires Valid() && x < |nodes|
      reads this
    {
      set z | z in levels[0] && After(nodes, x, z)
    }

    lemma MovesOn(x: nat, l: nat, y: nat)
      requires Valid() && l < MAX_HEIGHT && x < |nodes| && y in levels[l] && After(nodes, x, y)
      ensures y < |nodes| && Ahead(y) < Ahead(x)
    {
      LowestLevelHasAll(nodes, levels, l);
      assert y in Ahead(x) && y !in Ahead(y);
    }

    /** The first node at or after the key, and the last node before the key on every level. */
    method FindGreaterOrEqual(key: Key) returns (node: Option<nat>, prev: seq<nat>)
      requires Valid()
      ensures FirstFrom(nodes, levels[0], key, node)
      ensures |prev| == maxHeight && forall l :: 0 <= l < maxHeight ==>
        prev[l] < |nodes| && LastBefore(nodes, levels[l], key, prev[l])
    {
      var x: nat, level: nat := 0, maxHeight - 1;
      prev := seq(maxHeight, _ => 0);
      while true
        invariant level < maxHeight == |prev| && x < |nodes| && Passed(nodes, levels, key, x, level)
        invariant forall l :: level < l < maxHeight ==> prev[l] < |nodes| && LastBefore(nodes, levels[l], key, prev[l])
        decreases level, Ahead(x)
      {
        LoadedNext(nodes, levels, key, x, level);
        var next := nodes[x].next[level];
        if KeyIsAfterNode(nodes, key, next) {
          MovesOn(x, level, next.value);
          x := next.value;
        } else {
          prev := prev[level := x];
          if level == 0 {
            return next, prev;
          }
          level := level - 1;
        }
      }
    }

    /** The last node before the key, or the head. */
    method FindLessThan(key: Key) returns (x: nat)
      requires Valid()
      ensures x < |nodes| && LastBefore(nodes, levels[0], key, x)
    {
      x := 0;
      var level: nat := maxHeight - 1;
      while true
        invariant level < maxHeight && x < |nodes| && Passed(nodes, levels, key, x, level)
        decreases level, Ahead(x)
      {
        LoadedNext(nodes, levels, key, x, level);
        var next := nodes[x].next[level];
        if next.None? || nodes[next.value].key >= key {
          if level == 0 {
            return;
          }
          level := level - 1;
        } else {
          MovesOn(x, level, next.value);
          x := next.value;
        }
      }
    }

    /** The last node, or the head of an empty list. */
    method FindLast() returns (x: nat)
      requires Valid()
      ensures OnLevel(levels, 0, x) && forall z :: z in levels[0] ==> x != 0 && nodes[z].key <= nodes[x].key
    {
      x := 0;
      var level: nat := maxHeight - 1;
      while true
        invariant level < maxHeight && OnLevel(levels, level, x)
        decreases level, Ahead(x)
      {
        assert NextIs(nodes, levels[level], x, nodes[x].next[level]);
        var next := nodes[x].next[level];
        if next.None? {
          if level == 0 {
            return;
          }
          assert Within(levels, level);
          level := level - 1;
        } else {
          MovesOn(x, level, next.value);
          x := next.value;
        }
      }
    }

    /** The two stores that put a node on one more level; the list is sound after each. */
    method LinkLevel(x: nat, prev: seq<nat>, l: nat)
      requires Linking(nodes, levels, x, prev, l) && l < |nodes[x].next|
      modifies this`nodes, this`levels
      ensures Linking(nodes, levels, x, prev, l + 1) && levels == Joined(old(levels), l, x)
      ensures SameNodes(old(nodes), nodes)
    {
      var p := prev[l];
      CopyKeeps(nodes, levels, x, prev, l);
      nodes := SetNext(nodes, x, l, nodes[p].next[l]);
      assert Sound(nodes, levels);
      PublishKeeps(nodes, levels, x, prev, l);
      nodes := SetNext(nodes, p, l, Some(x));
      levels := Joined(levels, l, x);
    }

    method Insert(key: Key, height: nat) returns (x: nat)
      requires Valid() && !Contains(key) && 1 <= height <= MAX_HEIGHT
      modifies this
      ensures Valid() && x == |old(nodes)| && |nodes| == x + 1 && nodes[x].key == key
      ensures forall z :: 0 <= z < x ==> nodes[z].key == old(nodes[z].key)
      ensures Raised(old(levels), levels, height, x)
    {
      ghost var was := nodes;
      var found, prev := FindGreaterOrEqual(key);
      assert forall z :: z in levels[0] ==> nodes[z].key != key;
      if height > maxHeight {
        prev := prev + seq(height - maxHeight, _ => 0);
        maxHeight := height;
      }
      x := |nodes|;
      nodes := nodes + [Node(key, seq(height, _ => None))];
      StartLinking(was, levels, key, height, prev);
      ghost var start := nodes;
      for l := 0 to height
        invariant Linking(nodes, levels, x, prev, l) && SameNodes(start, nodes)
        invariant old(maxHeight) <= maxHeight <= MAX_HEIGHT && height <= maxHeight
        invariant Raised(old(levels), levels, l, x)
      {
        LinkLevel(x, prev, l);
      }
    }
  }

  /** Node `x` has joined the levels below `l`. */
  ghost predicate Raised(levels: seq<set<nat>>, levels': seq<set<nat>>, l: nat, x: nat) {
    && |levels| == |levels'| == MAX_HEIGHT
    && forall m :: 0 <= m < MAX_HEIGHT ==> levels'[m] == if m < l then levels[m] + {x} else levels[m]
  }

  ghost predicate SameNodes(nodes: seq<Node>, nodes': seq<Node>) {
    && |nodes'| == |nodes|
    && forall z :: 0 <= z < |nodes| ==> nodes'[z].key == nodes[z].key && |nodes'[z].next| == |nodes[z].next|
  }

  lemma StartLinking(nodes: seq<Node>, levels: seq<set<nat>>, key: Key, height: nat, prev: seq<nat>)
    requires Sound(nodes, levels) && 1 <= height <= |prev| && height <= MAX_HEIGHT
    requires forall l: nat :: l < height ==> prev[l] < |nodes| && LastBefore(nodes, levels[l], key, prev[l])
    requires forall z :: z in levels[0] ==> nodes[z].key != key
    ensures Linking(nodes + [Node(key, seq(height, _ => None))], levels, |nodes|, prev, 0)
  {
    var x, after := |nodes|, nodes + [Node(key, seq(height, _ => None))];
    NewNode(nodes, after, levels);
    forall l: nat | l < height ensures Precedes(after, levels, l, prev[l], x) {
      assert LastBefore(nodes, levels[l], key, prev[l]);
      LastIsPredecessor(after, levels, l, prev[l], x);
    }
  }

  /** An iterator over a list that nobody changes meanwhile. */
  class Iterator {
    const list: SkipList
    var node: Option<nat>

    constructor (list: SkipList)
      ensures this.list == list && node == None
    {
      this.list := list;
      node := None;
    }

    method Next()
      requires list.Valid() && node.Some? && node.value in list.levels[0]
      modifies this
      ensures NextIs(list.nodes, list.levels[0], old(node.value), node)
    {
      assert OnLevel(list.levels, 0, node.value);
      node := list.nodes[node.value].next[0];
    }

    method Prev()
      requires list.Valid() && node.Some? && node.value in list.levels[0]
      modifies this
      ensures node.Some? ==>
        && node.value in list.levels[0]
        && LastBefore(list.nodes, list.levels[0], list.nodes[old(node.value)].key, node.value)
      ensures node.None? ==> forall z :: z in list.levels[0] ==> list.nodes[old(node.value)].key <= list.nodes[z].key
    {
      var before := list.FindLessThan(list.nodes[node.value].key);
      node := if before == 0 then None else Some(before);
    }

    method Seek(target: Key)
      requires list.Valid()
      modifies this
      ensures FirstFrom(list.nodes, list.levels[0], target, node)
    {
      var prev;
      node, prev := list.FindGreaterOrEqual(target);
    }

    method SeekToFirst()
      requires list.Valid()
      modifies this
      ensures NextIs(list.nodes, list.levels[0], 0, node)
    {
      assert OnLevel(list.levels, 0, 0);
      node := list.nodes[0].next[0];
    }

    method SeekToLast()
      requires list.Valid()
      modifies this
      ensures node.None? <==> list.levels[0] == {}
      ensures node.Some? ==>
        && node.value in list.levels[0]
        && forall z :: z in list.levels[0] ==> list.nodes[z].key <= list.nodes[node.value].key
    {
      var last := list.FindLast();
      node := if last == 0 then None else Some(last);
    }
  }
}
