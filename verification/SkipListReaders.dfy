/** Lock-free readers against the one inserter (db/skiplist.h): the inserter's stores and the readers' loads
    in any interleaving. */
module SkipListReaders {
  import opened Basics
  import opened SkipLists

  /** An insertion under way: node `x` is on the levels below `l`; for level `l` its own pointer may be set. */
  datatype Insertion = Insertion(x: nat, prev: seq<nat>, l: nat, copied: bool)

  /** A search for the first key at or after `target`, which also finds the last key before it. */
  datatype Reader = Reading(target: Key, x: nat, level: nat) | Found(target: Key, before: nat, node: Option<nat>)

  datatype State = State(nodes: seq<Node>, levels: seq<set<nat>>, insertion: Option<Insertion>,
                         readers: map<nat, Reader>)

  datatype Step =
    | StartInsert(key: Key, height: nat, prev: seq<nat>)
    | CopyNext
    | PublishNext
    | FinishInsert
    | StartRead(id: nat, target: Key, level: nat)
    | Load(reader: nat)

  /** The inserter has searched the list, which nobody else changes, and makes a node. */
  ghost predicate InsertStarts(s: State, key: Key, height: nat, prev: seq<nat>, s': State) {
    && s.insertion.None? && 1 <= height <= |prev| && height <= MAX_HEIGHT && InArena(s.nodes, s.levels)
    && (forall l: nat :: l < height ==> prev[l] < |s.nodes| && LastBefore(s.nodes, s.levels[l], key, prev[l]))
    && (forall z :: z in s.levels[0] ==> s.nodes[z].key != key)
    && s' == s.(nodes := s.nodes + [Node(key, seq(height, _ => None))],
       insertion := Some(Insertion(|s.nodes|, prev, 0, false)))
  }

  /** The pointers the next store reads and writes. */
  predicate Underway(s: State, copied: bool) {
    s.insertion.Some? &&
    var i := s.insertion.value;
    && i.copied == copied && i.x < |s.nodes| && i.l < |s.nodes[i.x].next| && i.l < |s.levels|
    && i.l < |i.prev| && i.prev[i.l] < |s.nodes| && i.l < |s.nodes[i.prev[i.l]].next|
  }

  ghost predicate NextCopied(s: State, s': State) {
    Underway(s, false) &&
    var i := s.insertion.value;
    s' == s.(nodes := SetNext(s.nodes, i.x, i.l, s.nodes[i.prev[i.l]].next[i.l]), insertion := Some(i.(copied := true)))
  }

  ghost predicate NextPublished(s: State, s': State) {
    Underway(s, true) &&
    var i := s.insertion.value;
    s' == s.(
      nodes := SetNext(s.nodes, i.prev[i.l], i.l, Some(i.x)), levels := Joined(s.levels, i.l, i.x),
      insertion := Some(i.(l := i.l + 1, copied := false)))
  }

  ghost predicate InsertFinishes(s: State, s': State) {
    && s.insertion.Some? && s.insertion.value.x < |s.nodes| &&
       s.insertion.value.l == |s.nodes[s.insertion.value.x].next|
    && s' == s.(insertion := None)
  }

  /** A reader starts at the head on any level: it may have read an old or a new height of the list. */
  ghost predicate ReadStarts(s: State, id: nat, target: Key, level: nat, s': State) {
    level < MAX_HEIGHT && s' == s.(readers := s.readers[id := Reading(target, 0, level)])
  }

  predicate CanLoad(nodes: seq<Node>, r: Reader) {
    && r.Reading? && r.x < |nodes| && r.level < |nodes[r.x].next|
    && (nodes[r.x].next[r.level].Some? ==> nodes[r.x].next[r.level].value < |nodes|)
  }

  /** One turn of the search loop: load a pointer, then move on, go down or finish. */
  function AfterLoad(nodes: seq<Node>, r: Reader): Reader
    requires CanLoad(nodes, r)
  {
    var next := nodes[r.x].next[r.level];
    if KeyIsAfterNode(nodes, r.target, next) then r.(x := next.value)
    else if r.level > 0 then r.(level := r.level - 1)
    else Found(r.target, r.x, next)
  }

  ghost predicate Loads(s: State, id: nat, s': State) {
    && id in s.readers && CanLoad(s.nodes, s.readers[id])
    && s' == s.(readers := s.readers[id := AfterLoad(s.nodes, s.readers[id])])
  }

  ghost predicate Next(s: State, step: Step, s': State) {
    match step
    case StartInsert(key, height, prev) => InsertStarts(s, key, height, prev, s')
    case CopyNext => NextCopied(s, s')
    case PublishNext => NextPublished(s, s')
    case FinishInsert => InsertFinishes(s, s')
    case StartRead(id, target, level) => ReadStarts(s, id, target, level, s')
    case Load(id) => Loads(s, id, s')
  }

  ghost predicate StateInv(s: State) {
    && Sound(s.nodes, s.levels)
    && (s.insertion.Some? ==> InsertionInv(s, s.insertion.value))
    && ReadersInv(s)
  }

  ghost predicate InsertionInv(s: State, i: Insertion) {
    && Linking(s.nodes, s.levels, i.x, i.prev, i.l)
    && (i.copied ==>
          && i.l < |s.nodes[i.x].next| && OnLevel(s.levels, i.l, i.prev[i.l])
          && s.nodes[i.x].next[i.l] == s.nodes[i.prev[i.l]].next[i.l])
  }

  ghost predicate ReadersInv(s: State) {
    forall id :: id in s.readers && s.readers[id].Reading? ==>
      Passed(s.nodes, s.levels, s.readers[id].target, s.readers[id].x, s.readers[id].level)
  }

  lemma StoreKeepsReaders(s: State, s': State)
    requires ReadersInv(s) && s'.readers == s.readers && Grown(s.nodes, s.levels, s'.nodes, s'.levels)
    ensures ReadersInv(s')
  {
  }

  lemma CopyStepKeeps(s: State, s': State)
    requires StateInv(s) && NextCopied(s, s')
    ensures StateInv(s') && Grown(s.nodes, s.levels, s'.nodes, s'.levels)
  {
    var i := s.insertion.value;
    CopyKeeps(s.nodes, s.levels, i.x, i.prev, i.l);
    StoreKeepsReaders(s, s');
  }

  lemma PublishStepKeeps(s: State, s': State)
    requires StateInv(s) && NextPublished(s, s')
    ensures StateInv(s') && Grown(s.nodes, s.levels, s'.nodes, s'.levels)
  {
    var i := s.insertion.value;
    PublishKeeps(s.nodes, s.levels, i.x, i.prev, i.l);
    StoreKeepsReaders(s, s');
  }

  lemma StepKeepsInv(s: State, step: Step, s': State)
    requires StateInv(s) && Next(s, step, s')
    ensures StateInv(s') && Grown(s.nodes, s.levels, s'.nodes, s'.levels)
  {
    match step
    case StartInsert(key, height, prev) =>
      StartLinking(s.nodes, s.levels, key, height, prev);
      StoreKeepsReaders(s, s');
    case CopyNext =>
      CopyStepKeeps(s, s');
    case PublishNext =>
      PublishStepKeeps(s, s');
    case FinishInsert =>
    case StartRead(id, target, level) =>
    case Load(id) =>
      LoadedNext(s.nodes, s.levels, s.readers[id].target, s.readers[id].x, s.readers[id].level);
  }

  // ---- whole runs ----

  /** A new list. */
  function Start(): State {
    State([Node(0.0, seq(MAX_HEIGHT, _ => None))], seq(MAX_HEIGHT, _ => {}), None, map[])
  }

  ghost predicate Run(states: seq<State>, steps: seq<Step>) {
    && |states| == |steps| + 1 && states[0] == Start()
    && forall i :: 0 <= i < |steps| ==> Next(states[i], steps[i], states[i + 1])
  }

  /** After every single store each level is sorted, linked and part of the level below. */
  lemma {:induction false} RunKeepsInv(states: seq<State>, steps: seq<Step>, n: nat)
    requires Run(states, steps) && n <= |steps|
    ensures StateInv(states[n])
  {
    if n == 0 {
      EmptyIsSound();
    } else {
      RunKeepsInv(states, steps, n - 1);
      StepKeepsInv(states[n - 1], steps[n - 1], states[n]);
    }
  }

  /** A search that ends in any interleaving returns the first node at or after its target in the list as it
      is at its last load, and the last node before it. */
  lemma SearchIsRightAtLastLoad(states: seq<State>, steps: seq<Step>, n: nat)
    requires Run(states, steps) && n < |steps| && steps[n].Load? && steps[n].reader in states[n + 1].readers
    requires states[n + 1].readers[steps[n].reader].Found?
    ensures var s, found := states[n + 1], states[n + 1].readers[steps[n].reader];
      && Sound(s.nodes, s.levels) && found.before < |s.nodes|
      && FirstFrom(s.nodes, s.levels[0], found.target, found.node) &&
         LastBefore(s.nodes, s.levels[0], found.target, found.before)
  {
    RunKeepsInv(states, steps, n);
    assert Next(states[n], steps[n], states[n + 1]);
    var r := states[n].readers[steps[n].reader];
    LoadedNext(states[n].nodes, states[n].levels, r.target, r.x, r.level);
  }

  lemma {:induction false} ListGrows(states: seq<State>, steps: seq<Step>, i: nat, n: nat)
    requires Run(states, steps) && i <= n <= |steps|
    ensures Grown(states[i].nodes, states[i].levels, states[n].nodes, states[n].levels)
  {
    RunKeepsInv(states, steps, i);
    if i < n {
      ListGrows(states, steps, i, n - 1);
      RunKeepsInv(states, steps, n - 1);
      StepKeepsInv(states[n - 1], steps[n - 1], states[n]);
      var a, b, c := states[i], states[n - 1], states[n];
      forall l | 0 <= l < MAX_HEIGHT ensures a.levels[l] <= c.levels[l] {
        assert a.levels[l] <= b.levels[l] && b.levels[l] <= c.levels[l];
      }
    }
  }

  /** A node that was in the list at any time before is not passed over. */
  lemma NothingIsMissed(states: seq<State>, steps: seq<Step>, i: nat, n: nat, z: nat)
    requires Run(states, steps) && i <= n < |steps| && steps[n].Load? && steps[n].reader in states[n + 1].readers
    requires states[n + 1].readers[steps[n].reader].Found? && |states[i].levels| > 0 && z in states[i].levels[0]
    requires z < |states[i].nodes|
    requires states[n + 1].readers[steps[n].reader].target <= states[i].nodes[z].key
    ensures var s, found := states[n + 1], states[n + 1].readers[steps[n].reader];
      found.node.Some? && found.node.value < |s.nodes| && s.nodes[found.node.value].key <= states[i].nodes[z].key
  {
    SearchIsRightAtLastLoad(states, steps, n);
    ListGrows(states, steps, i, n + 1);
    assert states[i].levels[0] <= states[n + 1].levels[0];
  }
}
