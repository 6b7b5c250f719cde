/** The hash table of the cache (HandleTable in util/cache.cc): buckets of handles chained through their
    next_hash pointers, with a power-of-two number of buckets.

  Handles are named by numbers that stand for their addresses.
 */
module HandleTables {
  import opened Basics
  import opened Coding

  /** What entries are looked up by. */
  datatype HashedKey = HashedKey(key: string, hash: nat)

  function Bucket(key: HashedKey, length: nat): (b: nat)
    requires length > 0
    ensures b < length
  {
    key.hash % length
  }

  /** The bucket as the table finds it, by masking the hash. */
  method MaskedBucket(key: HashedKey, length: nat) returns (b: nat)
    requires PowerOfTwo(length)
    ensures b == Bucket(key, length)
  {
    MaskIsRemainder(key.hash, length);
    b := And(key.hash, length - 1);
  }

  // ---- chains ----

  /** The handles reached from `head` through the next pointers. */
  ghost predicate Chain(head: Option<nat>, next: map<nat, Option<nat>>, chain: seq<nat>)
    decreases |chain|
  {
    if chain == [] then head == None
    else head == Some(chain[0]) && chain[0] in next && Chain(next[chain[0]], next, chain[1..])
  }

  lemma {:induction false} ChainFrame(head: Option<nat>, next: map<nat, Option<nat>>, chain: seq<nat>,
                                      next': map<nat, Option<nat>>)
    requires Chain(head, next, chain) && forall h :: h in chain ==> h in next' && h in next && next'[h] == next[h]
    ensures Chain(head, next', chain)
    decreases |chain|
  {
    if chain != [] {
      ChainFrame(next[chain[0]], next, chain[1..], next');
    }
  }

  /** The pointer that leads to position `k` of a chain. */
  ghost function PointerTo(head: Option<nat>, next: map<nat, Option<nat>>, chain: seq<nat>, k: nat): Option<nat>
    requires k <= |chain| && forall h :: h in chain ==> h in next
  {
    if k == 0 then head else next[chain[k - 1]]
  }

  lemma {:induction false} ChainFrom(head: Option<nat>, next: map<nat, Option<nat>>, chain: seq<nat>, k: nat)
    requires Chain(head, next, chain) && k <= |chain|
    ensures forall h :: h in chain ==> h in next
    ensures Chain(PointerTo(head, next, chain, k), next, chain[k..])
    decreases |chain|
  {
    if chain != [] {
      ChainFrom(next[chain[0]], next, chain[1..], if k > 0 then k - 1 else 0);
      assert chain == [chain[0]] + chain[1..];
      if k > 0 {
        assert chain[1..][k - 1..] == chain[k..];
      }
    }
  }

  ghost predicate NoRepeats(s: seq<nat>) {
    forall i, j :: 0 <= i < j < |s| ==> s[i] != s[j]
  }

  /** Storing into the pointer to position `k` replaces the rest of the chain. */
  lemma {:induction false} ChainSplice(head: Option<nat>, next: map<nat, Option<nat>>, chain: seq<nat>, k: nat,
                                       p: Option<nat>, tail: seq<nat>)
    requires Chain(head, next, chain) && k <= |chain| && NoRepeats(chain) && Chain(p, next, tail)
    requires k > 0 ==> chain[k - 1] !in tail
    ensures if k == 0 then Chain(p, next, chain[..0] + tail)
      else Chain(head, next[chain[k - 1] := p], chain[..k] + tail)
    decreases |chain|
  {
    if k == 0 {
      assert chain[..0] + tail == tail;
    } else {
      var after, spliced := next[chain[k - 1] := p], chain[..k] + tail;
      ChainFrom(p, next, tail, 0);
      ChainFrame(p, next, tail, after);
      assert spliced[0] == chain[0] && spliced[1..] == chain[1..][..k - 1] + tail;
      if k == 1 {
        assert spliced[1..] == tail;
      } else {
        assert chain[1..][k - 2] == chain[k - 1] && chain[0] != chain[k - 1];
        ChainSplice(next[chain[0]], next, chain[1..], k - 1, p, tail);
      }
    }
  }

  // ---- all buckets ----

  ghost predicate Chained(list: seq<Option<nat>>, next: map<nat, Option<nat>>, chains: seq<seq<nat>>) {
    |chains| == |list| && forall j :: 0 <= j < |list| ==> Chain(list[j], next, chains[j])
  }

  /** No two entries have the same key. */
  ghost predicate DistinctKeys(keys: map<nat, HashedKey>, entries: set<nat>) {
    && (forall h :: h in entries ==> h in keys)
    && (forall a, b :: a in entries && b in entries && keys[a] == keys[b] ==> a == b)
  }

  /** Bucket `j` of `n` holds exactly the entries whose hashes belong there, each once. */
  ghost predicate BucketHolds(chain: seq<nat>, keys: map<nat, HashedKey>, entries: set<nat>, n: nat, j: nat)
    requires n > 0 && forall h :: h in entries ==> h in keys
  {
    NoRepeats(chain) && forall x :: x in chain <==> x in entries && Bucket(keys[x], n) == j
  }

  ghost predicate Placed(chains: seq<seq<nat>>, keys: map<nat, HashedKey>, entries: set<nat>) {
    && DistinctKeys(keys, entries) && |chains| > 0
    && forall j :: 0 <= j < |chains| ==> BucketHolds(chains[j], keys, entries, |chains|, j)
  }

  /** The entry with a key, or None when no entry has it. */
  ghost predicate Matches(keys: map<nat, HashedKey>, entries: set<nat>, key: HashedKey, found: Option<nat>) {
    match found
    case Some(h) => h in entries && h in keys && keys[h] == key
    case None => forall h :: h in entries ==> h in keys && keys[h] != key
  }

  function Lone(h: Option<nat>): set<nat> {
    if h.Some? then {h.value} else {}
  }

  /** The length holds so many entries, and half of it would not or would be too short. */
  predicate Fits(elems: nat, length: nat) {
    4 <= length && elems <= length && (length > 4 ==> length / 2 < elems)
  }

  datatype Slot = Head(bucket: nat) | NextOf(handle: nat)

  /** `slot` is the pointer to position `k` of a bucket. */
  ghost predicate SlotAt(chains: seq<seq<nat>>, b: nat, k: nat, slot: Slot)
    requires b < |chains|
  {
    k <= |chains[b]| && slot == if k == 0 then Head(b) else NextOf(chains[b][k - 1])
  }

  function Stored(list: seq<Option<nat>>, slot: Slot, p: Option<nat>): seq<Option<nat>>
    requires slot.Head? ==> slot.bucket < |list|
  {
    if slot.Head? then list[slot.bucket := p] else list
  }

  function Relinked(next: map<nat, Option<nat>>, slot: Slot, p: Option<nat>): map<nat, Option<nat>> {
    if slot.NextOf? then next[slot.handle := p] else next
  }

  class HandleTable {
    var list: seq<Option<nat>>
    var elems: nat
    var nextHash: map<nat, Option<nat>>
    var keys: map<nat, HashedKey>
    ghost var entries: set<nat>
    /** The handles of each bucket in chain order. */
    ghost var chains: seq<seq<nat>>

    ghost predicate Sound()
      reads this
    {
      PowerOfTwo(|list|) && |list| >= 4 && elems == |entries| && Chained(list, nextHash, chains) &&
        Placed(chains, keys, entries)
    }

    ghost predicate Valid()
      reads this
    {
      Sound() && elems <= |list|
    }

    constructor ()
      ensures Valid() && entries == {}
    {
      list, elems, nextHash, keys := [None, None, None, None], 0, map[], map[];
      entries, chains := {}, [[], [], [], []];
    }

    /** The slot that points to the entry with the key, or the trailing slot of its bucket. */
    method FindPointer(key: HashedKey) returns (slot: Slot, content: Option<nat>, ghost k: nat)
      requires Valid()
      ensures SlotAt(chains, Bucket(key, |list|), k, slot)
      ensures content == if k < |chains[Bucket(key, |list|)]| then Some(chains[Bucket(key, |list|)][k]) else None
      ensures Matches(keys, entries, key, content)
      ensures content.Some? ==> content.value in nextHash
    {
      var b := MaskedBucket(key, |list|);
      ghost var chain := chains[b];
      assert BucketHolds(chain, keys, entries, |chains|, b);
      ChainFrom(list[b], nextHash, chain, 0);
      slot, content, k := Head(b), list[b], 0;
      while content.Some? && keys[content.value] != key
        invariant SlotAt(chains, b, k, slot) && forall i :: 0 <= i < k ==> keys[chain[i]] != key
        invariant content == if k < |chain| then Some(chain[k]) else None
        decreases |chain| - k
      {
        slot, k := NextOf(content.value), k + 1;
        ChainFrom(list[b], nextHash, chain, k);
        content := nextHash[content.value];
      }
      if content.None? {
        forall h | h in entries ensures keys[h] != key {
          assert keys[h] == key ==> h in chain;
        }
      }
    }

    method Lookup(key: HashedKey) returns (handle: Option<nat>)
      requires Valid()
      ensures Matches(keys, entries, key, handle)
    {
      var slot;
      ghost var k;
      slot, handle, k := FindPointer(key);
    }

    /** The entry with the same key, if any, gives way to the new one. */
    method Insert(h: nat, key: HashedKey) returns (replaced: Option<nat>)
      requires Valid() && h !in entries
      modifies this
      ensures Valid() && keys == old(keys)[h := key]
      ensures Matches(old(keys), old(entries), key, replaced)
      ensures entries == old(entries) - Lone(replaced) + {h}
      ensures if elems <= |old(list)| then |list| == |old(list)| else Fits(elems, |list|)
    {
      var slot;
      ghost var k;
      slot, replaced, k := FindPointer(key);
      StoreNew(slot, k, replaced, h, key);
      if replaced.None? {
        elems := elems + 1;
        if elems > |list| {
          Resize();
        }
      }
    }

    /** The new handle takes over what the slot points to, or is appended there. */
    method StoreNew(slot: Slot, ghost k: nat, replaced: Option<nat>, h: nat, key: HashedKey)
      requires Valid() && h !in entries && SlotAt(chains, Bucket(key, |list|), k, slot)
      requires replaced == if k < |chains[Bucket(key, |list|)]| then Some(chains[Bucket(key, |list|)][k]) else None
      requires Matches(keys, entries, key, replaced) && (replaced.Some? ==> replaced.value in nextHash)
      modifies this`list, this`nextHash, this`keys, this`entries, this`chains
      ensures |list| == |old(list)| && Chained(list, nextHash, chains) && Placed(chains, keys, entries)
      ensures keys == old(keys)[h := key] && entries == old(entries) - Lone(replaced) + {h}
      ensures |entries| == elems + if replaced.Some? then 0 else 1
    {
      var after := if replaced.Some? then nextHash[replaced.value] else None;
      InsertEffect(list, nextHash, chains, keys, entries, Bucket(key, |list|), k, slot, replaced, h, key);
      chains := chains[Bucket(key, |list|) := InsertedChain(chains[Bucket(key, |list|)], k, h)];
      keys := keys[h := key];
      nextHash := Relinked(nextHash[h := after], slot, Some(h));
      list := Stored(list, slot, Some(h));
      entries := entries - Lone(replaced) + {h};
    }

    method Remove(key: HashedKey) returns (removed: Option<nat>)
      requires Valid()
      modifies this
      ensures Valid() && keys == old(keys) && |list| == |old(list)|
      ensures Matches(keys, old(entries), key, removed)
      ensures entries == old(entries) - Lone(removed)
    {
      var slot;
      ghost var k;
      slot, removed, k := FindPointer(key);
      if removed.Some? {
        var after := nextHash[removed.value];
        RemoveEffect(list, nextHash, chains, keys, entries, Bucket(key, |list|), k, slot);
        chains := chains[Bucket(key, |list|) := RemovedChain(chains[Bucket(key, |list|)], k)];
        nextHash := Relinked(nextHash, slot, after);
        list := Stored(list, slot, after);
        entries := entries - {removed.value};
        elems := elems - 1;
      }
    }

    /** Moves every entry into a larger bucket array. */
    method Resize()
      requires Sound()
      modifies this
      ensures Valid() && keys == old(keys) && elems == old(elems) && entries == old(entries)
      ensures Fits(elems, |list|)
    {
      var newLength: nat := NewLength();
      var newList: seq<Option<nat>> := seq(newLength, _ => None);
      ghost var newChains: seq<seq<nat>> := seq(newLength, _ => []);
      ghost var moved: set<nat> := {};
      for i := 0 to |list|
        invariant unchanged(`list) && unchanged(`keys) && unchanged(`elems) && unchanged(`entries) && unchanged(`chains)
        invariant |newList| == newLength
        invariant Moving(list, nextHash, chains, keys, entries, i, None, [], newList, newChains, moved)
      {
        newList, newChains, moved := MoveBucket(i, newList, newChains, moved);
      }
      assert moved == entries;
      list, chains := newList, newChains;
    }

    /** Moves the entries of one bucket. */
    method MoveBucket(i: nat, before: seq<Option<nat>>, ghost chainsBefore: seq<seq<nat>>, ghost movedBefore: set<nat>)
      returns (newList: seq<Option<nat>>, ghost newChains: seq<seq<nat>>, ghost moved: set<nat>)
      requires i < |list| && PowerOfTwo(|before|)
      requires Moving(list, nextHash, chains, keys, entries, i, None, [], before, chainsBefore, movedBefore)
      modifies this`nextHash
      ensures |newList| == |before|
      ensures Moving(list, nextHash, chains, keys, entries, i + 1, None, [], newList, newChains, moved)
    {
      newList, newChains, moved := before, chainsBefore, movedBefore;
      ghost var rest := chains[i];
      var h := list[i];
      while h.Some?
        invariant |newList| == |before|
        invariant Moving(list, nextHash, chains, keys, entries, i + 1, h, rest, newList, newChains, moved)
        decreases |rest|
      {
        MoveOne(list, nextHash, chains, keys, entries, i + 1, h, rest, newList, newChains, moved);
        var next := nextHash[h.value];
        var b := MaskedBucket(keys[h.value], |newList|);
        newChains, moved := newChains[b := [h.value] + newChains[b]], moved + {h.value};
        nextHash := nextHash[h.value := newList[b]];
        newList := newList[b := h];
        h, rest := next, rest[1..];
      }
    }

    method NewLength() returns (newLength: nat)
      ensures PowerOfTwo(newLength) && Fits(elems, newLength)
    {
      newLength := 4;
      while newLength < elems
        invariant PowerOfTwo(newLength) && newLength >= 4 && (newLength > 4 ==> newLength / 2 < elems)
        decreases elems - newLength
      {
        newLength := newLength * 2;
      }
    }
  }

  ghost function InsertedChain(chain: seq<nat>, k: nat, h: nat): seq<nat>
    requires k <= |chain|
  {
    if k < |chain| then chain[k := h] else chain + [h]
  }

  ghost function RemovedChain(chain: seq<nat>, k: nat): seq<nat>
    requires k < |chain|
  {
    chain[..k] + chain[k + 1..]
  }

  /** Storing into the pointer to position `k` of one bucket leaves the other buckets alone. */
  lemma SpliceBucket(list: seq<Option<nat>>, next: map<nat, Option<nat>>, chains: seq<seq<nat>>, b: nat, k: nat,
                     slot: Slot, p: Option<nat>, tail: seq<nat>)
    requires Chained(list, next, chains) && b < |chains| && SlotAt(chains, b, k, slot) && NoRepeats(chains[b])
    requires Chain(p, next, tail)
    requires slot.NextOf? ==>
      slot.handle !in tail && forall j :: 0 <= j < |chains| && j != b ==> slot.handle !in chains[j]
    ensures Chained(Stored(list, slot, p), Relinked(next, slot, p), chains[b := chains[b][..k] + tail])
  {
    ChainSplice(list[b], next, chains[b], k, p, tail);
    forall j | 0 <= j < |chains| && j != b ensures Chain(list[j], Relinked(next, slot, p), chains[j]) {
      ChainFrom(list[j], next, chains[j], 0);
      ChainFrame(list[j], next, chains[j], Relinked(next, slot, p));
    }
  }

  /** What is known about the handle whose pointer leads to position `k`. */
  lemma SlotIsInBucket(chains: seq<seq<nat>>, keys: map<nat, HashedKey>, entries: set<nat>, b: nat, k: nat, slot: Slot)
    requires Placed(chains, keys, entries) && b < |chains| && SlotAt(chains, b, k, slot)
    ensures NoRepeats(chains[b])
    ensures slot.NextOf? ==> slot.handle in entries && slot.handle in chains[b] && slot.handle !in chains[b][k..]
    ensures slot.NextOf? ==> forall j :: 0 <= j < |chains| && j != b ==> slot.handle !in chains[j]
  {
    assert BucketHolds(chains[b], keys, entries, |chains|, b);
    if slot.NextOf? {
      assert slot.handle in chains[b];
      forall j | 0 <= j < |chains| && j != b ensures slot.handle !in chains[j] {
        assert BucketHolds(chains[j], keys, entries, |chains|, j);
      }
    }
  }

  lemma InsertEffect(list: seq<Option<nat>>, next: map<nat, Option<nat>>, chains: seq<seq<nat>>,
                     keys: map<nat, HashedKey>, entries: set<nat>, b: nat, k: nat, slot: Slot, replaced: Option<nat>,
                     h: nat, key: HashedKey)
    requires Chained(list, next, chains) && Placed(chains, keys, entries) && b == Bucket(key, |list|)
    requires SlotAt(chains, b, k, slot)
    requires replaced == if k < |chains[b]| then Some(chains[b][k]) else None
    requires Matches(keys, entries, key, replaced) && (replaced.Some? ==> replaced.value in next) && h !in entries
    ensures var next1 := next[h := if replaced.Some? then next[replaced.value] else None];
      Chained(Stored(list, slot, Some(h)), Relinked(next1, slot, Some(h)), chains[b := InsertedChain(chains[b], k, h)])
    ensures Placed(chains[b := InsertedChain(chains[b], k, h)], keys[h := key], entries - Lone(replaced) + {h})
    ensures |entries - Lone(replaced) + {h}| == |entries| + if replaced.Some? then 0 else 1
  {
    var chain, after := chains[b], if replaced.Some? then next[replaced.value] else None;
    var rest := if k < |chain| then chain[k + 1..] else [];
    SlotIsInBucket(chains, keys, entries, b, k, slot);
    LinkNew(list, next, chains, keys, entries, b, k, h, after, rest);
    assert slot.NextOf? ==> slot.handle !in [h] + rest;
    SpliceBucket(list, next[h := after], chains, b, k, slot, Some(h), [h] + rest);
    assert chain[..k] + ([h] + rest) == InsertedChain(chain, k, h);
    InsertedPlaced(chains, keys, entries, b, k, replaced, h, key);
    assert replaced.Some? ==>
      Lone(replaced) <= entries && entries - Lone(replaced) + {h} == (entries - {replaced.value}) + {h};
  }

  /** The new handle's own pointer, before anything points to the handle. */
  lemma LinkNew(list: seq<Option<nat>>, next: map<nat, Option<nat>>, chains: seq<seq<nat>>, keys: map<nat, HashedKey>,
                entries: set<nat>, b: nat, k: nat, h: nat, after: Option<nat>, rest: seq<nat>)
    requires Chained(list, next, chains) && Placed(chains, keys, entries) && b < |chains| && k <= |chains[b]|
    requires h !in entries
    requires rest == if k < |chains[b]| then chains[b][k + 1..] else []
    requires k < |chains[b]| ==> chains[b][k] in next
    requires after == if k < |chains[b]| then next[chains[b][k]] else None
    ensures Chained(list, next[h := after], chains) && Chain(Some(h), next[h := after], [h] + rest)
  {
    forall j | 0 <= j < |chains| ensures Chain(list[j], next[h := after], chains[j]) && h !in chains[j] {
      assert BucketHolds(chains[j], keys, entries, |chains|, j);
      ChainFrom(list[j], next, chains[j], 0);
      ChainFrame(list[j], next, chains[j], next[h := after]);
    }
    if k < |chains[b]| {
      ChainFrom(list[b], next, chains[b], k + 1);
    }
    ChainFrom(after, next, rest, 0);
    ChainFrame(after, next, rest, next[h := after]);
    assert ([h] + rest)[1..] == rest;
  }

  lemma InsertedPlaced(chains: seq<seq<nat>>, keys: map<nat, HashedKey>, entries: set<nat>, b: nat, k: nat,
                       replaced: Option<nat>, h: nat, key: HashedKey)
    requires Placed(chains, keys, entries) && b < |chains| && b == Bucket(key, |chains|) && k <= |chains[b]|
    requires h !in entries
    requires replaced == (if k < |chains[b]| then Some(chains[b][k]) else None) && Matches(keys, entries, key, replaced)
    ensures Placed(chains[b := InsertedChain(chains[b], k, h)], keys[h := key], entries - Lone(replaced) + {h})
  {
    var keys', entries' := keys[h := key], entries - Lone(replaced) + {h};
    var chains' := chains[b := InsertedChain(chains[b], k, h)];
    forall j | 0 <= j < |chains| ensures BucketHolds(chains'[j], keys', entries', |chains'|, j) {
      assert BucketHolds(chains[j], keys, entries, |chains|, j);
      if j == b {
        InsertedMembers(chains[b], k, h);
      } else if replaced.Some? {
        assert BucketHolds(chains[b], keys, entries, |chains|, b) && replaced.value in chains[b];
      }
    }
  }

  lemma InsertedMembers(chain: seq<nat>, k: nat, h: nat)
    requires k <= |chain| && h !in chain && NoRepeats(chain)
    ensures NoRepeats(InsertedChain(chain, k, h))
    ensures forall x :: x in InsertedChain(chain, k, h) <==> (x in chain && (k < |chain| ==> x != chain[k])) || x == h
  {
    var after := InsertedChain(chain, k, h);
    forall x | (x in chain && (k < |chain| ==> x != chain[k])) || x == h ensures x in after {
      if x == h {
        assert after[k] == h;
      } else {
        var i :| 0 <= i < |chain| && chain[i] == x;
        assert after[i] == x;
      }
    }
  }

  lemma RemoveEffect(list: seq<Option<nat>>, next: map<nat, Option<nat>>, chains: seq<seq<nat>>,
                     keys: map<nat, HashedKey>, entries: set<nat>, b: nat, k: nat, slot: Slot)
    requires Chained(list, next, chains) && Placed(chains, keys, entries) && b < |chains| && SlotAt(chains, b, k, slot)
    requires k < |chains[b]|
    requires chains[b][k] in next
    ensures var after := next[chains[b][k]];
      Chained(Stored(list, slot, after), Relinked(next, slot, after), chains[b := RemovedChain(chains[b], k)])
    ensures Placed(chains[b := RemovedChain(chains[b], k)], keys, entries - {chains[b][k]})
    ensures chains[b][k] in entries
  {
    var chain := chains[b];
    var chains' := chains[b := RemovedChain(chain, k)];
    SlotIsInBucket(chains, keys, entries, b, k, slot);
    ChainFrom(list[b], next, chain, k + 1);
    assert slot.NextOf? ==> slot.handle !in chain[k + 1..] by {
      assert forall x :: x in chain[k + 1..] ==> x in chain[k..];
    }
    SpliceBucket(list, next, chains, b, k, slot, next[chain[k]], chain[k + 1..]);
    RemovedMembers(chain, k);
    assert BucketHolds(chain, keys, entries, |chains|, b) && chain[k] in chain;
    forall j | 0 <= j < |chains| ensures BucketHolds(chains'[j], keys, entries - {chain[k]}, |chains'|, j) {
      assert BucketHolds(chains[j], keys, entries, |chains|, j);
    }
  }

  lemma RemovedMembers(chain: seq<nat>, k: nat)
    requires k < |chain| && NoRepeats(chain)
    ensures NoRepeats(RemovedChain(chain, k))
    ensures forall x :: x in RemovedChain(chain, k) <==> x in chain && x != chain[k]
  {
    var after := RemovedChain(chain, k);
    forall x | x in chain && x != chain[k] ensures x in after {
      var i :| 0 <= i < |chain| && chain[i] == x;
      assert after[if i < k then i else i - 1] == x;
    }
  }

  /** Buckets from `i` on are still in the old array, `rest` is what is left of the bucket before, and the
      moved entries are in the new array. */
  ghost predicate Moving(list: seq<Option<nat>>, next: map<nat, Option<nat>>, chains: seq<seq<nat>>,
                         keys: map<nat, HashedKey>, entries: set<nat>, i: nat, h: Option<nat>, rest: seq<nat>,
                         newList: seq<Option<nat>>, newChains: seq<seq<nat>>, moved: set<nat>) {
    && Placed(chains, keys, entries) && |chains| == |list| && i <= |list|
    && (forall j :: i <= j < |list| ==> Chain(list[j], next, chains[j]))
    && Chain(h, next, rest) && NoRepeats(rest)
    && Chained(newList, next, newChains) && Placed(newChains, keys, moved) && moved <= entries
    && (forall x :: x in rest ==> x in entries && Bucket(keys[x], |list|) == i - 1)
    && (forall x :: x in entries && x !in moved <==> x in rest || (x in entries && Bucket(keys[x], |list|) >= i))
  }

  lemma MoveOne(list: seq<Option<nat>>, next: map<nat, Option<nat>>, chains: seq<seq<nat>>, keys: map<nat, HashedKey>,
                entries: set<nat>, i: nat, h: Option<nat>, rest: seq<nat>, newList: seq<Option<nat>>,
                newChains: seq<seq<nat>>, moved: set<nat>)
    requires Moving(list, next, chains, keys, entries, i, h, rest, newList, newChains, moved) && h.Some?
    ensures rest != [] && h.value in next && h.value in keys
    ensures var b := Bucket(keys[h.value], |newList|);
      Moving(list, next[h.value := newList[b]], chains, keys, entries, i, next[h.value], rest[1..],
             newList[b := h], newChains[b := [h.value] + newChains[b]], moved + {h.value})
  {
    var e := h.value;
    assert rest == [e] + rest[1..];
    var b := Bucket(keys[e], |newList|);
    var next' := next[e := newList[b]];
    forall j | i <= j < |list| ensures Chain(list[j], next', chains[j]) {
      assert BucketHolds(chains[j], keys, entries, |chains|, j);
      ChainFrom(list[j], next, chains[j], 0);
      ChainFrame(list[j], next, chains[j], next');
    }
    ChainFrom(next[e], next, rest[1..], 0);
    assert e !in rest[1..];
    ChainFrame(next[e], next, rest[1..], next');
    MovedChains(next, next', newList, newChains, keys, moved, e, b);
  }

  lemma MovedChains(next: map<nat, Option<nat>>, next': map<nat, Option<nat>>, newList: seq<Option<nat>>,
                    newChains: seq<seq<nat>>, keys: map<nat, HashedKey>, moved: set<nat>, e: nat, b: nat)
    requires Chained(newList, next, newChains) && Placed(newChains, keys, moved) && e in keys && e !in moved
    requires b == Bucket(keys[e], |newList|) && next' == next[e := newList[b]] && DistinctKeys(keys, moved + {e})
    ensures Chained(newList[b := Some(e)], next', newChains[b := [e] + newChains[b]])
    ensures Placed(newChains[b := [e] + newChains[b]], keys, moved + {e})
  {
    var chain := [e] + newChains[b];
    assert chain[1..] == newChains[b];
    forall j | 0 <= j < |newList|
      ensures Chain(newList[j], next', newChains[j]) && BucketHolds(newChains[j], keys, moved, |newChains|, j)
    {
      ChainFrom(newList[j], next, newChains[j], 0);
      ChainFrame(newList[j], next, newChains[j], next');
    }
  }
}
