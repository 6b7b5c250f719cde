/** One shard of the cache (LRUCache in util/cache.cc): a hash table, two circular lists and reference
    counts. Handles are named by numbers that stand for their addresses. */
module LruCaches {
  import opened Basics
  import opened CircularLists
  import opened HandleTables

  /** The dummy heads of the two lists. */
  const LRU: nat := 0
  const IN_USE: nat := 1

  datatype LRUHandle = LRUHandle(key: HashedKey, value: string, charge: nat, inCache: bool, refs: nat)

  // ---- the invariant, part by part ----

  /** Live handles have as many references as clients hold, and one more while they are in the cache;
      handles without references were deleted, once. */
  ghost predicate Counted(handles: map<nat, LRUHandle>, held: multiset<nat>, deleted: multiset<nat>, nextId: nat) {
    && 2 <= nextId && (forall h :: h in handles ==> 2 <= h < nextId)
    && (forall h :: h in handles ==>
       handles[h].refs == held[h] + (if handles[h].inCache then 1 else 0) && handles[h].refs > 0)
    && (forall h :: h in held ==> h in handles)
    && (forall h :: deleted[h] == if 2 <= h < nextId && h !in handles then 1 else 0)
  }

  predicate Idle(handles: map<nat, LRUHandle>, h: nat) {
    h in handles && handles[h].inCache && handles[h].refs == 1
  }

  predicate InUse(handles: map<nat, LRUHandle>, h: nat) {
    h in handles && handles[h].inCache && handles[h].refs >= 2
  }

  /** One list has the cached entries that only the cache refers to, the other the rest of them. */
  ghost predicate Listed(handles: map<nat, LRUHandle>, lru: seq<nat>, inUse: seq<nat>) {
    && (forall h :: h in lru <==> h == LRU || Idle(handles, h))
    && (forall h :: h in inUse <==> h == IN_USE || InUse(handles, h))
  }

  ghost predicate Lists(lru: seq<nat>, inUse: seq<nat>, next: map<nat, nat>, prev: map<nat, nat>) {
    && Ring<nat>(lru, next, prev) && lru[0] == LRU
    && Ring<nat>(inUse, next, prev) && inUse[0] == IN_USE
  }

  /** The table has the cached entries, under their keys, except those being erased. */
  ghost predicate InTable(handles: map<nat, LRUHandle>, entries: set<nat>, keys: map<nat, HashedKey>,
                          erasing: set<nat>) {
    && (forall h :: h in entries <==> h in handles && handles[h].inCache && h !in erasing)
    && (forall h :: h in entries ==> h in keys && keys[h] == handles[h].key)
  }

  /** The charges of the cached entries with numbers below `n`. */
  function Charges(handles: map<nat, LRUHandle>, n: nat): nat {
    if n == 0 then 0
    else Charges(handles, n - 1) + if n - 1 in handles && handles[n - 1].inCache then handles[n - 1].charge else 0
  }

  function Charge(handles: map<nat, LRUHandle>, h: nat): nat {
    if h in handles && handles[h].inCache then handles[h].charge else 0
  }

  lemma {:induction false} ChargesChange(handles: map<nat, LRUHandle>, handles': map<nat, LRUHandle>, h: nat, n: nat)
    requires forall x :: x != h ==> (x in handles <==> x in handles') && (x in handles ==> handles[x] == handles'[x])
    ensures Charges(handles', n) == Charges(handles, n) + if h < n then Charge(handles', h) - Charge(handles, h) else 0
  {
    if n > 0 {
      ChargesChange(handles, handles', h, n - 1);
    }
  }

  /** Counts, lists and usage agree with each other. */
  ghost predicate ShardInv(handles: map<nat, LRUHandle>, held: multiset<nat>, deleted: multiset<nat>, nextId: nat,
                           lru: seq<nat>, inUse: seq<nat>, usage: nat) {
    && Counted(handles, held, deleted, nextId) && Listed(handles, lru, inUse)
    && usage == Charges(handles, nextId)
  }

  // ---- list operations ----

  lemma RingsApart(a: seq<nat>, b: seq<nat>, next: map<nat, nat>, prev: map<nat, nat>, next': map<nat, nat>,
                   prev': map<nat, nat>)
    requires Ring<nat>(b, next, prev) && forall x :: x in a ==> x !in b
    requires forall x :: x !in a ==>
      (x in next ==> x in next' && next'[x] == next[x]) && (x in prev ==> x in prev' && prev'[x] == prev[x])
    ensures Ring<nat>(b, next', prev')
  {
    forall x | x in b ensures x in next && x in prev {
      var i :| 0 <= i < |b| && b[i] == x;
      assert LinkAt<nat>(b, next, prev, i);
    }
    SameLinks<nat>(b, next, prev, next', prev');
  }

  /** Taking an entry out of its list. */
  lemma RemoveKeeps(a: seq<nat>, b: seq<nat>, next: map<nat, nat>, prev: map<nat, nat>, k: nat)
    requires Ring<nat>(a, next, prev) && Ring<nat>(b, next, prev) && 0 < k < |a| && forall x :: x in a ==> x !in b
    ensures a[k] in next && a[k] in prev
    ensures var e := a[k]; var next', prev' := next[prev[e] := next[e]], prev[next[e] := prev[e]];
      Ring<nat>(Without<nat>(a, k), next', prev') && Ring<nat>(b, next', prev')
  {
    Unlink<nat>(a, next, prev, k);
    assert LinkAt<nat>(a, next, prev, k);
    var e := a[k];
    assert prev[e] in a && next[e] in a;
    RingsApart(a, b, next, prev, next[prev[e] := next[e]], prev[next[e] := prev[e]]);
  }

  /** Making an entry the newest of a list. */
  lemma AppendKeeps(a: seq<nat>, b: seq<nat>, next: map<nat, nat>, prev: map<nat, nat>, e: nat)
    requires Ring<nat>(a, next, prev) && Ring<nat>(b, next, prev) && (forall x :: x in a ==> x !in b) && e !in a
    requires e !in b
    ensures a[0] in prev
    ensures var next', prev' := next[e := a[0]][prev[a[0]] := e], prev[e := prev[a[0]]][a[0] := e];
      Ring<nat>(a + [e], next', prev') && Ring<nat>(b, next', prev')
  {
    Append<nat>(a, next, prev, e);
    assert LinkAt<nat>(a, next, prev, 0);
    assert prev[a[0]] in a && a[0] in a;
    RingsApart(a + [e], b, next, prev, next[e := a[0]][prev[a[0]] := e], prev[e := prev[a[0]]][a[0] := e]);
  }

  class LRUCache {
    var capacity: nat
    var usage: nat
    var handles: map<nat, LRUHandle>
    var next: map<nat, nat>
    var prev: map<nat, nat>
    var nextId: nat
    const table: HandleTable
    /** The two lists from their heads on, the handles clients hold, and the deleter calls so far. */
    ghost var lru: seq<nat>
    ghost var inUse: seq<nat>
    ghost var held: multiset<nat>
    ghost var deleted: multiset<nat>

    ghost predicate Shard()
      reads this
    {
      ShardInv(handles, held, deleted, nextId, lru, inUse, usage) && Lists(lru, inUse, next, prev)
    }

    ghost predicate Valid()
      reads this, table
    {
      Shard() && table.Valid() && InTable(handles, table.entries, table.keys, {})
    }

    constructor (capacity: nat)
      ensures Valid() && fresh(table) && held == multiset{} && handles == map[] && this.capacity == capacity
    {
      this.capacity, usage, handles, nextId := capacity, 0, map[], 2;
      next, prev := map[LRU := LRU, IN_USE := IN_USE], map[LRU := LRU, IN_USE := IN_USE];
      table := new HandleTable();
      lru, inUse, held, deleted := [LRU], [IN_USE], multiset{}, multiset{};
      new;
      assert LinkAt<nat>(lru, next, prev, 0) && LinkAt<nat>(inUse, next, prev, 0);
    }

    /** Takes an entry out of the list it is on. */
    method LruRemove(e: nat)
      requires Lists(lru, inUse, next, prev) && Apart(lru, inUse) && (e in lru || e in inUse) && e != LRU && e != IN_USE
      modifies this`next, this`prev, this`lru, this`inUse
      ensures Lists(lru, inUse, next, prev)
      ensures lru == Dropped(old(lru), e) && inUse == Dropped(old(inUse), e)
    {
      if e in lru {
        ghost var k :| 0 <= k < |lru| && lru[k] == e;
        RemoveKeeps(lru, inUse, next, prev, k);
        DroppedAt(lru, k);
        NotDropped(inUse, e);
      } else {
        ghost var k :| 0 <= k < |inUse| && inUse[k] == e;
        RemoveKeeps(inUse, lru, next, prev, k);
        DroppedAt(inUse, k);
        NotDropped(lru, e);
      }
      var before, after := prev[e], next[e];
      prev := prev[after := before];
      next := next[before := after];
      lru, inUse := Dropped(lru, e), Dropped(inUse, e);
    }

    /** Makes an entry the newest of a list. */
    method LruAppend(list: nat, e: nat)
      requires Lists(lru, inUse, next, prev) && Apart(lru, inUse) && e !in lru && e !in inUse
      requires (list == LRU || list == IN_USE)
      modifies this`next, this`prev, this`lru, this`inUse
      ensures Lists(lru, inUse, next, prev)
      ensures lru == (if list == LRU then old(lru) + [e] else old(lru))
      ensures inUse == (if list == IN_USE then old(inUse) + [e] else old(inUse))
    {
      AppendKeeps(if list == LRU then lru else inUse, if list == LRU then inUse else lru, next, prev, e);
      var last := prev[list];
      next := next[e := list][last := e];
      prev := prev[e := last][list := e];
      if list == LRU {
        lru := lru + [e];
      } else {
        inUse := inUse + [e];
      }
    }

    /** From one list to the newest end of the other. */
    method LruMove(list: nat, e: nat)
      requires Lists(lru, inUse, next, prev) && Apart(lru, inUse) && e != LRU && e != IN_USE
      requires (list == LRU && e in inUse) || (list == IN_USE && e in lru)
      modifies this`next, this`prev, this`lru, this`inUse
      ensures Lists(lru, inUse, next, prev)
      ensures if list == LRU then lru == old(lru) + [e] && inUse == Dropped(old(inUse), e)
        else lru == Dropped(old(lru), e) && inUse == old(inUse) + [e]
    {
      MovedApart(lru, inUse, e);
      LruRemove(e);
      LruAppend(list, e);
    }

    /** A client gets a reference to a cached entry. */
    method Ref(e: nat)
      requires Shard() && e in handles && handles[e].inCache
      modifies this
      ensures Shard() && held == old(held) + multiset{e} && handles == Referenced(old(handles), e, 1)
      ensures lru == Dropped(old(lru), e) && usage == old(usage) && capacity == old(capacity) && nextId == old(nextId)
      ensures deleted == old(deleted)
    {
      if handles[e].refs == 1 && handles[e].inCache {
        Unshelve(e);
      } else {
        RefKeeps(handles, held, deleted, nextId, lru, inUse, usage, e);
        handles, held := Referenced(handles, e, 1), held + multiset{e};
      }
    }

    method Unshelve(e: nat)
      requires Shard() && e in handles && handles[e].refs == 1 && handles[e].inCache
      modifies this`handles, this`held, this`next, this`prev, this`lru, this`inUse
      ensures Shard() && held == old(held) + multiset{e} && handles == Referenced(old(handles), e, 1)
      ensures lru == Dropped(old(lru), e)
    {
      RefKeeps(handles, held, deleted, nextId, lru, inUse, usage, e);
      LruMove(IN_USE, e);
      handles, held := Referenced(handles, e, 1), held + multiset{e};
    }

    /** A reference is given up. The last one takes the handle with it; the last one of a client makes a
        cached entry the newest of those nobody uses. */
    method Unref(e: nat)
      requires Shard() && e in held
      modifies this
      ensures Shard() && held == old(held) - multiset{e} && usage == old(usage) && capacity == old(capacity)
      ensures nextId == old(nextId)
      ensures e in old(handles)
      ensures if old(handles)[e].refs == 1 then handles == old(handles) - {e} && deleted == old(deleted) + multiset{e}
        else handles == Referenced(old(handles), e, -1) && deleted == old(deleted)
      ensures lru == if old(handles)[e].refs == 2 && old(handles)[e].inCache then old(lru) + [e] else old(lru)
    {
      if handles[e].refs == 1 {
        Deallocate(e);
      } else if handles[e].inCache && handles[e].refs == 2 {
        Shelve(e);
      } else {
        Lower(e);
      }
    }

    method Lower(e: nat)
      requires Shard() && e in held && e in handles && handles[e].refs != 1
      requires !(handles[e].inCache && handles[e].refs == 2)
      modifies this`handles, this`held
      ensures Shard() && held == old(held) - multiset{e} && old(handles)[e].refs > 1
      ensures handles == Referenced(old(handles), e, -1)
    {
      UnrefKeeps(handles, held, deleted, nextId, lru, inUse, usage, e);
      handles, held := Referenced(handles, e, -1), held - multiset{e};
    }

    method Deallocate(e: nat)
      requires Shard() && e in held && e in handles && handles[e].refs == 1
      modifies this`handles, this`held, this`deleted
      ensures Shard() && held == old(held) - multiset{e} && handles == old(handles) - {e}
      ensures deleted == old(deleted) + multiset{e}
    {
      UnrefKeeps(handles, held, deleted, nextId, lru, inUse, usage, e);
      handles, held, deleted := handles - {e}, held - multiset{e}, deleted + multiset{e};
    }

    method Shelve(e: nat)
      requires Shard() && e in held && e in handles && handles[e].refs == 2 && handles[e].inCache
      modifies this`handles, this`held, this`next, this`prev, this`lru, this`inUse
      ensures Shard() && held == old(held) - multiset{e} && handles == Referenced(old(handles), e, -1)
      ensures lru == old(lru) + [e]
    {
      ShelveKeeps(handles, held, deleted, nextId, lru, inUse, usage, e);
      LruMove(LRU, e);
      handles, held := Referenced(handles, e, -1), held - multiset{e};
    }

    /** Out of its list and no longer cached; the cache's own reference is still to be given up. */
    method Uncache(e: nat)
      requires Shard() && e in handles && handles[e].inCache
      modifies this`handles, this`held, this`usage, this`next, this`prev, this`lru, this`inUse
      ensures Shard() && held == old(held) + multiset{e}
      ensures handles == old(handles)[e := old(handles)[e].(inCache := false)]
      ensures usage == old(usage) - old(handles)[e].charge && lru == Dropped(old(lru), e)
    {
      UncacheKeeps(handles, held, deleted, nextId, lru, inUse, usage, e);
      LruRemove(e);
      usage := usage - handles[e].charge;
      handles, held := handles[e := handles[e].(inCache := false)], held + multiset{e};
    }

    /** Finishes the removal of an entry that has left the hash table. */
    method FinishErase(e: nat)
      requires Shard() && e in handles && handles[e].inCache
      modifies this
      ensures Shard() && held == old(held) && handles == Erased(old(handles), e) && lru == Dropped(old(lru), e)
      ensures usage == old(usage) - old(handles)[e].charge && capacity == old(capacity) && nextId == old(nextId)
      ensures deleted == old(deleted) + if old(handles)[e].refs == 1 then multiset{e} else multiset{}
    {
      ErasedIs(handles, held, e);
      Uncache(e);
      Unref(e);
    }

    method AddHandle(e: nat, h: LRUHandle)
      requires Shard() && e == nextId && h.refs == (if h.inCache then 2 else 1)
      modifies this
      ensures Shard() && nextId == old(nextId) + 1 && handles == old(handles)[e := h] && held == old(held) + multiset{e}
      ensures usage == old(usage) + (if h.inCache then h.charge else 0) && lru == old(lru) && capacity == old(capacity)
      ensures deleted == old(deleted)
    {
      AddKeeps(handles, held, deleted, nextId, lru, inUse, usage, h);
      if h.inCache {
        AddToUse(e, h.charge);
      }
      handles, held, nextId := handles[e := h], held + multiset{e}, nextId + 1;
    }

    method AddToUse(e: nat, charge: nat)
      requires Lists(lru, inUse, next, prev) && Apart(lru, inUse) && e !in lru && e !in inUse
      modifies this`usage, this`next, this`prev, this`lru, this`inUse
      ensures Lists(lru, inUse, next, prev) && lru == old(lru) && inUse == old(inUse) + [e]
      ensures usage == old(usage) + charge
    {
      LruAppend(IN_USE, e);
      usage := usage + charge;
    }

    /** A client gets hold of the entry with the key, if it is cached. */
    method Lookup(key: HashedKey) returns (found: Option<nat>)
      requires Valid()
      modifies this
      ensures Valid()
      ensures found.None? ==>
        && held == old(held) && handles == old(handles) && lru == old(lru) && usage == old(usage)
        && forall h :: h in handles && handles[h].inCache ==> handles[h].key != key
      ensures found.Some? ==> found.value in handles && handles[found.value].inCache && handles[found.value].key == key
      ensures found.Some? ==> held == old(held) + multiset{found.value} && lru == Dropped(old(lru), found.value)
      ensures found.Some? ==>
        && found.value in old(handles) && handles == Referenced(old(handles), found.value, 1)
        && usage == old(usage) && deleted == old(deleted)
    {
      found := table.Lookup(key);
      if found.Some? {
        Ref(found.value);
      }
    }

    /** A client gives a handle back. */
    method Release(h: nat)
      requires Valid() && h in held
      modifies this
      ensures Valid() && held == old(held) - multiset{h}
      ensures h in old(handles) && usage == old(usage)
      ensures deleted == old(deleted) + if old(handles)[h].refs == 1 then multiset{h} else multiset{}
      ensures handles == if old(handles)[h].refs == 1 then old(handles) - {h} else Referenced(old(handles), h, -1)
      ensures lru == if old(handles)[h].refs == 2 && old(handles)[h].inCache then old(lru) + [h] else old(lru)
    {
      Unref(h);
    }

    /** The key is not cached any more; clients keep what they hold. */
    method Erase(key: HashedKey)
      requires Valid()
      modifies this, table
      ensures Valid() && held == old(held) && StillThere()
      ensures forall h :: h in handles && handles[h].inCache ==> handles[h].key != key
      ensures exists removed :: ErasedFor(old(handles), old(lru), key, removed)
    {
      ghost var entries := table.entries;
      var removed := table.Remove(key);
      FoundIsCached(handles, entries, table.keys, key, removed);
      EraseFound(removed);
      assert ErasedFor(old(handles), old(lru), key, removed);
    }

    /** Finishes the removal of what the table has given up, if anything. */
    method EraseFound(found: Option<nat>)
      requires Shard() && (found.Some? ==> found.value in handles && handles[found.value].inCache)
      modifies this
      ensures Shard() && held == old(held) && capacity == old(capacity) && nextId == old(nextId) && StillThere()
      ensures found.Some? ==> old(handles)[found.value].refs > 0
      ensures handles == AfterErase(old(handles), found) && lru == WithoutReplaced(old(lru), found)
      ensures usage <= old(usage)
    {
      if found.Some? {
        HasReferences(handles, held, deleted, nextId, found.value);
        FinishErase(found.value);
      }
    }

    /** Exactly the entry with the key has left the cache. */
    ghost predicate ErasedFor(before: map<nat, LRUHandle>, unused: seq<nat>, key: HashedKey, removed: Option<nat>)
      reads this
    {
      CachedUnder(before, key, removed) && handles == AfterErase(before, removed)
      && lru == WithoutReplaced(unused, removed)
    }

    /** Whether the list of unused entries has any. */
    method HasIdle() returns (more: bool)
      requires Lists(lru, inUse, next, prev)
      ensures more <==> |lru| > 1
    {
      assert LinkAt<nat>(lru, next, prev, 0);
      SamePosition<nat>(lru, 0, After(0, |lru|));
      more := next[LRU] != LRU;
    }

    /** Drops the entry that nobody uses for the longest time. */
    method EvictOldest() returns (more: bool)
      requires Valid() && |lru| > 1
      modifies this, table
      ensures Valid() && HeldKept() && lru == [LRU] + old(lru)[2..]
      ensures more <==> |lru| > 1
      ensures handles == old(handles) - {old(lru)[1]} && deleted == old(deleted) + multiset{old(lru)[1]}
      ensures old(lru)[1] in old(handles) && usage == old(usage) - old(handles)[old(lru)[1]].charge
      ensures capacity == old(capacity) && nextId == old(nextId)
    {
      assert LinkAt<nat>(lru, next, prev, 0);
      var oldest := next[LRU];
      assert oldest in lru && Differ<nat>(lru, 0, 1);
      assert Idle(handles, oldest);
      var removed := table.Remove(handles[oldest].key);
      FinishErase(removed.value);
      more := HasIdle();
    }

    /** What clients hold stays as it is. */
    twostate predicate HeldKept()
      reads this
    {
      held == old(held) && forall h :: h in held ==> h in handles && h in old(handles) && handles[h] == old(handles)[h]
    }

    method Prune()
      requires Valid()
      modifies this, table
      ensures Valid() && HeldKept() && lru == [LRU] && EvictedOldest(old(handles), old(lru), |old(lru)| - 1)
    {
      ghost var gone := Evict(false);
    }

    /** The `gone` oldest unused entries are deleted; everything else is as it was. */
    ghost predicate EvictedOldest(before: map<nat, LRUHandle>, unused: seq<nat>, gone: nat)
      reads this
    {
      && gone < |unused| && lru == [LRU] + unused[gone + 1..]
      && handles == before - Members(unused[1..gone + 1])
    }

    /** So far, only looked into for an opened count. */
    ghost predicate EvictedSoFar(before: map<nat, LRUHandle>, unused: seq<nat>, gone: nat, untilFits: bool)
      reads this
    {
      forall x: nat {:trigger Opened(x)} ::
        Opened(x) && x == gone ==> EvictedOldest(before, unused, x) && (untilFits ==> HadToGo(before, unused, x))
    }

    /** They had to go: with the last of them the charges did not fit. */
    ghost predicate HadToGo(before: map<nat, LRUHandle>, unused: seq<nat>, gone: nat)
      reads this
    {
      0 < gone < |unused| ==> unused[gone] in before && usage + before[unused[gone]].charge > capacity
    }

    /** Drops unused entries, oldest first: all of them, or no more than it takes for the rest to fit. */
    method Evict(untilFits: bool) returns (ghost gone: nat)
      requires Valid()
      modifies this, table
      ensures Valid() && HeldKept() && capacity == old(capacity)
      ensures lru == [LRU] || (untilFits && usage <= capacity)
      ensures EvictedOldest(old(handles), old(lru), gone)
      ensures untilFits ==> HadToGo(old(handles), old(lru), gone)
      ensures untilFits && old(usage) <= capacity ==> gone == 0
    {
      var more := HasIdle();
      gone := 0;
      NothingEvicted(handles, lru);
      while more && (!untilFits || usage > capacity)
        invariant Valid() && HeldKept() && capacity == old(capacity) && (more <==> |lru| > 1)
        invariant EvictedSoFar(old(handles), old(lru), gone, untilFits)
        invariant untilFits && old(usage) <= capacity ==> gone == 0 && usage == old(usage)
        decreases |lru|
      {
        more := EvictNext(old(handles), old(lru), gone, untilFits);
        gone := gone + 1;
      }
      assert Opened(gone);
    }

    /** One more of them goes. */
    method EvictNext(ghost before: map<nat, LRUHandle>, ghost unused: seq<nat>, ghost gone: nat, untilFits: bool)
      returns (more: bool)
      requires Valid() && |lru| > 1 && EvictedSoFar(before, unused, gone, untilFits) && (untilFits ==> usage > capacity)
      modifies this, table
      ensures Valid() && HeldKept() && capacity == old(capacity) && (more <==> |lru| > 1)
      ensures EvictedSoFar(before, unused, gone + 1, untilFits) && |lru| < |old(lru)|
    {
      assert Opened(gone);
      OneMoreEvicted(before, unused, gone);
      more := EvictOldest();
    }

    /** Clients can still use what they held before. */
    twostate predicate StillThere()
      reads this
    {
      forall h :: h in old(held) ==>
        && h in handles && h in old(handles) && handles[h].key == old(handles)[h].key
        && handles[h].value == old(handles)[h].value
    }

    /** No other entry is cached under the key. */
    ghost predicate OnlyOne(e: nat, key: HashedKey)
      reads this
    {
      forall h :: h in handles && handles[h].inCache && handles[h].key == key ==> h == e
    }

    method Admit(key: HashedKey, value: string, charge: nat) returns (e: nat, ghost replaced: Option<nat>)
      requires Valid()
      modifies this, table
      ensures Valid() && e !in old(handles) && e !in old(held) && held == old(held) + multiset{e}
      ensures capacity == old(capacity) && StillThere() && (capacity > 0 ==> OnlyOne(e, key))
      ensures e in handles && handles[e] == LRUHandle(key, value, charge, capacity > 0, if capacity > 0 then 2 else 1)
      ensures Replaces(old(handles), capacity, key, replaced) && replaced != Some(e)
      ensures handles == AfterErase(old(handles), replaced)[e := handles[e]]
      ensures lru == WithoutReplaced(old(lru), replaced) && usage <= old(usage) + charge
    {
      e, replaced := nextId, None;
      ghost var before, handle := handles, LRUHandle(key, value, charge, capacity > 0, if capacity > 0 then 2 else 1);
      AddHandle(e, LRUHandle(key, value, charge, capacity > 0, if capacity > 0 then 2 else 1));
      if capacity > 0 {
        replaced := Cache(e, key);
        AdmittedIs(before, e, handle, key, replaced);
      }
    }

    /** Puts a new handle into the hash table, in place of the entry with its key. */
    method Cache(e: nat, key: HashedKey) returns (replaced: Option<nat>)
      requires Shard() && table.Valid() && e in handles && handles[e].inCache && handles[e].key == key
      requires handles[e].refs == 2
      requires e !in table.entries && InTable(handles, table.entries, table.keys, {e})
      modifies this, table
      ensures Valid() && held == old(held) && capacity == old(capacity) && e in handles && handles[e] == old(handles)[e]
      ensures StillThere() && OnlyOne(e, key)
      ensures CachedUnder(old(handles) - {e}, key, replaced) && replaced != Some(e)
      ensures handles == AfterErase(old(handles), replaced) && lru == WithoutReplaced(old(lru), replaced)
      ensures usage <= old(usage)
    {
      ghost var entries, keys := table.entries, table.keys;
      replaced := table.Insert(e, key);
      ReplacedIsCached(handles, entries, keys, e, key, replaced);
      CachedInTable(handles, entries, keys, e, replaced);
      EraseFound(replaced);
      CachedOnce(e, key);
    }

    /** A table has no key twice. */
    lemma CachedOnce(e: nat, key: HashedKey)
      requires Valid() && e in handles && handles[e].inCache && handles[e].key == key
      ensures OnlyOne(e, key)
    {
      forall h | h in handles && handles[h].inCache && handles[h].key == key ensures h == e {
        assert h in table.entries && e in table.entries;
      }
    }

    /** A new entry replaces the one with its key; then the oldest unused entries go until the rest fits. */
    method Insert(key: HashedKey, value: string, charge: nat) returns (e: nat)
      requires Valid()
      modifies this, table
      ensures Valid() && e !in old(handles) && held == old(held) + multiset{e} && capacity == old(capacity)
      ensures e in handles && handles[e] == LRUHandle(key, value, charge, capacity > 0, if capacity > 0 then 2 else 1)
      ensures usage <= capacity || lru == [LRU]
      ensures StillThere() && (capacity > 0 ==> OnlyOne(e, key))
      ensures exists replaced, gone :: InsertedFor(old(handles), old(lru), e, key, replaced, gone)
      ensures forall h :: Other(old(handles), capacity, key, h) ==>
        if h in handles then handles[h] == old(handles)[h] else h in old(lru) && old(usage) + charge > capacity
    {
      ghost var replaced;
      e, replaced := Admit(key, value, charge);
      ghost var admitted, unused := handles, lru;
      ghost var gone := Evict(true);
      assert InsertedFor(old(handles), old(lru), e, key, replaced, gone);
      OthersStay(old(handles), old(lru), admitted, unused, handles, gone, capacity, key, e, replaced);
    }

    /** What an insertion leaves: the new entry takes the place of the one with its key, if there is one, and of the
        unused entries that remain then, the `gone` oldest are deleted because they had to go. Everything else is as
        it was. */
    ghost predicate InsertedFor(before: map<nat, LRUHandle>, unused: seq<nat>, e: nat, key: HashedKey,
                                replaced: Option<nat>, gone: nat)
      reads this
    {
      && e in handles && Replaces(before, capacity, key, replaced)
      && var admitted := AfterErase(before, replaced)[e := handles[e]];
         var left := WithoutReplaced(unused, replaced);
         EvictedOldest(admitted, left, gone) && HadToGo(admitted, left, gone)
    }
  }

  ghost function Members(s: seq<nat>): set<nat> {
    set h | h in s
  }

  lemma NothingEvicted(handles: map<nat, LRUHandle>, lru: seq<nat>)
    requires lru != [] && lru[0] == LRU
    ensures lru == [LRU] + lru[1..] && handles - Members(lru[1..1]) == handles
  {
  }

  lemma OneMoreEvicted(handles: map<nat, LRUHandle>, lru: seq<nat>, gone: nat)
    requires gone + 1 < |lru|
    ensures ([LRU] + lru[gone + 1..])[2..] == lru[gone + 2..] && ([LRU] + lru[gone + 1..])[1] == lru[gone + 1]
    ensures handles - Members(lru[1..gone + 1]) - {lru[gone + 1]} == handles - Members(lru[1..gone + 2])
  {
    assert lru[1..gone + 2] == lru[1..gone + 1] + [lru[gone + 1]];
  }

  /** The entry that is cached under the key, if there is one. */
  ghost predicate CachedUnder(handles: map<nat, LRUHandle>, key: HashedKey, found: Option<nat>) {
    match found
    case Some(h) => h in handles && handles[h].inCache && handles[h].refs > 0 && handles[h].key == key
    case None => forall h :: h in handles && handles[h].inCache ==> handles[h].key != key
  }

  /** What the table finds is what is cached. */
  lemma FoundIsCached(handles: map<nat, LRUHandle>, entries: set<nat>, keys: map<nat, HashedKey>, key: HashedKey,
                      found: Option<nat>)
    requires InTable(handles, entries, keys, {}) && Matches(keys, entries, key, found)
    requires forall h :: h in handles ==> handles[h].refs > 0
    ensures CachedUnder(handles, key, found)
  {
  }

  lemma ReplacedIsCached(handles: map<nat, LRUHandle>, entries: set<nat>, keys: map<nat, HashedKey>, e: nat,
                         key: HashedKey, replaced: Option<nat>)
    requires InTable(handles, entries, keys, {e}) && e !in entries && Matches(keys, entries, key, replaced)
    requires forall h :: h in handles ==> handles[h].refs > 0
    ensures CachedUnder(handles - {e}, key, replaced) && replaced != Some(e)
  {
  }

  lemma AdmittedIs(before: map<nat, LRUHandle>, e: nat, h: LRUHandle, key: HashedKey, replaced: Option<nat>)
    requires e !in before && CachedUnder(before[e := h] - {e}, key, replaced) && replaced != Some(e)
    ensures CachedUnder(before, key, replaced)
    ensures AfterErase(before[e := h], replaced) == AfterErase(before, replaced)[e := h]
  {
    assert before[e := h] - {e} == before;
  }

  /** Cached under another key, or whatever is cached in a cache that takes nothing in. */
  predicate Other(handles: map<nat, LRUHandle>, capacity: nat, key: HashedKey, h: nat) {
    h in handles && handles[h].inCache && (capacity == 0 || handles[h].key != key)
  }

  lemma OthersStay(before: map<nat, LRUHandle>, lru: seq<nat>, admitted: map<nat, LRUHandle>, unused: seq<nat>,
                   after: map<nat, LRUHandle>, gone: nat, capacity: nat, key: HashedKey, e: nat,
                   replaced: Option<nat>)
    requires e !in before && e in admitted && Replaces(before, capacity, key, replaced) && replaced != Some(e)
    requires admitted == AfterErase(before, replaced)[e := admitted[e]] && unused == WithoutReplaced(lru, replaced)
    requires gone < |unused| && after == admitted - Members(unused[1..gone + 1])
    ensures forall h :: Other(before, capacity, key, h) ==>
      if h in after then after[h] == before[h] else h in lru && gone > 0
  {
    if replaced.Some? {
      DroppedAreThere(lru, replaced.value);
    }
  }

  lemma {:induction false} DroppedAreThere(s: seq<nat>, e: nat)
    ensures forall x :: x in Dropped(s, e) ==> x in s
  {
    if s != [] && s[0] != e {
      DroppedAreThere(s[1..], e);
    }
  }

  lemma HasReferences(handles: map<nat, LRUHandle>, held: multiset<nat>, deleted: multiset<nat>, nextId: nat, h: nat)
    requires Counted(handles, held, deleted, nextId) && h in handles
    ensures handles[h].refs > 0
  {
  }

  /** A cache without capacity replaces nothing. */
  ghost predicate Replaces(handles: map<nat, LRUHandle>, capacity: nat, key: HashedKey, replaced: Option<nat>) {
    if capacity == 0 then replaced.None? else CachedUnder(handles, key, replaced)
  }

  function AfterErase(handles: map<nat, LRUHandle>, removed: Option<nat>): map<nat, LRUHandle>
    requires removed.Some? ==> removed.value in handles && handles[removed.value].refs > 0
  {
    if removed.Some? then Erased(handles, removed.value) else handles
  }

  ghost function WithoutReplaced(lru: seq<nat>, replaced: Option<nat>): seq<nat> {
    if replaced.Some? then Dropped(lru, replaced.value) else lru
  }

  function Erased(handles: map<nat, LRUHandle>, e: nat): map<nat, LRUHandle>
    requires e in handles && handles[e].refs > 0
  {
    if handles[e].refs == 1 then handles - {e}
      else handles[e := handles[e].(inCache := false, refs := handles[e].refs - 1)]
  }

  lemma CachedInTable(handles: map<nat, LRUHandle>, entries: set<nat>, keys: map<nat, HashedKey>, e: nat,
                      replaced: Option<nat>)
    requires InTable(handles, entries, keys, {e}) && e in handles && handles[e].inCache && e !in entries
    requires replaced.Some? ==> replaced.value in entries && handles[replaced.value].refs > 0
    ensures replaced.Some? ==> replaced.value in handles && handles[replaced.value].inCache && replaced.value != e
    ensures InTable(if replaced.Some? then Erased(handles, replaced.value) else handles,
                    entries - Lone(replaced) + {e}, keys[e := handles[e].key], {})
  {
  }

  lemma ErasedIs(handles: map<nat, LRUHandle>, held: multiset<nat>, e: nat)
    requires e in handles && handles[e].refs > 0
    ensures (held + multiset{e}) - multiset{e} == held
    ensures var uncached := handles[e := handles[e].(inCache := false)];
      Erased(handles, e) == if handles[e].refs == 1 then uncached - {e} else Referenced(uncached, e, -1)
  {
  }

  lemma UncacheKeeps(handles: map<nat, LRUHandle>, held: multiset<nat>, deleted: multiset<nat>, nextId: nat,
                     lru: seq<nat>, inUse: seq<nat>, usage: nat, e: nat)
    requires ShardInv(handles, held, deleted, nextId, lru, inUse, usage) && e in handles && handles[e].inCache
    requires Distinct<nat>(lru) && Distinct<nat>(inUse)
    ensures Apart(lru, inUse) && (e in lru || e in inUse) && e >= 2 && handles[e].charge <= usage && handles[e].refs > 0
    ensures ShardInv(handles[e := handles[e].(inCache := false)], held + multiset{e}, deleted, nextId, Dropped(lru, e),
      Dropped(inUse, e), usage - handles[e].charge)
  {
    var handles' := handles[e := handles[e].(inCache := false)];
    ListsApart(handles, held, deleted, nextId, lru, inUse);
    ChargesChange(handles, handles', e, nextId);
    assert Idle(handles, e) || InUse(handles, e);
    DroppedMembers(lru, e);
    DroppedMembers(inUse, e);
  }

  lemma DroppedMembers(s: seq<nat>, e: nat)
    requires Distinct<nat>(s)
    ensures forall x :: x in Dropped(s, e) <==> x in s && x != e
  {
    NotDropped(s, e);
    if e in s {
      var k :| 0 <= k < |s| && s[k] == e;
      DroppedAt(s, k);
    }
  }

  lemma AddKeeps(handles: map<nat, LRUHandle>, held: multiset<nat>, deleted: multiset<nat>, nextId: nat, lru: seq<nat>,
                 inUse: seq<nat>, usage: nat, h: LRUHandle)
    requires ShardInv(handles, held, deleted, nextId, lru, inUse, usage) && h.refs == if h.inCache then 2 else 1
    ensures Apart(lru, inUse) && nextId !in lru && nextId !in inUse
    ensures ShardInv(handles[nextId := h], held + multiset{nextId}, deleted, nextId + 1, lru,
                     if h.inCache then inUse + [nextId] else inUse,
                     usage + if h.inCache then h.charge else 0)
  {
    ListsApart(handles, held, deleted, nextId, lru, inUse);
    ChargesChange(handles, handles[nextId := h], nextId, nextId + 1);
    assert nextId !in handles;
  }

  lemma MovedApart(lru: seq<nat>, inUse: seq<nat>, e: nat)
    requires Distinct<nat>(lru) && Distinct<nat>(inUse) && Apart(lru, inUse)
    ensures e in lru ==>
      Dropped(inUse, e) == inUse && e !in inUse && e !in Dropped(lru, e) && Apart(Dropped(lru, e), inUse)
    ensures e in inUse ==>
      Dropped(lru, e) == lru && e !in lru && e !in Dropped(inUse, e) && Apart(lru, Dropped(inUse, e))
  {
    NotDropped(lru, e);
    NotDropped(inUse, e);
    if e in lru {
      var k :| 0 <= k < |lru| && lru[k] == e;
      DroppedAt(lru, k);
    } else if e in inUse {
      var k :| 0 <= k < |inUse| && inUse[k] == e;
      DroppedAt(inUse, k);
    }
  }

  lemma RefKeeps(handles: map<nat, LRUHandle>, held: multiset<nat>, deleted: multiset<nat>, nextId: nat, lru: seq<nat>,
                 inUse: seq<nat>, usage: nat, e: nat)
    requires ShardInv(handles, held, deleted, nextId, lru, inUse, usage) && e in handles && handles[e].inCache
    requires Distinct<nat>(lru) && Distinct<nat>(inUse)
    ensures Apart(lru, inUse) && handles[e].refs > 0 && e >= 2
    ensures handles[e].refs == 1 ==> e in lru
    ensures handles[e].refs != 1 ==> Dropped(lru, e) == lru
    ensures ShardInv(Referenced(handles, e, 1), held + multiset{e}, deleted, nextId, Dropped(lru, e),
      if handles[e].refs == 1 then inUse + [e] else inUse, usage)
  {
    ListsApart(handles, held, deleted, nextId, lru, inUse);
    ChargesChange(handles, Referenced(handles, e, 1), e, nextId);
    RefListed(handles, lru, inUse, e);
    NotDropped(lru, e);
    NotDropped(inUse, e);
  }

  lemma UnrefKeeps(handles: map<nat, LRUHandle>, held: multiset<nat>, deleted: multiset<nat>, nextId: nat,
                   lru: seq<nat>, inUse: seq<nat>, usage: nat, e: nat)
    requires ShardInv(handles, held, deleted, nextId, lru, inUse, usage) && e in held && Distinct<nat>(lru)
    requires Distinct<nat>(inUse)
    ensures Apart(lru, inUse) && e in handles && handles[e].refs > 0 && e >= 2
    ensures if handles[e].refs == 1
      then ShardInv(handles - {e}, held - multiset{e}, deleted + multiset{e}, nextId, lru, inUse, usage)
      else if handles[e].refs == 2 && handles[e].inCache then
        && e in inUse
        && ShardInv(Referenced(handles, e, -1), held - multiset{e}, deleted, nextId, lru + [e], Dropped(inUse, e),
           usage)
      else ShardInv(Referenced(handles, e, -1), held - multiset{e}, deleted, nextId, lru, inUse, usage)
  {
    ListsApart(handles, held, deleted, nextId, lru, inUse);
    if handles[e].refs == 1 {
      UnrefLast(handles, held, deleted, nextId, lru, inUse, e);
      ChargesChange(handles, handles - {e}, e, nextId);
    } else {
      ChargesChange(handles, Referenced(handles, e, -1), e, nextId);
      UnrefListed(handles, held, lru, inUse, e);
      NotDropped(lru, e);
    }
  }

  lemma ShelveKeeps(handles: map<nat, LRUHandle>, held: multiset<nat>, deleted: multiset<nat>, nextId: nat,
                    lru: seq<nat>, inUse: seq<nat>, usage: nat, e: nat)
    requires ShardInv(handles, held, deleted, nextId, lru, inUse, usage) && e in held && Distinct<nat>(lru)
    requires Distinct<nat>(inUse) && e in handles && handles[e].refs == 2 && handles[e].inCache
    ensures Apart(lru, inUse) && e >= 2 && e in inUse
    ensures ShardInv(Referenced(handles, e, -1), held - multiset{e}, deleted, nextId, lru + [e], Dropped(inUse, e),
                     usage)
  {
    UnrefKeeps(handles, held, deleted, nextId, lru, inUse, usage, e);
  }

  ghost predicate Apart(a: seq<nat>, b: seq<nat>) {
    forall x :: x in a ==> x !in b
  }

  ghost function Dropped(s: seq<nat>, e: nat): seq<nat> {
    if s == [] then [] else if s[0] == e then s[1..] else [s[0]] + Dropped(s[1..], e)
  }

  lemma {:induction false} DroppedAt(s: seq<nat>, k: nat)
    requires Distinct<nat>(s) && k < |s|
    ensures Dropped(s, s[k]) == Without<nat>(s, k)
    ensures forall x :: x in Dropped(s, s[k]) <==> x in s && x != s[k]
  {
    WithoutMembers<nat>(s, k);
    if k > 0 {
      assert Differ<nat>(s, 0, k);
      forall i, j | 0 <= i < j < |s| - 1 ensures Differ<nat>(s[1..], i, j) {
        assert Differ<nat>(s, i + 1, j + 1);
      }
      DroppedAt(s[1..], k - 1);
    }
  }

  lemma {:induction false} NotDropped(s: seq<nat>, e: nat)
    ensures e !in s ==> Dropped(s, e) == s
  {
    if s != [] && s[0] != e {
      NotDropped(s[1..], e);
      assert s == [s[0]] + s[1..];
    }
  }

  function Referenced(handles: map<nat, LRUHandle>, e: nat, change: int): map<nat, LRUHandle>
    requires e in handles && handles[e].refs + change >= 0
  {
    handles[e := handles[e].(refs := handles[e].refs + change)]
  }

  lemma ListsApart(handles: map<nat, LRUHandle>, held: multiset<nat>, deleted: multiset<nat>, nextId: nat,
                   lru: seq<nat>, inUse: seq<nat>)
    requires Counted(handles, held, deleted, nextId) && Listed(handles, lru, inUse)
    ensures Apart(lru, inUse)
  {
  }

  lemma RefListed(handles: map<nat, LRUHandle>, lru: seq<nat>, inUse: seq<nat>, e: nat)
    requires Listed(handles, lru, inUse) && Distinct<nat>(lru) && Distinct<nat>(inUse) && e in handles && e >= 2
    requires handles[e].inCache && handles[e].refs > 0
    ensures if handles[e].refs == 1
      then e in lru && e !in inUse && (forall x :: x in Dropped(lru, e) <==> x in lru && x != e) &&
        Listed(Referenced(handles, e, 1), Dropped(lru, e), inUse + [e])
      else e !in lru && Listed(Referenced(handles, e, 1), lru, inUse)
  {
    if handles[e].refs == 1 {
      assert Idle(handles, e) && e in lru;
      var k :| 0 <= k < |lru| && lru[k] == e;
      DroppedAt(lru, k);
    }
  }

  lemma UnrefListed(handles: map<nat, LRUHandle>, held: multiset<nat>, lru: seq<nat>, inUse: seq<nat>, e: nat)
    requires Listed(handles, lru, inUse) && Distinct<nat>(lru) && Distinct<nat>(inUse) && e in handles && e >= 2
    requires handles[e].refs >= 2
    ensures if handles[e].refs == 2 && handles[e].inCache then
        && e in inUse && e !in lru && (forall x :: x in Dropped(inUse, e) <==> x in inUse && x != e)
        && Listed(Referenced(handles, e, -1), lru + [e], Dropped(inUse, e))
      else Listed(Referenced(handles, e, -1), lru, inUse)
  {
    if handles[e].refs == 2 && handles[e].inCache {
      assert InUse(handles, e) && e in inUse;
      var k :| 0 <= k < |inUse| && inUse[k] == e;
      DroppedAt(inUse, k);
    }
  }

  /** The last reference was a client's: the entry was not in the cache any more. */
  lemma UnrefLast(handles: map<nat, LRUHandle>, held: multiset<nat>, deleted: multiset<nat>, nextId: nat, lru: seq<nat>,
                  inUse: seq<nat>, e: nat)
    requires Counted(handles, held, deleted, nextId) && Listed(handles, lru, inUse) && e in held && handles[e].refs == 1
    ensures !handles[e].inCache && held[e] == 1
    ensures Counted(handles - {e}, held - multiset{e}, deleted + multiset{e}, nextId)
    ensures Listed(handles - {e}, lru, inUse)
  {
    var handles' := handles - {e};
    forall h ensures (Idle(handles', h) <==> Idle(handles, h)) && (InUse(handles', h) <==> InUse(handles, h)) {
    }
  }
}
