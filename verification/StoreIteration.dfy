/** Iterators of users over the running database (DBImpl::NewIterator of db/db_impl.cc with db/db_iter.cc): the map
    that a DBIter walks is the map of the last writes. */
module StoreIteration {
  import opened Basics
  import opened InternalKeys
  import opened StoreReads
  import opened DBIters
  import opened Durability

  /** Whatever the database has been through, compactions so far having been harmless: the iterator at the latest
      sequence number or a live snapshot, over the union of memtables and tables, shows in order of their user keys
      exactly the values last written at or before it. */
  lemma IteratorShowsLastWrites(states: seq<State>, steps: seq<Step>, n: nat, merged: seq<Entry>,
                                snapshot: SequenceNumber)
    requires Run(states, steps) && n <= |steps| && HarmlessUpTo(states, steps, n) && states[n].process.Up?
    requires snapshot == states[n].process.memory.lastSequence || snapshot in states[n].process.memory.snapshots
    requires SortedKeys(merged) && SetOf(merged) == Store(states[n].process.memory)
    ensures snapshot <= |states[n].written| && SortedUsers(View(merged, snapshot))
    ensures forall user, value ::
      Pair(user, value) in View(merged, snapshot) <==>
        LastWrite(states[n].written[..snapshot], user) == Some(value)
  {
    RunKeepsInv(states, steps, n);
    StateIsReadable(states[n]);
    ViewIsReads(merged, snapshot);
    forall user
      ensures snapshot <= |states[n].written|
      ensures Lookup(SetOf(merged), user, snapshot) == LastWrite(states[n].written[..snapshot], user)
    {
      RunServesReads(states, steps, n, user, snapshot);
    }
  }
}
