/** What a compaction may drop, and exactly when no reader can tell (the drop rule of
    DoCompactionWork in db/db_impl.cc), stated on sets of entries. */
module CompactionReads {
  import opened Basics
  import opened InternalKeys

  /** Hidden by a newer entry that every snapshot still in use sees. */
  ghost predicate Hidden(inputs: set<Entry>, e: Entry, smallest: SequenceNumber) {
    exists o :: o in inputs && o.key.user == e.key.user && e.key.sequence < o.key.sequence <= smallest
  }

  /** A deletion marker with nothing to hide in deeper levels. */
  predicate Obsolete(e: Entry, smallest: SequenceNumber, baseUsers: iset<UserKey>) {
    e.key.kind.Deletion? && e.key.sequence <= smallest && e.key.user in baseUsers
  }

  /** `kept` is what the drop rule leaves of `inputs`. */
  ghost predicate KeptBy(inputs: set<Entry>, kept: set<Entry>, smallest: SequenceNumber, baseUsers: iset<UserKey>) {
    forall e :: e in kept <==> e in inputs && !Hidden(inputs, e, smallest) && !Obsolete(e, smallest, baseUsers)
  }

  /** The inputs hold an entry for a reader that may still be there: it is the newest one that the reader sees. */
  ghost predicate StillSeen(inputs: set<Entry>, e: Entry, smallest: SequenceNumber) {
    exists snapshot: SequenceNumber :: snapshot >= smallest && Newest(inputs, e.key.user, snapshot, e)
  }

  /** What is kept is what some reader still sees, except deletion markers with nothing to hide: nothing that is
      dropped was of use, and nothing useless is kept. */
  lemma KeptExactlyIfSeen(inputs: set<Entry>, kept: set<Entry>, smallest: SequenceNumber, baseUsers: iset<UserKey>,
                          e: Entry)
    requires KeptBy(inputs, kept, smallest, baseUsers)
    ensures e in kept <==> StillSeen(inputs, e, smallest) && !Obsolete(e, smallest, baseUsers)
  {
    if e in inputs && !Hidden(inputs, e, smallest) {
      var snapshot := if e.key.sequence < smallest then smallest else e.key.sequence;
      assert Newest(inputs, e.key.user, snapshot, e);
    }
  }

  /** A deletion marker of the inputs is the newest entry of `user` that the oldest snapshot sees, it is
      dropped, and the entries that are not inputs hold a value for `user`. */
  ghost predicate Resurfaces(rest: set<Entry>, inputs: set<Entry>, smallest: SequenceNumber, baseUsers: iset<UserKey>,
                             user: UserKey) {
    && user in baseUsers
    && (exists d :: d in inputs && d !in rest && d.key.kind.Deletion? && Newest(rest + inputs, user, smallest, d))
    && (exists o: Entry :: o.key.kind.Put? && Newest(rest, user, smallest, o))
  }

  ghost predicate ReadsPreserved(before: set<Entry>, after: set<Entry>, smallest: SequenceNumber) {
    forall user, snapshot: SequenceNumber :: SameRead(before, after, smallest, user, snapshot)
  }

  ghost predicate SameRead(before: set<Entry>, after: set<Entry>, smallest: SequenceNumber, user: UserKey,
                           snapshot: SequenceNumber) {
    snapshot >= smallest ==> Lookup(before, user, snapshot) == Lookup(after, user, snapshot)
  }

  /** Compaction preserves every read at the oldest snapshot or later exactly when no dropped marker
      uncovers a value. */
  lemma ReadsPreservedExactly(rest: set<Entry>, inputs: set<Entry>, kept: set<Entry>, smallest: SequenceNumber,
                              baseUsers: iset<UserKey>)
    requires UniqueSequences(rest + inputs) && KeptBy(inputs, kept, smallest, baseUsers)
    ensures ReadsPreserved(rest + inputs, rest + kept, smallest)
      <==> forall user :: !Resurfaces(rest, inputs, smallest, baseUsers, user)
  {
    if forall user :: !Resurfaces(rest, inputs, smallest, baseUsers, user) {
      forall user, snapshot: SequenceNumber ensures SameRead(rest + inputs, rest + kept, smallest, user, snapshot) {
        if snapshot >= smallest {
          NoDifference(rest, inputs, kept, smallest, baseUsers, user, snapshot);
        }
      }
    } else {
      var user :| Resurfaces(rest, inputs, smallest, baseUsers, user);
      Difference(rest, inputs, kept, smallest, baseUsers, user);
      assert !SameRead(rest + inputs, rest + kept, smallest, user, smallest);
    }
  }

  lemma NoDifference(rest: set<Entry>, inputs: set<Entry>, kept: set<Entry>, smallest: SequenceNumber,
                     baseUsers: iset<UserKey>, user: UserKey, snapshot: SequenceNumber)
    requires UniqueSequences(rest + inputs) && KeptBy(inputs, kept, smallest, baseUsers)
    requires snapshot >= smallest && !Resurfaces(rest, inputs, smallest, baseUsers, user)
    ensures Lookup(rest + inputs, user, snapshot) == Lookup(rest + kept, user, snapshot)
  {
    var before, after := rest + inputs, rest + kept;
    if some :| some in before && VisibleTo(some, user, snapshot) {
      var n := NewestExists(before, user, snapshot, some);
      LookupIsNewest(before, user, snapshot, n);
      if n in after {
        assert Newest(after, user, snapshot, n);
        LookupIsNewest(after, user, snapshot, n);
      } else {
        DroppedIsObsolete(rest, inputs, kept, smallest, baseUsers, user, snapshot, n);
        UncoversNothing(rest, inputs, kept, smallest, baseUsers, user, snapshot, n);
      }
    } else {
      LookupNothing(before, user, snapshot);
      LookupNothing(after, user, snapshot);
    }
  }

  /** Of the dropped entries only an obsolete marker can be visible. */
  lemma DroppedIsObsolete(rest: set<Entry>, inputs: set<Entry>, kept: set<Entry>, smallest: SequenceNumber,
                          baseUsers: iset<UserKey>, user: UserKey, snapshot: SequenceNumber, n: Entry)
    requires KeptBy(inputs, kept, smallest, baseUsers) && snapshot >= smallest
    requires Newest(rest + inputs, user, snapshot, n) && n !in rest + kept
    ensures Obsolete(n, smallest, baseUsers) && n in inputs && n !in rest
  {
    forall o | o in inputs && o.key.user == n.key.user && o.key.sequence <= smallest
      ensures o.key.sequence <= n.key.sequence
    {
      assert o in rest + inputs && VisibleTo(o, user, snapshot);
    }
  }

  lemma UncoversNothing(rest: set<Entry>, inputs: set<Entry>, kept: set<Entry>, smallest: SequenceNumber,
                        baseUsers: iset<UserKey>, user: UserKey, snapshot: SequenceNumber, n: Entry)
    requires UniqueSequences(rest + inputs) && KeptBy(inputs, kept, smallest, baseUsers) && snapshot >= smallest
    requires Newest(rest + inputs, user, snapshot, n) && Obsolete(n, smallest, baseUsers) && n in inputs && n !in rest
    requires !Resurfaces(rest, inputs, smallest, baseUsers, user)
    ensures Lookup(rest + kept, user, snapshot) == None
  {
    var after := rest + kept;
    assert Newest(rest + inputs, user, smallest, n) by {
      forall o | o in rest + inputs && VisibleTo(o, user, smallest) ensures o.key.sequence <= n.key.sequence {
        assert VisibleTo(o, user, snapshot);
      }
    }
    if some :| some in after && VisibleTo(some, user, snapshot) {
      var o := NewestExists(after, user, snapshot, some);
      LookupIsNewest(after, user, snapshot, o);
      assert o in rest + inputs && VisibleTo(o, user, snapshot);
      assert n in rest + inputs;
      assert o.key.sequence < n.key.sequence;
      assert Hidden(inputs, o, smallest);
      assert o in rest;
      assert Newest(rest, user, smallest, o) by {
        forall p | p in rest && VisibleTo(p, user, smallest) ensures p.key.sequence <= o.key.sequence {
          assert p in after && VisibleTo(p, user, snapshot);
        }
      }
      assert !o.key.kind.Put?;
    } else {
      LookupNothing(after, user, snapshot);
    }
  }

  lemma Difference(rest: set<Entry>, inputs: set<Entry>, kept: set<Entry>, smallest: SequenceNumber,
                   baseUsers: iset<UserKey>, user: UserKey)
    requires UniqueSequences(rest + inputs) && KeptBy(inputs, kept, smallest, baseUsers)
    requires Resurfaces(rest, inputs, smallest, baseUsers, user)
    ensures Lookup(rest + inputs, user, smallest) == None
    ensures Lookup(rest + kept, user, smallest).Some?
  {
    var d :| d in inputs && d !in rest && d.key.kind.Deletion? && Newest(rest + inputs, user, smallest, d);
    var o: Entry :| o.key.kind.Put? && Newest(rest, user, smallest, o);
    LookupIsNewest(rest + inputs, user, smallest, d);
    assert o in rest + inputs && VisibleTo(o, user, smallest);
    forall p | p in inputs && VisibleTo(p, user, smallest) ensures p !in kept {
      assert p in rest + inputs && d in rest + inputs;
      if p == d {
        assert Obsolete(d, smallest, baseUsers);
      } else {
        assert Hidden(inputs, p, smallest);
      }
    }
    assert Newest(rest + kept, user, smallest, o);
    assert UniqueSequences(rest + kept);
    LookupIsNewest(rest + kept, user, smallest, o);
  }
}
