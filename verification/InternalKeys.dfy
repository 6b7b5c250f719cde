/** Internal keys and the reads they give rise to (db/dbformat.h, db/dbformat.cc).

  A user comparator is a total order on byte strings. Byte strings are countable and every
  countable total order embeds in the real numbers, so ordering user keys as reals covers every
  comparator at once.
 */
module InternalKeys {
  import opened Basics

  type UserKey = real
  type Value = string

  const MAX_SEQUENCE_NUMBER: nat := 0xFF_FFFF_FFFF_FFFF

  type SequenceNumber = n: nat | n <= MAX_SEQUENCE_NUMBER

  datatype ValueType = Deletion | Put

  datatype InternalKey = InternalKey(user: UserKey, sequence: SequenceNumber, kind: ValueType)

  datatype Entry = Entry(key: InternalKey, value: Value)

  /** The trailer of an encoded internal key: the sequence number above one byte of type. */
  function Tag(k: InternalKey): nat {
    k.sequence * 256 + if k.kind.Put? then 1 else 0
  }

  /** Increasing user key, then decreasing sequence number, then decreasing type. */
  predicate Less(a: InternalKey, b: InternalKey) {
    a.user < b.user || (a.user == b.user && Tag(a) > Tag(b))
  }

  /** The first internal key of all those that carry the user key. */
  function EarliestFor(user: UserKey): InternalKey {
    InternalKey(user, MAX_SEQUENCE_NUMBER, Put)
  }

  /** The key a read at `snapshot` seeks to. */
  function SeekKey(user: UserKey, snapshot: SequenceNumber): InternalKey {
    InternalKey(user, snapshot, Put)
  }

  ghost predicate SortedKeys(es: seq<Entry>) {
    forall i, j :: 0 <= i < j < |es| ==> Less(es[i].key, es[j].key)
  }

  ghost function SetOf(es: seq<Entry>): set<Entry> {
    set e | e in es
  }

  // ---- what a read returns ----

  /** Writers hand out every sequence number once. */
  ghost predicate UniqueSequences(store: set<Entry>) {
    forall a, b :: a in store && b in store && a.key.user == b.key.user && a.key.sequence == b.key.sequence
      ==> a == b
  }

  predicate VisibleTo(e: Entry, user: UserKey, snapshot: SequenceNumber) {
    e.key.user == user && e.key.sequence <= snapshot
  }

  /** `e` is the newest entry of `user` that a read at `snapshot` may see. */
  ghost predicate Newest(store: set<Entry>, user: UserKey, snapshot: SequenceNumber, e: Entry) {
    e in store && VisibleTo(e, user, snapshot)
    && forall o :: o in store && VisibleTo(o, user, snapshot) ==> o.key.sequence <= e.key.sequence
  }

  function Outcome(e: Entry): Option<Value> {
    if e.key.kind.Put? then Some(e.value) else None
  }

  /** What a reader of the whole store sees: the newest visible entry, a deletion meaning absent. */
  ghost function Lookup(store: set<Entry>, user: UserKey, snapshot: SequenceNumber): Option<Value> {
    if exists e :: Newest(store, user, snapshot, e) then
      var e :| Newest(store, user, snapshot, e);
      Outcome(e)
    else
      None
  }

  lemma LookupIsNewest(store: set<Entry>, user: UserKey, snapshot: SequenceNumber, e: Entry)
    requires UniqueSequences(store)
    requires Newest(store, user, snapshot, e)
    ensures Lookup(store, user, snapshot) == Outcome(e)
  {
    forall c | Newest(store, user, snapshot, c)
      ensures c == e
    {
      assert c in store && VisibleTo(c, user, snapshot);
      assert e in store && VisibleTo(e, user, snapshot);
    }
  }

  /** A store with a visible entry has a newest one. */
  lemma {:induction false} NewestExists(store: set<Entry>, user: UserKey, snapshot: SequenceNumber, some: Entry)
    returns (e: Entry)
    requires some in store && VisibleTo(some, user, snapshot)
    ensures Newest(store, user, snapshot, e)
    decreases |store|
  {
    var rest := store - {some};
    if o :| o in rest && VisibleTo(o, user, snapshot) {
      var best := NewestExists(rest, user, snapshot, o);
      e := if best.key.sequence < some.key.sequence then some else best;
    } else {
      e := some;
    }
  }

  lemma LookupNothing(store: set<Entry>, user: UserKey, snapshot: SequenceNumber)
    requires forall e :: e in store ==> !VisibleTo(e, user, snapshot)
    ensures Lookup(store, user, snapshot) == None
  {
  }
}
