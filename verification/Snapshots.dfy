/** The list of live snapshots (db/snapshot.h) and the sequence number below which a compaction may
    drop hidden entries. */
module Snapshots {
  import opened InternalKeys
  import opened CircularLists

  class SnapshotImpl {
    var prev: SnapshotImpl?
    var next: SnapshotImpl?
    const sequence: SequenceNumber

    constructor (sequence: SequenceNumber)
      ensures this.sequence == sequence
    {
      this.sequence := sequence;
      prev, next := null, null;
    }
  }

  ghost predicate InOrder(ring: seq<SnapshotImpl>, i: int, j: int)
    requires 0 <= i < |ring| && 0 <= j < |ring|
  {
    ring[i].sequence <= ring[j].sequence
  }

  /** After the head, sequence numbers do not decrease. */
  ghost predicate OldestFirst(ring: seq<SnapshotImpl>) {
    forall i, j {:trigger InOrder(ring, i, j)} :: 1 <= i < j < |ring| ==> InOrder(ring, i, j)
  }

  lemma WithoutKeepsOrder(ring: seq<SnapshotImpl>, k: nat)
    requires Distinct(ring) && OldestFirst(ring) && 0 < k < |ring|
    ensures Distinct(Without(ring, k)) && OldestFirst(Without(ring, k))
  {
    var t := Without(ring, k);
    WithoutAt(ring, k);
    WithoutMembers(ring, k);
    forall i, j | 1 <= i < j < |t| ensures InOrder(t, i, j) {
      assert InOrder(ring, if i < k then i else i + 1, if j < k then j else j + 1);
    }
  }

  lemma NewestLast(ring: seq<SnapshotImpl>, snapshot: SnapshotImpl)
    requires ring != [] && Distinct(ring) && OldestFirst(ring) && snapshot !in ring
    requires forall n :: n in ring[1..] ==> n.sequence <= snapshot.sequence
    ensures Distinct(ring + [snapshot]) && OldestFirst(ring + [snapshot])
  {
    AppendKeepsDistinct(ring, snapshot);
    forall i, j | 1 <= i < j < |ring| + 1 ensures InOrder(ring + [snapshot], i, j) {
      assert ring[i] == ring[1..][i - 1];
      assert j < |ring| ==> InOrder(ring, i, j);
    }
  }

  lemma OldestIsFirst(ring: seq<SnapshotImpl>)
    requires |ring| > 1 && OldestFirst(ring)
    ensures forall n :: n in ring[1..] ==> ring[1].sequence <= n.sequence
  {
    forall n | n in ring[1..] ensures ring[1].sequence <= n.sequence {
      var i :| 0 <= i < |ring| - 1 && ring[1..][i] == n;
      assert i > 0 ==> InOrder(ring, 1, i + 1);
    }
  }

  /** A circular doubly linked list with a dummy head, oldest snapshot first. */
  class SnapshotList {
    const head: SnapshotImpl
    /** The head, then the snapshots in list order. */
    ghost var ring: seq<SnapshotImpl>

    ghost function Nodes(): seq<SnapshotImpl>
      requires ring != []
      reads this
    {
      ring[1..]
    }

    ghost predicate LinkedAt(i: int)
      reads this, ring
    {
      0 <= i < |ring| && ring[i].next == ring[After(i, |ring|)] && ring[i].prev == ring[Before(i, |ring|)]
    }

    ghost predicate Valid()
      reads this, ring
    {
      && ring != [] && ring[0] == head && Distinct(ring) && OldestFirst(ring)
      && forall i {:trigger LinkedAt(i)} :: 0 <= i < |ring| ==> LinkedAt(i)
    }

    constructor ()
      ensures Valid() && Nodes() == [] && fresh(ring)
    {
      var h := new SnapshotImpl(0);
      head := h;
      ring := [h];
      new;
      head.prev, head.next := head, head;
      assert LinkedAt(0);
    }

    method IsEmpty() returns (empty: bool)
      requires Valid()
      ensures empty <==> Nodes() == []
    {
      assert LinkedAt(0);
      SamePosition(ring, 0, After(0, |ring|));
      empty := head.next == head;
    }

    method Oldest() returns (oldest: SnapshotImpl)
      requires Valid() && Nodes() != []
      ensures oldest in Nodes() && forall n :: n in Nodes() ==> oldest.sequence <= n.sequence
    {
      assert LinkedAt(0);
      oldest := head.next;
      assert Nodes()[0] == oldest;
      OldestIsFirst(ring);
    }

    /** Sequence numbers only grow, so a new snapshot goes to the end. */
    method New(sequence: SequenceNumber) returns (snapshot: SnapshotImpl)
      requires Valid() && forall n :: n in Nodes() ==> n.sequence <= sequence
      modifies this, ring
      ensures Valid() && fresh(snapshot) && snapshot.sequence == sequence
      ensures Nodes() == old(Nodes()) + [snapshot]
    {
      ghost var was, n := ring, |ring|;
      assert LinkedAt(0);
      snapshot := new SnapshotImpl(sequence);
      NewestLast(was, snapshot);
      snapshot.next := head;
      snapshot.prev := head.prev;
      snapshot.prev.next := snapshot;
      snapshot.next.prev := snapshot;
      ring := ring + [snapshot];
      forall i | 0 <= i < n + 1 ensures LinkedAt(i) {
        if i < n {
          assert old(LinkedAt(i)) && ring[i] == was[i];
          SamePosition(was, i, n - 1);
          SamePosition(was, i, 0);
        }
      }
    }

    method Delete(snapshot: SnapshotImpl)
      requires Valid() && snapshot in Nodes()
      modifies this, ring
      ensures Valid()
      ensures exists k :: 0 <= k < |old(Nodes())| && old(Nodes())[k] == snapshot && Nodes() == Without(old(Nodes()), k)
    {
      ghost var was := ring;
      ghost var j :| 0 <= j < |Nodes()| && Nodes()[j] == snapshot;
      WithoutKeepsOrder(was, j + 1);
      Unlink(snapshot, j + 1);
      WithoutAt(was, j + 1);
      TailWithout(was, j + 1);
    }

    /** Takes the k-th node of the circle out of it. */
    method Unlink(snapshot: SnapshotImpl, ghost k: nat)
      requires Valid() && 0 < k < |ring| && ring[k] == snapshot
      modifies this, ring
      ensures ring == Without(old(ring), k)
      ensures forall i {:trigger LinkedAt(i)} :: 0 <= i < |ring| ==> LinkedAt(i)
    {
      ghost var was, n := ring, |ring|;
      assert LinkedAt(k);
      snapshot.prev.next := snapshot.next;
      snapshot.next.prev := snapshot.prev;
      ring := Without(ring, k);
      WithoutAt(was, k);
      forall i | 0 <= i < n - 1 ensures LinkedAt(i) {
        var m := if i < k then i else i + 1;
        assert old(LinkedAt(m));
        WithoutNeighbours(was, k, i);
        assert was[m].next == if m == k - 1 then was[After(k, n)] else was[After(m, n)];
        assert was[m].prev == if m == After(k, n) then was[k - 1] else was[Before(m, n)];
      }
    }

    /** What a compaction starting now takes for its smallest snapshot: no reader that holds a snapshot,
        and none that comes later, reads below it. */
    method SmallestSnapshot(lastSequence: SequenceNumber) returns (smallest: SequenceNumber)
      requires Valid() && forall n :: n in Nodes() ==> n.sequence <= lastSequence
      ensures smallest <= lastSequence && forall n :: n in Nodes() ==> smallest <= n.sequence
      ensures smallest == lastSequence || exists n :: n in Nodes() && n.sequence == smallest
    {
      var empty := IsEmpty();
      if empty {
        smallest := lastSequence;
      } else {
        var oldest := Oldest();
        smallest := oldest.sequence;
      }
    }
  }
}
