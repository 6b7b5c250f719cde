/** Circular doubly linked lists, read as their nodes in order from the dummy head on. The snapshot list
    and the two lists of the cache are of this kind. */
module CircularLists {

  function After(i: nat, n: nat): nat {
    if i + 1 < n then i + 1 else 0
  }

  function Before(i: nat, n: nat): nat
    requires 0 < n
  {
    if i == 0 then n - 1 else i - 1
  }

  ghost predicate Differ<T>(s: seq<T>, i: int, j: int)
    requires 0 <= i < |s| && 0 <= j < |s|
  {
    s[i] != s[j]
  }

  ghost predicate Distinct<T>(s: seq<T>) {
    forall i, j {:trigger Differ(s, i, j)} :: 0 <= i < j < |s| ==> Differ(s, i, j)
  }

  lemma SamePosition<T>(s: seq<T>, i: nat, j: nat)
    requires Distinct(s) && i < |s| && j < |s|
    ensures s[i] == s[j] <==> i == j
  {
    if i < j {
      assert Differ(s, i, j);
    } else if j < i {
      assert Differ(s, j, i);
    }
  }

  ghost predicate LinkAt<T>(ring: seq<T>, next: map<T, T>, prev: map<T, T>, i: int) {
    && 0 <= i < |ring|
    && ring[i] in next && next[ring[i]] == ring[After(i, |ring|)]
    && ring[i] in prev && prev[ring[i]] == ring[Before(i, |ring|)]
  }

  /** `next` and `prev` link the nodes of `ring` in a circle. */
  ghost predicate Ring<T>(ring: seq<T>, next: map<T, T>, prev: map<T, T>) {
    && ring != [] && Distinct(ring)
    && forall i {:trigger LinkAt(ring, next, prev, i)} :: 0 <= i < |ring| ==> LinkAt(ring, next, prev, i)
  }

  ghost function Without<T>(s: seq<T>, k: nat): seq<T>
    requires k < |s|
  {
    s[..k] + s[k + 1..]
  }

  lemma WithoutAt<T>(s: seq<T>, k: nat)
    requires k < |s|
    ensures |Without(s, k)| == |s| - 1
    ensures forall i :: 0 <= i < |s| - 1 ==> Without(s, k)[i] == s[if i < k then i else i + 1]
  {
  }

  lemma TailWithout<T>(s: seq<T>, k: nat)
    requires 0 < k < |s|
    ensures Without(s, k) != [] && Without(s, k)[1..] == Without(s[1..], k - 1)
  {
  }

  lemma WithoutMembers<T>(s: seq<T>, k: nat)
    requires k < |s| && Distinct(s)
    ensures Distinct(Without(s, k))
    ensures forall x :: x in Without(s, k) <==> x in s && x != s[k]
  {
    var t := Without(s, k);
    WithoutAt(s, k);
    forall i, j | 0 <= i < j < |t| ensures Differ(t, i, j) {
      SamePosition(s, if i < k then i else i + 1, if j < k then j else j + 1);
    }
    forall x | x in s && x != s[k] ensures x in t {
      var i :| 0 <= i < |s| && s[i] == x;
      assert t[if i < k then i else i - 1] == x;
    }
    forall x | x in t ensures x != s[k] {
      var i :| 0 <= i < |t| && t[i] == x;
      SamePosition(s, if i < k then i else i + 1, k);
    }
  }

  /** The neighbours of the remaining nodes: those of the node taken out become each other's. */
  lemma WithoutNeighbours<T>(ring: seq<T>, k: nat, i: nat)
    requires Distinct(ring) && 0 < k < |ring| && i < |ring| - 1
    ensures var n, m := |ring|, if i < k then i else i + 1;
      && Without(ring, k)[i] == ring[m]
      && Without(ring, k)[After(i, n - 1)] == (if m == k - 1 then ring[After(k, n)] else ring[After(m, n)])
      && Without(ring, k)[Before(i, n - 1)] == (if m == After(k, n) then ring[k - 1] else ring[Before(m, n)])
      && (ring[m] == ring[k - 1] <==> m == k - 1)
      && (ring[m] == ring[After(k, n)] <==> m == After(k, n))
  {
    WithoutAt(ring, k);
    var m := if i < k then i else i + 1;
    SamePosition(ring, m, k - 1);
    SamePosition(ring, m, After(k, |ring|));
  }

  /** Taking a node out of the circle by linking its neighbours. */
  lemma Unlink<T>(ring: seq<T>, next: map<T, T>, prev: map<T, T>, k: nat)
    requires Ring(ring, next, prev) && 0 < k < |ring|
    ensures ring[k] in next && ring[k] in prev
    ensures Ring(Without(ring, k), next[prev[ring[k]] := next[ring[k]]], prev[next[ring[k]] := prev[ring[k]]])
  {
    var n := |ring|;
    assert LinkAt(ring, next, prev, k);
    var p, s := prev[ring[k]], next[ring[k]];
    var next', prev' := next[p := s], prev[s := p];
    var after := Without(ring, k);
    WithoutAt(ring, k);
    WithoutMembers(ring, k);
    forall i | 0 <= i < n - 1 ensures LinkAt(after, next', prev', i) {
      assert LinkAt(ring, next, prev, if i < k then i else i + 1);
      WithoutNeighbours(ring, k, i);
    }
  }

  lemma AppendKeepsDistinct<T>(s: seq<T>, x: T)
    requires Distinct(s) && x !in s
    ensures Distinct(s + [x])
  {
    forall i, j | 0 <= i < j < |s| + 1 ensures Differ(s + [x], i, j) {
      if j < |s| {
        assert Differ(s, i, j);
      }
    }
  }

  /** Putting a new node just before the head. */
  lemma Append<T>(ring: seq<T>, next: map<T, T>, prev: map<T, T>, x: T)
    requires Ring(ring, next, prev) && x !in ring
    ensures ring[0] in prev
    ensures Ring(ring + [x], next[x := ring[0]][prev[ring[0]] := x], prev[x := prev[ring[0]]][ring[0] := x])
  {
    var n := |ring|;
    assert LinkAt(ring, next, prev, 0);
    var last := prev[ring[0]];
    var next', prev' := next[x := ring[0]][last := x], prev[x := last][ring[0] := x];
    var after := ring + [x];
    AppendKeepsDistinct(ring, x);
    forall i | 0 <= i < n + 1 ensures LinkAt(after, next', prev', i) {
      if i < n {
        assert LinkAt(ring, next, prev, i);
        assert after[i] == ring[i] && ring[i] in ring;
        SamePosition(ring, i, n - 1);
        SamePosition(ring, i, 0);
      } else {
        assert after[i] == x && last in ring;
      }
    }
  }

  /** A circle only says something about its own nodes. */
  lemma SameLinks<T>(ring: seq<T>, next: map<T, T>, prev: map<T, T>, next': map<T, T>, prev': map<T, T>)
    requires Ring(ring, next, prev)
    requires forall x :: x in ring ==>
      x in next' && x in next && next'[x] == next[x] && x in prev' && x in prev && prev'[x] == prev[x]
    ensures Ring(ring, next', prev')
  {
    forall i | 0 <= i < |ring| ensures LinkAt(ring, next', prev', i) {
      assert LinkAt(ring, next, prev, i) && ring[i] in ring;
    }
  }
}
