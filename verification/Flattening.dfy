/** Lists behind one another, and where each of them starts. */
module Flattening {

  function Flatten<T>(parts: seq<seq<T>>): seq<T> {
    if parts == [] then [] else Flatten(parts[..|parts| - 1]) + parts[|parts| - 1]
  }

  function StartOf<T>(parts: seq<seq<T>>, i: nat): nat
    requires i <= |parts|
  {
    |Flatten(parts[..i])|
  }

  lemma FlattenOneMore<T>(parts: seq<seq<T>>, part: seq<T>)
    ensures Flatten(parts + [part]) == Flatten(parts) + part
    ensures forall i :: 0 <= i <= |parts| ==> StartOf(parts + [part], i) == StartOf(parts, i)
    ensures StartOf(parts, |parts|) == |Flatten(parts)|
  {
    var more := parts + [part];
    assert more[..|more| - 1] == parts == parts[..|parts|];
    forall i | 0 <= i <= |parts| ensures more[..i] == parts[..i] {
    }
  }

  /** The i-th string lies between the i-th start and the next. */
  lemma {:induction false} PartAt<T>(parts: seq<seq<T>>, i: nat)
    requires i < |parts|
    ensures StartOf(parts, i) <= StartOf(parts, i + 1) <= |Flatten(parts)|
    ensures Flatten(parts)[StartOf(parts, i)..StartOf(parts, i + 1)] == parts[i]
    decreases |parts|
  {
    var init, last := parts[..|parts| - 1], parts[|parts| - 1];
    assert parts == init + [last];
    FlattenOneMore(init, last);
    if i == |parts| - 1 {
      assert parts[..i + 1] == parts;
    } else {
      PartAt(init, i);
    }
  }

  lemma {:induction false} PartsRise<T>(parts: seq<seq<T>>, a: nat, b: nat)
    requires a <= b <= |parts|
    ensures StartOf(parts, a) <= StartOf(parts, b) <= |Flatten(parts)|
    decreases b - a
  {
    if a < b {
      PartAt(parts, a);
      PartsRise(parts, a + 1, b);
    } else {
      assert parts[..|parts|] == parts;
      if b < |parts| {
        PartAt(parts, b);
      }
    }
  }

  /** The start behind a list is its own start and its length. */
  lemma NextStart<T>(parts: seq<seq<T>>, i: nat)
    requires i < |parts|
    ensures StartOf(parts, i + 1) == StartOf(parts, i) + |parts[i]| <= |Flatten(parts)|
    ensures StartOf(parts, 0) == 0 && StartOf(parts, |parts|) == |Flatten(parts)|
  {
    PartAt(parts, i);
    assert parts[..|parts|] == parts;
  }

  lemma ElementAt<T>(parts: seq<seq<T>>, i: nat, j: nat)
    requires i < |parts| && j < |parts[i]|
    ensures StartOf(parts, i) + j < |Flatten(parts)|
    ensures Flatten(parts)[StartOf(parts, i) + j] == parts[i][j]
  {
    PartAt(parts, i);
    assert Flatten(parts)[StartOf(parts, i)..StartOf(parts, i + 1)][j] == parts[i][j];
  }

  /** The list that an element of the whole is in, and its place there. */
  lemma {:induction false} Locate<T>(parts: seq<seq<T>>, m: nat) returns (i: nat, j: nat)
    requires m < |Flatten(parts)|
    ensures i < |parts| && j < |parts[i]| && m == StartOf(parts, i) + j && Flatten(parts)[m] == parts[i][j]
    decreases |parts|
  {
    var init, last := parts[..|parts| - 1], parts[|parts| - 1];
    assert parts == init + [last];
    FlattenOneMore(init, last);
    if m < |Flatten(init)| {
      i, j := Locate(init, m);
    } else {
      i, j := |init|, m - |Flatten(init)|;
    }
    ElementAt(parts, i, j);
  }

  /** What follows a list in the whole is in a list behind it. */
  lemma LocateBehind<T>(parts: seq<seq<T>>, b: nat) returns (i: nat, j: nat)
    requires b < |parts| && StartOf(parts, b) + |parts[b]| < |Flatten(parts)|
    ensures b < i < |parts| && j < |parts[i]| && Flatten(parts)[StartOf(parts, b) + |parts[b]|] == parts[i][j]
  {
    i, j := Locate(parts, StartOf(parts, b) + |parts[b]|);
    if i <= b {
      NextStart(parts, i);
      NextStart(parts, b);
      PartsRise(parts, i + 1, b + 1);
      assert false;
    }
  }
}
