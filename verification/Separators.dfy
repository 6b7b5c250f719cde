/** Short keys between two keys, for the index of a table: the bytewise comparator (util/comparator.cc) and the
    comparator of encoded internal keys, which end in eight bytes of sequence number and type (db/dbformat.cc). */
module Separators {
  import opened Coding
  import opened BlockFormat

  // ---- bytes in order ----

  /** Byte by byte, a prefix first. */
  predicate BytesLess(a: Key, b: Key) {
    b != [] && (a == [] || a[0] < b[0] || (a[0] == b[0] && BytesLess(a[1..], b[1..])))
  }

  lemma {:induction false} BytesAsymmetric(a: Key, b: Key)
    requires BytesLess(a, b)
    ensures !BytesLess(b, a)
  {
    if a != [] && a[0] == b[0] {
      BytesAsymmetric(a[1..], b[1..]);
    }
  }

  lemma {:induction false} BytesTransitive(a: Key, b: Key, c: Key)
    requires BytesLess(a, b) && BytesLess(b, c)
    ensures BytesLess(a, c)
  {
    if a != [] && a[0] == b[0] == c[0] {
      BytesTransitive(a[1..], b[1..], c[1..]);
    }
  }

  /** The first difference decides. */
  lemma {:induction false} DecidedAt(a: Key, b: Key, n: nat)
    requires n < |a| && n < |b| && a[..n] == b[..n] && a[n] < b[n]
    ensures BytesLess(a, b)
  {
    if n > 0 {
      assert a[0] == a[..n][0] == b[0];
      assert a[1..][..n - 1] == a[..n][1..] && b[1..][..n - 1] == b[..n][1..];
      DecidedAt(a[1..], b[1..], n - 1);
    }
  }

  // ---- the bytewise comparator ----

  function Cut(key: Key, n: nat): (r: Key)
    requires n < |key| && key[n] < 0xff
    ensures |r| == n + 1
  {
    key[..n] + [key[n] + 1]
  }

  lemma CutIsLater(key: Key, n: nat)
    requires n < |key| && key[n] < 0xff
    ensures BytesLess(key, Cut(key, n))
  {
    assert Cut(key, n)[..n] == key[..n];
    DecidedAt(key, Cut(key, n), n);
  }

  lemma CutIsBefore(key: Key, limit: Key, n: nat)
    requires n < |key| && n < |limit| && key[..n] == limit[..n] && key[n] as int + 1 < limit[n]
    ensures BytesLess(Cut(key, n), limit)
  {
    assert Cut(key, n)[..n] == key[..n];
    DecidedAt(Cut(key, n), limit, n);
  }

  /** Leaves the key alone, or makes it a key between it and the limit that is not longer. It does the latter
      exactly when there is room for a byte between the first two that differ. */
  method FindShortestSeparator(start: Key, limit: Key) returns (r: Key)
    ensures r != start ==> BytesLess(start, r) && BytesLess(r, limit) && |r| <= |start|
    ensures r != start <==>
      var n := CommonPrefix(start, limit); n < |start| && n < |limit| && start[n] as int + 1 < limit[n]
  {
    r := start;
    var minLength := if |start| < |limit| then |start| else |limit|;
    var diffIndex := 0;
    while diffIndex < minLength && start[diffIndex] == limit[diffIndex]
      invariant diffIndex <= minLength && start[..diffIndex] == limit[..diffIndex]
    {
      diffIndex := diffIndex + 1;
    }
    IsCommonPrefix(start, limit, diffIndex);
    if diffIndex < minLength {
      var diffByte := start[diffIndex];
      if diffByte < 0xff && diffByte + 1 < limit[diffIndex] {
        CutIsLater(start, diffIndex);
        CutIsBefore(start, limit, diffIndex);
        BytesDiffer(start, Cut(start, diffIndex));
        r := start[..diffIndex] + [diffByte + 1];
      }
    }
  }

  lemma BytesDiffer(a: Key, b: Key)
    requires BytesLess(a, b)
    ensures a != b
  {
    BytesAsymmetric(a, b);
  }

  /** Leaves the key alone when it is a run of 0xff, or makes it a later key that is not longer. */
  method FindShortSuccessor(key: Key) returns (r: Key)
    ensures r != key ==> BytesLess(key, r) && |r| <= |key|
    ensures r == key <==> forall i :: 0 <= i < |key| ==> key[i] == 0xff
  {
    for i := 0 to |key|
      invariant forall j :: 0 <= j < i ==> key[j] == 0xff
    {
      var byte := key[i];
      if byte != 0xff {
        CutIsLater(key, i);
        BytesDiffer(key, Cut(key, i));
        return key[..i] + [byte + 1];
      }
    }
    return key;
  }

  // ---- encoded internal keys ----

  const MAX_TAG: nat := 0xFFFF_FFFF_FFFF_FF01

  function UserOf(key: Key): Key {
    if |key| < 8 then [] else key[..|key| - 8]
  }

  function TagOf(key: Key): nat
    requires |key| >= 8
  {
    DecodeFixed64(key[|key| - 8..])
  }

  /** Increasing user key, then decreasing tag. */
  predicate InternalLess(a: Key, b: Key) {
    && |a| >= 8 && |b| >= 8
    && (BytesLess(UserOf(a), UserOf(b)) || (UserOf(a) == UserOf(b) && TagOf(a) > TagOf(b)))
  }

  lemma InternalOrder()
    ensures StrictOrder(InternalLess)
  {
    forall a, b | InternalLess(a, b) ensures !InternalLess(b, a) {
      if BytesLess(UserOf(a), UserOf(b)) {
        BytesAsymmetric(UserOf(a), UserOf(b));
      }
    }
    forall a, b, c | InternalLess(a, b) && InternalLess(b, c) ensures InternalLess(a, c) {
      if BytesLess(UserOf(a), UserOf(b)) && BytesLess(UserOf(b), UserOf(c)) {
        BytesTransitive(UserOf(a), UserOf(b), UserOf(c));
      }
    }
  }

  /** The first of all internal keys of a user key. */
  function EarliestOf(user: Key): (key: Key)
    ensures |key| >= 8 && UserOf(key) == user && TagOf(key) == MAX_TAG
  {
    var key := user + Fixed64(MAX_TAG);
    assert key[|key| - 8..] == Fixed64(MAX_TAG) + [];
    Fixed64RoundTrip(MAX_TAG, []);
    key
  }

  /** The key itself, or the first internal key of a shorter user key in between: nothing of that user key, and
      nothing of any other one but the two users', lies between the key and the limit on either side of it. */
  method FindInternalSeparator(start: Key, limit: Key) returns (r: Key)
    requires |start| >= 8 && |limit| >= 8
    ensures r != start ==>
      |r| < |start| && r == EarliestOf(UserOf(r)) && BytesLess(UserOf(start), UserOf(r)) &&
        BytesLess(UserOf(r), UserOf(limit))
  {
    r := start;
    var userStart := start[..|start| - 8];
    var userLimit := limit[..|limit| - 8];
    var tmp := FindShortestSeparator(userStart, userLimit);
    if |tmp| < |userStart| && BytesLess(userStart, tmp) {
      r := tmp + Fixed64(MAX_TAG);
      assert r == EarliestOf(tmp);
    }
  }

  method FindInternalSuccessor(key: Key) returns (r: Key)
    requires |key| >= 8
    ensures r != key ==> |r| < |key| && r == EarliestOf(UserOf(r)) && BytesLess(UserOf(key), UserOf(r))
  {
    r := key;
    var userKey := key[..|key| - 8];
    var tmp := FindShortSuccessor(userKey);
    if |tmp| < |userKey| && BytesLess(userKey, tmp) {
      r := tmp + Fixed64(MAX_TAG);
      assert r == EarliestOf(tmp);
    }
  }
}
