/** What the stops of a compaction mean (ShouldStopBefore of db/version_set.cc): how many bytes two levels down an
    output table lies over. */
module GrandparentOverlap {
  import opened InternalKeys
  import opened Versions
  import opened Picking
  import opened OutputCuts

  /** The files that end at or after one key and before another. */
  function EndingBetween(files: seq<FileMetaData>, from: InternalKey, to: InternalKey): seq<FileMetaData> {
    if files == [] then []
    else
      var f, before := files[|files| - 1], EndingBetween(files[..|files| - 1], from, to);
      if !Less(f.largest, from) && Less(f.largest, to) then before + [f] else before
  }

  /** The first `n` files end before the key, and no others do. */
  ghost predicate PassedAt(files: seq<FileMetaData>, key: InternalKey, n: nat) {
    && n <= |files|
    && (forall g :: 0 <= g < n ==> Less(files[g].largest, key))
    && (forall g :: n <= g < |files| ==> !Less(files[g].largest, key))
  }

  lemma {:induction false} BetweenIsSlice(files: seq<FileMetaData>, from: InternalKey, to: InternalKey, a: nat, b: nat)
    requires a <= b && PassedAt(files, from, a) && PassedAt(files, to, b)
    ensures EndingBetween(files, from, to) == files[a..b]
  {
    var n := |files|;
    if n > 0 {
      var front := files[..n - 1];
      if b < n {
        BetweenIsSlice(front, from, to, a, b);
        assert files[a..b] == front[a..b];
      } else if a < n {
        BetweenIsSlice(front, from, to, a, n - 1);
        assert files[a..n] == front[a..n - 1] + [files[n - 1]];
      } else {
        BetweenIsSlice(front, from, to, n - 1, n - 1);
        assert files[n..n] == front[n - 1..n - 1];
      }
    }
  }

  lemma {:induction false} SizesAdd(a: seq<FileMetaData>, b: seq<FileMetaData>)
    ensures TotalFileSize(a + b) == TotalFileSize(a) + TotalFileSize(b)
  {
    if b == [] {
      assert a + b == a;
    } else {
      assert (a + b)[..|a + b| - 1] == a + b[..|b| - 1];
      SizesAdd(a, b[..|b| - 1]);
    }
  }

  lemma SliceSizes(files: seq<FileMetaData>, a: nat, b: nat, c: nat)
    requires a <= b <= c <= |files|
    ensures TotalFileSize(files[a..b]) + TotalFileSize(files[b..c]) == TotalFileSize(files[a..c])
  {
    SizesAdd(files[a..b], files[b..c]);
    assert files[a..b] + files[b..c] == files[a..c];
  }

  lemma LargestAscend(files: seq<FileMetaData>, g: nat, h: nat)
    requires ValidFiles(files) && DisjointSorted(files) && g <= h < |files|
    ensures g < h ==> Less(files[g].largest, files[h].largest)
  {
    if g < h {
      assert ValidFile(files[h]) && !Less(files[h].largest, files[h].smallest);
      assert Less(files[g].largest, files[h].smallest);
    }
  }

  /** The loop stops at the first file that does not end before the key, which is past all that do. */
  lemma {:induction false} PassedReaches(files: seq<FileMetaData>, index: nat, key: InternalKey)
    requires ValidFiles(files) && DisjointSorted(files) && index <= |files|
    requires forall g :: 0 <= g < index ==> Less(files[g].largest, key)
    ensures PassedAt(files, key, Passed(files, index, key))
    decreases |files| - index
  {
    if index < |files| {
      if Less(files[index].largest, key) {
        PassedReaches(files, index + 1, key);
      } else {
        forall g | index <= g < |files| ensures !Less(files[g].largest, key) {
          LargestAscend(files, index, g);
        }
      }
    }
  }

  ghost predicate Watchable(r: CutRule) {
    SortedKeys(r.input) && ValidFiles(r.grandparents) && DisjointSorted(r.grandparents)
  }

  /** The files passed when entry m has been looked at. */
  ghost function IndexAfter(r: CutRule, m: nat): nat
    requires m < |r.input|
  {
    WatchBefore(r, m + 1).index
  }

  lemma {:induction false} IndexIsPassed(r: CutRule, m: nat)
    requires Watchable(r) && m < |r.input|
    ensures PassedAt(r.grandparents, r.input[m].key, IndexAfter(r, m))
    ensures m > 0 ==> IndexAfter(r, m - 1) <= IndexAfter(r, m)
  {
    if m > 0 {
      IndexIsPassed(r, m - 1);
      assert Less(r.input[m - 1].key, r.input[m].key);
    }
    PassedReaches(r.grandparents, WatchBefore(r, m).index, r.input[m].key);
  }

  lemma {:induction false} IndexGrows(r: CutRule, p: nat, m: nat)
    requires Watchable(r) && p <= m < |r.input|
    ensures IndexAfter(r, p) <= IndexAfter(r, m)
  {
    if p < m {
      IndexGrows(r, p, m - 1);
      IndexIsPassed(r, m);
    }
  }

  /** Entry p is the last one before m at which the loop stopped, or the first entry of all. */
  ghost predicate LastStop(r: CutRule, m: nat, p: nat)
    requires m < |r.input|
  {
    p < m && (p == 0 || StopsAt(r, p)) && forall q :: p < q < m ==> !StopsAt(r, q)
  }

  lemma {:induction false} LastStopBefore(r: CutRule, m: nat) returns (p: nat)
    requires 0 < m < |r.input|
    ensures LastStop(r, m, p)
  {
    p := m - 1;
    if m > 1 && !StopsAt(r, m - 1) {
      p := LastStopBefore(r, m - 1);
    }
  }

  lemma OverlapGoesOn(r: CutRule, m: nat)
    requires 0 < m < |r.input| && IndexAfter(r, m - 1) <= IndexAfter(r, m)
    ensures OverlapAt(r, 0) == 0
    ensures OverlapAt(r, m) == (if StopsAt(r, m - 1) then 0 else OverlapAt(r, m - 1)) +
      TotalFileSize(r.grandparents[IndexAfter(r, m - 1)..IndexAfter(r, m)])
  {
    assert WatchBefore(r, 0) == Watch(0, 0);
    var w := WatchBefore(r, m);
    assert w.index == IndexAfter(r, m - 1) && w.overlapped == if StopsAt(r, m - 1) then 0 else OverlapAt(r, m - 1);
    assert IndexAfter(r, m) == Passed(r.grandparents, w.index, r.input[m].key);
  }

  /** The bytes counted at entry m are those of the files passed since entry p. */
  ghost predicate CountedSince(r: CutRule, m: nat, p: nat)
    requires p < |r.input| && m < |r.input|
  {
    var i, j := IndexAfter(r, p), IndexAfter(r, m);
    i <= j && OverlapAt(r, m) == TotalFileSize(r.grandparents[i..j])
  }

  lemma CountGoesOn(r: CutRule, m: nat, p: nat)
    requires 0 < m < |r.input| && p < m - 1 && IndexAfter(r, m - 1) <= IndexAfter(r, m)
    requires !StopsAt(r, m - 1) && CountedSince(r, m - 1, p)
    ensures CountedSince(r, m, p)
  {
    OverlapGoesOn(r, m);
    var i, j, k := IndexAfter(r, p), IndexAfter(r, m - 1), IndexAfter(r, m);
    SliceSizes(r.grandparents, i, j, k);
  }

  lemma {:induction false} OverlapIsSlice(r: CutRule, m: nat, p: nat)
    requires Watchable(r) && m < |r.input| && LastStop(r, m, p)
    ensures CountedSince(r, m, p)
  {
    IndexGrows(r, m - 1, m);
    if p < m - 1 {
      OverlapIsSlice(r, m - 1, p);
      CountGoesOn(r, m, p);
    } else {
      OverlapGoesOn(r, m);
    }
  }

  /** The loop stops at an entry exactly when the files two levels down that end since the last stop, or since the
      first entry, and before this one are larger than the limit. */
  lemma StopsForOverlap(r: CutRule, m: nat, p: nat)
    requires Watchable(r) && m < |r.input| && LastStop(r, m, p)
    ensures StopsAt(r, m) <==>
            TotalFileSize(EndingBetween(r.grandparents, r.input[p].key, r.input[m].key)) > r.maxOverlap
  {
    OverlapIsSlice(r, m, p);
    IndexIsPassed(r, p);
    IndexIsPassed(r, m);
    BetweenIsSlice(r.grandparents, r.input[p].key, r.input[m].key, IndexAfter(r, p), IndexAfter(r, m));
  }

  lemma PlaceOf(r: CutRule, key: InternalKey) returns (m: nat)
    requires exists e :: e in r.input && e.key == key
    ensures m < |r.input| && r.input[m].key == key
  {
    var e :| e in r.input && e.key == key;
    m :| m < |r.input| && r.input[m] == e;
  }

  lemma NoStopInside(r: CutRule, outputs: seq<FileMetaData>, t: FileMetaData, a: nat, b: nat, m: nat)
    requires Watchable(r) && CutsExactly(r, outputs) && t in outputs && a < m <= b < |r.input|
    requires r.input[a].key == t.smallest && r.input[b].key == t.largest
    ensures !StopsAt(r, m)
  {
    assert Less(t.smallest, r.input[m].key) && !Less(t.largest, r.input[m].key);
    assert !StopsBetween(r, |r.input|, t.smallest, t.largest);
  }

  /** The files two levels down that end inside an output table are no larger than the limit: besides them, merging
      the table further down reads at most the one that sticks out behind it. */
  lemma NoTableOverlapsTooMuch(r: CutRule, outputs: seq<FileMetaData>, t: FileMetaData)
    requires Watchable(r) && CutsExactly(r, outputs) && t in outputs
    requires ValidFile(t) && forall e :: e in t.entries ==> e in r.input
    ensures TotalFileSize(EndingBetween(r.grandparents, t.smallest, t.largest)) <= r.maxOverlap
  {
    assert t.entries[0] in r.input && t.entries[|t.entries| - 1] in r.input;
    var a := PlaceOf(r, t.smallest);
    var b := PlaceOf(r, t.largest);
    assert a <= b;
    IndexGrows(r, a, b);
    IndexIsPassed(r, a);
    IndexIsPassed(r, b);
    BetweenIsSlice(r.grandparents, t.smallest, t.largest, IndexAfter(r, a), IndexAfter(r, b));
    if a < b {
      var p := LastStopBefore(r, b);
      if p > a {
        NoStopInside(r, outputs, t, a, b, p);
      }
      NoStopInside(r, outputs, t, a, b, b);
      OverlapIsSlice(r, b, p);
      IndexGrows(r, p, a);
      SliceSizes(r.grandparents, IndexAfter(r, p), IndexAfter(r, a), IndexAfter(r, b));
    }
  }
}
