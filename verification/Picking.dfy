/** Choosing the input files of a compaction (PickCompaction, AddBoundaryInputs, SetupOtherInputs
    and CompactRange of db/version_set.cc). */
module Picking {
  import opened Basics
  import opened InternalKeys
  import opened Versions
  import opened LevelSearch

  // ---- ranges ----

  ghost predicate IsSmallest(files: seq<FileMetaData>, key: InternalKey) {
    (exists f :: f in files && f.smallest == key) && forall f :: f in files ==> !Less(f.smallest, key)
  }

  ghost predicate IsLargest(files: seq<FileMetaData>, key: InternalKey) {
    (exists f :: f in files && f.largest == key) && forall f :: f in files ==> !Less(key, f.largest)
  }

  method GetRange(inputs: seq<FileMetaData>) returns (smallest: InternalKey, largest: InternalKey)
    requires inputs != []
    ensures IsSmallest(inputs, smallest) && IsLargest(inputs, largest)
  {
    smallest, largest := inputs[0].smallest, inputs[0].largest;
    for i := 1 to |inputs|
      invariant IsSmallest(inputs[..i], smallest) && IsLargest(inputs[..i], largest)
    {
      assert inputs[..i + 1] == inputs[..i] + [inputs[i]];
      assert inputs[i] in inputs[..i + 1];
      if Less(inputs[i].smallest, smallest) {
        smallest := inputs[i].smallest;
      }
      if Less(largest, inputs[i].largest) {
        largest := inputs[i].largest;
      }
    }
    assert inputs[..|inputs|] == inputs;
  }

  // ---- boundary files ----

  /** `f` starts with an older version of the user key that `key` ends with. */
  predicate IsBoundary(f: FileMetaData, key: InternalKey) {
    Less(key, f.smallest) && f.smallest.user == key.user
  }

  function SmallestBoundary(files: seq<FileMetaData>, key: InternalKey): (r: Option<FileMetaData>)
    ensures r.Some? ==> r.value in files && IsBoundary(r.value, key)
    ensures r.Some? ==> forall g :: g in files && IsBoundary(g, key) ==> !Less(g.smallest, r.value.smallest)
    ensures r.None? ==> forall g :: g in files ==> !IsBoundary(g, key)
  {
    if files == [] then None
    else
      var f := files[|files| - 1];
      var best := SmallestBoundary(files[..|files| - 1], key);
      assert files == files[..|files| - 1] + [f];
      if IsBoundary(f, key) && (best.None? || Less(f.smallest, best.value.smallest)) then Some(f) else best
  }

  method FindSmallestBoundaryFile(files: seq<FileMetaData>, key: InternalKey) returns (best: Option<FileMetaData>)
    ensures best == SmallestBoundary(files, key)
  {
    best := None;
    for i := 0 to |files|
      invariant best == SmallestBoundary(files[..i], key)
    {
      assert files[..i + 1][..i] == files[..i];
      if IsBoundary(files[i], key) {
        if best.None? || Less(files[i].smallest, best.value.smallest) {
          best := Some(files[i]);
        }
      }
    }
    assert files[..|files|] == files;
  }

  function CountAfter(files: seq<FileMetaData>, key: InternalKey): nat {
    if files == [] then 0
    else CountAfter(files[1..], key) + if Less(key, files[0].smallest) then 1 else 0
  }

  lemma {:induction false} CountAfterDrops(files: seq<FileMetaData>, key: InternalKey, later: InternalKey)
    requires Less(key, later)
    ensures CountAfter(files, later) <= CountAfter(files, key)
    ensures (exists f :: f in files && Less(key, f.smallest) && !Less(later, f.smallest))
      ==> CountAfter(files, later) < CountAfter(files, key)
  {
    if files != [] {
      CountAfterDrops(files[1..], key, later);
      assert files == [files[0]] + files[1..];
    }
  }

  /** The files AddBoundaryInputs appends: each continues the user key its predecessor ends with. */
  function BoundaryChain(files: seq<FileMetaData>, key: InternalKey): seq<FileMetaData>
    requires ValidFiles(files)
    decreases CountAfter(files, key)
  {
    match SmallestBoundary(files, key)
    case None => []
    case Some(f) =>
      CountAfterDrops(files, key, f.largest);
      [f] + BoundaryChain(files, f.largest)
  }

  /** Extends the inputs by boundary files until none is left; it terminates because the upper end
      moves strictly past a file at each turn. */
  method AddBoundaryInputs(levelFiles: seq<FileMetaData>, compactionFiles: seq<FileMetaData>,
                           ghost largest: InternalKey)
    returns (inputs: seq<FileMetaData>)
    requires ValidFiles(levelFiles)
    requires compactionFiles != [] ==> IsLargest(compactionFiles, largest)
    ensures compactionFiles == [] ==> inputs == []
    ensures compactionFiles != [] ==> inputs == compactionFiles + BoundaryChain(levelFiles, largest)
  {
    inputs := compactionFiles;
    if inputs == [] {
      return;
    }
    var _, largestKey := GetRange(inputs);
    SameLargest(inputs, largest, largestKey);
    var continueSearching := true;
    while continueSearching
      invariant continueSearching ==>
        inputs + BoundaryChain(levelFiles, largestKey) == compactionFiles + BoundaryChain(levelFiles, largest)
      invariant !continueSearching ==> inputs == compactionFiles + BoundaryChain(levelFiles, largest)
      decreases continueSearching, CountAfter(levelFiles, largestKey)
    {
      var boundary := FindSmallestBoundaryFile(levelFiles, largestKey);
      if boundary.Some? {
        ghost var rest := BoundaryChain(levelFiles, boundary.value.largest);
        assert inputs + ([boundary.value] + rest) == (inputs + [boundary.value]) + rest;
        ValidFileBounds(boundary.value);
        CountAfterDrops(levelFiles, largestKey, boundary.value.largest);
        inputs := inputs + [boundary.value];
        largestKey := boundary.value.largest;
      } else {
        continueSearching := false;
      }
    }
  }

  lemma SameLargest(files: seq<FileMetaData>, a: InternalKey, b: InternalKey)
    requires IsLargest(files, a) && IsLargest(files, b)
    ensures a == b
  {
    var f :| f in files && f.largest == a;
    var g :| g in files && g.largest == b;
    assert !Less(a, g.largest) && !Less(b, f.largest);
    assert Tag(a) == Tag(b);
  }

  /** The level has no file that goes on with the user key at which the first `end` files stop. */
  ghost predicate CutBetweenUsers(files: seq<FileMetaData>, end: nat)
    requires 0 < end <= |files|
  {
    end == |files| || files[end].smallest.user != files[end - 1].largest.user
  }

  /** Only the file right after the cut can be the smallest boundary file. */
  lemma BoundaryIsNext(files: seq<FileMetaData>, b: nat)
    requires DisjointSorted(files) && ValidFiles(files) && 0 < b <= |files|
    ensures SmallestBoundary(files, files[b - 1].largest).None? ==> CutBetweenUsers(files, b)
    ensures SmallestBoundary(files, files[b - 1].largest).Some? ==>
      b < |files| && SmallestBoundary(files, files[b - 1].largest) == Some(files[b])
  {
    var key := files[b - 1].largest;
    var best := SmallestBoundary(files, key);
    if b < |files| {
      assert files[b] in files && Less(key, files[b].smallest);
    }
    if best.Some? {
      var i :| 0 <= i < |files| && files[i] == best.value;
      BoundaryLiesAfter(files, b, i);
      if b < i {
        PairOrdered(files, b - 1, b);
        PairOrdered(files, b, i);
        assert IsBoundary(files[b], key);
        assert Less(files[b].smallest, files[i].smallest);
      }
    }
  }

  lemma BoundaryLiesAfter(files: seq<FileMetaData>, b: nat, i: nat)
    requires DisjointSorted(files) && ValidFiles(files) && 0 < b <= |files| && i < |files|
    requires Less(files[b - 1].largest, files[i].smallest)
    ensures b <= i
  {
    assert ValidFile(files[i]) && ValidFile(files[b - 1]);
  }

  /** Below level 0 the boundary files are the next files of the level, without gap or duplicate, and
      the extended inputs stop between two user keys. */
  lemma {:induction false} BoundaryChainIsSlice(files: seq<FileMetaData>, b: nat) returns (c: nat)
    requires DisjointSorted(files) && ValidFiles(files) && 0 < b <= |files|
    ensures b <= c <= |files| && BoundaryChain(files, files[b - 1].largest) == files[b..c]
    ensures CutBetweenUsers(files, c)
    decreases |files| - b
  {
    BoundaryIsNext(files, b);
    if SmallestBoundary(files, files[b - 1].largest).None? {
      c := b;
    } else {
      c := BoundaryChainIsSlice(files, b + 1);
      ConsSlice(files, b, c);
    }
  }

  lemma JoinSlices<T>(s: seq<T>, a: nat, b: nat, c: nat)
    requires a <= b <= c <= |s|
    ensures s[a..b] + s[b..c] == s[a..c]
  {
  }

  lemma ConsSlice<T>(s: seq<T>, b: nat, c: nat)
    requires b < c <= |s|
    ensures [s[b]] + s[b + 1..c] == s[b..c]
  {
  }

  lemma LargestOfSlice(files: seq<FileMetaData>, a: nat, b: nat)
    requires DisjointSorted(files) && ValidFiles(files) && a < b <= |files|
    ensures IsLargest(files[a..b], files[b - 1].largest)
    ensures IsSmallest(files[a..b], files[a].smallest)
  {
    assert files[a..b][b - 1 - a] == files[b - 1] && files[a..b][0] == files[a];
    forall f | f in files[a..b] ensures !Less(files[b - 1].largest, f.largest) && !Less(f.smallest, files[a].smallest) {
      var i :| 0 <= i < b - a && files[a..b][i] == f;
      assert f == files[a + i];
      ValidFileBounds(f);
      ValidFileBounds(files[a]);
      ValidFileBounds(files[b - 1]);
    }
  }

  // ---- what a pick satisfies ----

  datatype Compaction = Compaction(
    level: nat, inputs0: seq<FileMetaData>, inputs1: seq<FileMetaData>, grandparents: seq<FileMetaData>)

  predicate UsersOverlap(f: FileMetaData, g: FileMetaData) {
    f.smallest.user <= g.largest.user && g.smallest.user <= f.largest.user
  }

  /** At level 0: no file outside the inputs overlaps one of the inputs. */
  ghost predicate OverlapClosed(files: seq<FileMetaData>, inputs: seq<FileMetaData>) {
    && (forall f :: f in inputs ==> f in files)
    && forall f, g :: f in files && g in inputs && UsersOverlap(f, g) ==> f in inputs
  }

  /** Below level 0: consecutive files, cut off between two user keys at the old end. */
  ghost predicate CleanSlice(files: seq<FileMetaData>, inputs: seq<FileMetaData>, a: nat, b: nat) {
    a < b <= |files| && inputs == files[a..b] && CutBetweenUsers(files, b)
  }

  /** Consecutive files. */
  ghost predicate Slice(files: seq<FileMetaData>, inputs: seq<FileMetaData>, a: nat, b: nat) {
    a < b <= |files| && inputs == files[a..b]
  }

  ghost predicate GoodInputs(files: seq<FileMetaData>, level: nat, inputs: seq<FileMetaData>) {
    && inputs != []
    && (level == 0 ==> OverlapClosed(files, inputs))
    && (level > 0 ==> exists a: nat, b: nat :: CleanSlice(files, inputs, a, b))
  }

  /** The files of the next level that overlap the user-key range of the inputs. */
  ghost predicate NextInputs(next: seq<FileMetaData>, inputs0: seq<FileMetaData>, inputs1: seq<FileMetaData>) {
    exists s, l :: CoversExactly(inputs0, s, l) && inputs1 == Overlapping(next, Some(s.user), Some(l.user))
  }

  ghost predicate CoversExactly(inputs: seq<FileMetaData>, smallest: InternalKey, largest: InternalKey) {
    IsSmallest(inputs, smallest) && IsLargest(inputs, largest)
  }

  ghost predicate GoodPick(v: Version, c: Compaction) {
    && |v.files| == NUM_LEVELS && c.level + 1 < NUM_LEVELS
    && GoodInputs(v.files[c.level], c.level, c.inputs0)
    && NextInputs(v.files[c.level + 1], c.inputs0, c.inputs1)
  }

  /** What PickCompaction and CompactRange put into inputs_[0] before SetupOtherInputs. */
  ghost predicate GoodStart(files: seq<FileMetaData>, level: nat, inputs: seq<FileMetaData>) {
    && inputs != []
    && (level == 0 ==> OverlapClosed(files, inputs))
    && (level > 0 ==> exists a: nat, b: nat :: Slice(files, inputs, a, b))
  }

  lemma ClosedRangeIsOverlapClosed(files: seq<FileMetaData>, lo: Option<UserKey>, hi: Option<UserKey>)
    requires ValidFiles(files) && ClosedRange(files, lo, hi)
    ensures OverlapClosed(files, Overlapping(files, lo, hi))
  {
    OverlappingMembers(files, lo, hi);
  }

  lemma NoBoundaryAtLevelZero(files: seq<FileMetaData>, inputs: seq<FileMetaData>, largest: InternalKey)
    requires ValidFiles(files) && OverlapClosed(files, inputs) && IsLargest(inputs, largest)
    ensures BoundaryChain(files, largest) == []
  {
    forall g | g in files ensures !IsBoundary(g, largest) {
      ValidFileBounds(g);
      var f :| f in inputs && f.largest == largest;
      ValidFileBounds(f);
      assert IsBoundary(g, largest) ==> UsersOverlap(g, f);
    }
  }

  /** AddBoundaryInputs closes the inputs of the upper level. */
  lemma StartBecomesGood(files: seq<FileMetaData>, level: nat, inputs: seq<FileMetaData>, largest: InternalKey)
    requires ValidFiles(files) && (level > 0 ==> DisjointSorted(files))
    requires GoodStart(files, level, inputs) && IsLargest(inputs, largest)
    ensures GoodInputs(files, level, inputs + BoundaryChain(files, largest))
  {
    if level == 0 {
      NoBoundaryAtLevelZero(files, inputs, largest);
      assert inputs + [] == inputs;
    } else {
      var a: nat, b: nat :| Slice(files, inputs, a, b);
      SliceBecomesClean(files, inputs, a, b, largest);
    }
  }

  lemma SliceBecomesClean(files: seq<FileMetaData>, inputs: seq<FileMetaData>, a: nat, b: nat, largest: InternalKey)
    requires ValidFiles(files) && DisjointSorted(files)
    requires Slice(files, inputs, a, b) && IsLargest(inputs, largest)
    ensures exists c: nat :: CleanSlice(files, inputs + BoundaryChain(files, largest), a, c)
  {
    assert largest == files[b - 1].largest by {
      LargestOfSlice(files, a, b);
      SameLargest(inputs, largest, files[b - 1].largest);
    }
    var c := BoundaryChainIsSlice(files, b);
    JoinSlices(files, a, b, c);
    assert CleanSlice(files, inputs + BoundaryChain(files, largest), a, c);
  }

  /** A wider range selects a superset; with the same number of files it selects the same files. */
  lemma {:induction false} WiderOverlap(files: seq<FileMetaData>, lo: UserKey, hi: UserKey, lower: UserKey,
                                        higher: UserKey)
    requires lower <= lo && hi <= higher
    ensures |Overlapping(files, Some(lo), Some(hi))| <= |Overlapping(files, Some(lower), Some(higher))|
    ensures |Overlapping(files, Some(lo), Some(hi))| == |Overlapping(files, Some(lower), Some(higher))|
      ==> Overlapping(files, Some(lo), Some(hi)) == Overlapping(files, Some(lower), Some(higher))
  {
    if files != [] {
      WiderOverlap(files[..|files| - 1], lo, hi, lower, higher);
    }
  }

  function TotalFileSize(files: seq<FileMetaData>): nat {
    if files == [] then 0 else TotalFileSize(files[..|files| - 1]) + files[|files| - 1].fileSize
  }

  /** Overlapping the range of `inputs` is what every input does. */
  lemma InputsOverlapTheirRange(inputs: seq<FileMetaData>, s: InternalKey, l: InternalKey)
    requires ValidFiles(inputs) && IsSmallest(inputs, s) && IsLargest(inputs, l)
    ensures forall f :: f in inputs ==>
      Overlaps(f, Some(s.user), Some(l.user)) && s.user <= f.smallest.user && f.largest.user <= l.user
  {
    forall f | f in inputs
      ensures Overlaps(f, Some(s.user), Some(l.user)) && s.user <= f.smallest.user && f.largest.user <= l.user
    {
      ValidFileBounds(f);
      assert !Less(f.smallest, s) && !Less(l, f.largest);
    }
  }

  method TotalSize(files: seq<FileMetaData>) returns (sum: nat)
    ensures sum == TotalFileSize(files)
  {
    sum := 0;
    for i := 0 to |files|
      invariant sum == TotalFileSize(files[..i])
    {
      assert files[..i + 1][..i] == files[..i];
      sum := sum + files[i].fileSize;
    }
    assert files[..|files|] == files;
  }

  lemma {:induction false} RangeExists(inputs: seq<FileMetaData>) returns (smallest: InternalKey, largest: InternalKey)
    requires inputs != []
    ensures IsSmallest(inputs, smallest) && IsLargest(inputs, largest)
  {
    var f := inputs[0];
    assert inputs == [f] + inputs[1..];
    if inputs[1..] == [] {
      smallest, largest := f.smallest, f.largest;
    } else {
      smallest, largest := RangeExists(inputs[1..]);
      smallest := if Less(f.smallest, smallest) then f.smallest else smallest;
      largest := if Less(largest, f.largest) then f.largest else largest;
    }
  }

  lemma NextInputsAreFiles(next: seq<FileMetaData>, inputs0: seq<FileMetaData>, inputs1: seq<FileMetaData>)
    requires NextInputs(next, inputs0, inputs1)
    ensures forall f :: f in inputs1 ==> f in next
  {
    var s, l :| CoversExactly(inputs0, s, l) && inputs1 == Overlapping(next, Some(s.user), Some(l.user));
    OverlappingMembers(next, Some(s.user), Some(l.user));
  }

  lemma GoodInputsAreFiles(files: seq<FileMetaData>, level: nat, inputs: seq<FileMetaData>)
    requires GoodStart(files, level, inputs)
    ensures forall f :: f in inputs ==> f in files
  {
  }

  lemma GoodIsStart(files: seq<FileMetaData>, level: nat, inputs: seq<FileMetaData>)
    requires GoodInputs(files, level, inputs)
    ensures GoodStart(files, level, inputs)
  {
    if level > 0 {
      var a: nat, b: nat :| CleanSlice(files, inputs, a, b);
      assert Slice(files, inputs, a, b);
    }
  }

  lemma RangesNest(inner: seq<FileMetaData>, outer: seq<FileMetaData>, s: InternalKey, l: InternalKey,
                   outerS: InternalKey, outerL: InternalKey)
    requires forall f :: f in inner ==> f in outer
    requires IsSmallest(inner, s) && IsLargest(inner, l) && IsSmallest(outer, outerS) && IsLargest(outer, outerL)
    ensures outerS.user <= s.user && l.user <= outerL.user
  {
    var f :| f in inner && f.smallest == s;
    var g :| g in inner && g.largest == l;
    assert !Less(f.smallest, outerS) && !Less(outerL, g.largest);
  }

  /** The files of the level that overlap the range covered so far include the inputs so far. */
  lemma ExpandedIsGoodStart(files: seq<FileMetaData>, level: nat, inputs0: seq<FileMetaData>, all: seq<FileMetaData>,
                            s: InternalKey, l: InternalKey, lo: Option<UserKey>, hi: Option<UserKey>)
    requires ValidFiles(files) && ValidFiles(all) && (level > 0 ==> DisjointSorted(files))
    requires GoodInputs(files, level, inputs0) && (forall f :: f in inputs0 ==> f in all)
    requires IsSmallest(all, s) && IsLargest(all, l)
    requires Contains(lo, hi, Some(s.user), Some(l.user)) && (level == 0 ==> ClosedRange(files, lo, hi))
    ensures GoodStart(files, level, Overlapping(files, lo, hi))
    ensures forall f :: f in inputs0 ==> f in Overlapping(files, lo, hi)
  {
    InputsOverlapTheirRange(all, s, l);
    GoodIsStart(files, level, inputs0);
    OverlappingMembers(files, lo, hi);
    forall f | f in inputs0 ensures f in Overlapping(files, lo, hi) {
      assert f in all && Overlaps(f, lo, hi);
    }
    assert inputs0[0] in inputs0;
    if level == 0 {
      ClosedRangeIsOverlapClosed(files, lo, hi);
    } else {
      var a, b := OverlappingIsSlice(files, lo, hi);
      assert Slice(files, Overlapping(files, lo, hi), a, b);
    }
  }

  // ---- more files of the level ----

  /** All files of the level that overlap what `covered` covers, closed by boundary files. */
  ghost predicate ExpandsTo(files: seq<FileMetaData>, level: nat, covered: seq<FileMetaData>,
                            expanded: seq<FileMetaData>)
    requires ValidFiles(files)
  {
    exists s, l, overlap :: CoversExactly(covered, s, l) && ClosesOverlap(files, level, s, l, overlap, expanded)
  }

  ghost predicate ClosesOverlap(files: seq<FileMetaData>, level: nat, s: InternalKey, l: InternalKey,
                                overlap: seq<FileMetaData>, expanded: seq<FileMetaData>)
    requires ValidFiles(files)
  {
    && OverlappingInputs(files, level, Some(s.user), Some(l.user), overlap)
    && exists k :: IsLargest(overlap, k) && expanded == overlap + BoundaryChain(files, k)
  }

  /** The expansion takes more files of the level and no further file of the next level, and its total size
      stays below the limit. */
  ghost predicate Pays(next: seq<FileMetaData>, inputs0: seq<FileMetaData>, inputs1: seq<FileMetaData>,
                       expanded: seq<FileMetaData>, limit: nat) {
    && |expanded| > |inputs0| && TotalFileSize(inputs1) + TotalFileSize(expanded) < limit
    && exists s, l :: CoversExactly(expanded, s, l) && |Overlapping(next, Some(s.user), Some(l.user))| == |inputs1|
  }

  /** The inputs of the level are expanded when there are inputs of the next level and it pays. */
  ghost predicate GrowsTo(v: Version, level: nat, inputs0: seq<FileMetaData>, inputs1: seq<FileMetaData>, limit: nat,
                          grown: seq<FileMetaData>)
    requires |v.files| == NUM_LEVELS && level + 1 < NUM_LEVELS && ValidFiles(v.files[level])
  {
    if inputs1 == [] then grown == inputs0
    else
      exists expanded :: (
        && ExpandsTo(v.files[level], level, inputs0 + inputs1, expanded)
        && grown == if Pays(v.files[level + 1], inputs0, inputs1, expanded, limit) then expanded else inputs0)
  }

  lemma WhatPays(next: seq<FileMetaData>, inputs0: seq<FileMetaData>, inputs1: seq<FileMetaData>,
                 expanded: seq<FileMetaData>, limit: nat, s: InternalKey, l: InternalKey)
    requires CoversExactly(expanded, s, l)
    ensures Pays(next, inputs0, inputs1, expanded, limit) <==>
      && |expanded| > |inputs0| && TotalFileSize(inputs1) + TotalFileSize(expanded) < limit
      && |Overlapping(next, Some(s.user), Some(l.user))| == |inputs1|
  {
    if s', l' :| CoversExactly(expanded, s', l') && |Overlapping(next, Some(s'.user), Some(l'.user))| == |inputs1| {
      CoversOnce(expanded, s, l, s', l');
    }
  }

  /** A pick is its start closed by boundary files, with the files of the next level that overlap this, and
      grown if that pays. */
  ghost predicate ExtendsStart(v: Version, start: seq<FileMetaData>, c: Compaction, limit: nat)
    requires |v.files| == NUM_LEVELS && c.level + 1 < NUM_LEVELS
  {
    && ValidFiles(v.files[c.level])
    && exists largest ::
      IsLargest(start, largest) && ExtendsPlain(v, start + BoundaryChain(v.files[c.level], largest), c, limit)
  }

  ghost predicate ExtendsPlain(v: Version, plain: seq<FileMetaData>, c: Compaction, limit: nat)
    requires |v.files| == NUM_LEVELS && c.level + 1 < NUM_LEVELS && ValidFiles(v.files[c.level])
  {
    && (forall f :: f in plain ==> f in c.inputs0)
    && NextInputs(v.files[c.level + 1], plain, c.inputs1)
    && GrowsTo(v, c.level, plain, c.inputs1, limit, c.inputs0)
  }

  lemma PlainGrows(v: Version, plain: seq<FileMetaData>, c: Compaction, limit: nat)
    requires |v.files| == NUM_LEVELS && c.level + 1 < NUM_LEVELS && ValidFiles(v.files[c.level])
    requires ExtendsPlain(v, plain, c, limit)
    ensures c.inputs0 != plain ==>
      |c.inputs0| > |plain| && TotalFileSize(c.inputs0) + TotalFileSize(c.inputs1) < limit
  {
  }

  /** The inputs are grown only to more files, and only within the limit on all that is read. */
  lemma GrowsWithinLimit(v: Version, start: seq<FileMetaData>, c: Compaction, limit: nat)
    requires |v.files| == NUM_LEVELS && c.level + 1 < NUM_LEVELS && ExtendsStart(v, start, c, limit)
    ensures exists largest ::
      var plain := start + BoundaryChain(v.files[c.level], largest);
      && IsLargest(start, largest)
      && (c.inputs0 != plain ==>
           |c.inputs0| > |plain| && TotalFileSize(c.inputs0) + TotalFileSize(c.inputs1) < limit)
  {
    var l :| IsLargest(start, l) && ExtendsPlain(v, start + BoundaryChain(v.files[c.level], l), c, limit);
    PlainGrows(v, start + BoundaryChain(v.files[c.level], l), c, limit);
  }

  /** Two keys that cover the same files are the same. */
  lemma CoversOnce(files: seq<FileMetaData>, s: InternalKey, l: InternalKey, s': InternalKey, l': InternalKey)
    requires CoversExactly(files, s, l) && CoversExactly(files, s', l')
    ensures s == s' && l == l'
  {
    SameLargest(files, l, l');
    var f :| f in files && f.smallest == s;
    var g :| g in files && g.smallest == s';
    assert !Less(f.smallest, s') && !Less(g.smallest, s);
    assert Tag(s) == Tag(s');
  }

  lemma PickIsGood(v: Version, start: seq<FileMetaData>, plain: seq<FileMetaData>, c: Compaction, s: InternalKey,
                   l: InternalKey, newS: InternalKey, newL: InternalKey, limit: nat)
    requires |v.files| == NUM_LEVELS && c.level + 1 < NUM_LEVELS && ValidFiles(v.files[c.level])
    requires GoodInputs(v.files[c.level], c.level, c.inputs0)
    requires CoversExactly(plain, s, l) && CoversExactly(c.inputs0, newS, newL)
    requires c.inputs1 == Overlapping(v.files[c.level + 1], Some(s.user), Some(l.user))
    requires c.inputs1 == Overlapping(v.files[c.level + 1], Some(newS.user), Some(newL.user))
    requires exists k :: IsLargest(start, k) && plain == start + BoundaryChain(v.files[c.level], k)
    requires forall f :: f in plain ==> f in c.inputs0
    requires GrowsTo(v, c.level, plain, c.inputs1, limit, c.inputs0)
    ensures GoodPick(v, c) && ExtendsStart(v, start, c, limit)
  {
    assert NextInputs(v.files[c.level + 1], plain, c.inputs1);
    assert NextInputs(v.files[c.level + 1], c.inputs0, c.inputs1);
    var k :| IsLargest(start, k) && plain == start + BoundaryChain(v.files[c.level], k);
    assert ExtendsPlain(v, start + BoundaryChain(v.files[c.level], k), c, limit);
  }

  // ---- the files of a manual compaction ----

  /** The files up to the first at which the total reaches the limit. */
  ghost predicate UpToLimit(all: seq<FileMetaData>, limit: nat, start: seq<FileMetaData>) {
    && start != [] && start <= all
    && (start != all ==> TotalFileSize(start) >= limit)
    && forall n :: 0 < n < |start| ==> TotalFileSize(all[..n]) < limit
  }

  /** The files of the level that overlap the range; below level 0 only up to the limit. */
  ghost predicate ManualStart(files: seq<FileMetaData>, level: nat, begin: Option<UserKey>, end: Option<UserKey>,
                              limit: nat, start: seq<FileMetaData>) {
    exists all :: OverlappingInputs(files, level, begin, end, all)
      && if level == 0 then start == all else UpToLimit(all, limit, start)
  }

  method CutAtLimit(inputs: seq<FileMetaData>, limit: nat) returns (start: seq<FileMetaData>)
    requires inputs != []
    ensures UpToLimit(inputs, limit, start)
  {
    start := inputs;
    var total := 0;
    for i := 0 to |inputs|
      invariant start == inputs && total == TotalFileSize(inputs[..i])
      invariant forall n :: 0 < n <= i ==> TotalFileSize(inputs[..n]) < limit
    {
      assert inputs[..i + 1][..i] == inputs[..i];
      total := total + inputs[i].fileSize;
      if total >= limit {
        start := inputs[..i + 1];
        break;
      }
    }
  }

  /** The search widens its range only over files that overlap it. */
  lemma SomeOverlap(files: seq<FileMetaData>, level: nat, begin: Option<UserKey>, end: Option<UserKey>,
                    lo: Option<UserKey>, hi: Option<UserKey>)
    requires SearchedRange(files, level, begin, end, lo, hi)
    ensures Overlapping(files, lo, hi) == [] <==> forall f :: f in files ==> !Overlaps(f, begin, end)
  {
    OverlappingMembers(files, lo, hi);
    if forall f :: f in files ==> !Overlaps(f, begin, end) {
      assert ClosedRange(files, begin, end);
      assert Contains(begin, end, lo, hi);
      forall f | f in files ensures !Overlaps(f, lo, hi) {
      }
    } else {
      var f :| f in files && Overlaps(f, begin, end);
      assert Overlaps(f, lo, hi);
    }
  }

  // ---- the version set's picking state ----

  /** Why a compaction starts. The scores behind the choice are not part of this model. */
  datatype Trigger = BySize(level: nat) | BySeek(level: nat, file: FileMetaData) | NoTrigger

  /** The next compaction of the level starts behind this one. */
  ghost predicate PointerMoved(before: Pointers, c: Compaction, after: Pointers) {
    c.level < |before| && exists l :: IsLargest(c.inputs0, l) && after == before[c.level := Some(l)]
  }

  class VersionSet {
    var current: Version
    var compactPointer: Pointers
    const expandedByteLimit: nat

    ghost predicate Valid()
      reads this
    {
      Searchable(current) && |compactPointer| == NUM_LEVELS
    }

    constructor (current: Version, expandedByteLimit: nat)
      requires Searchable(current)
      ensures Valid() && this.current == current && this.expandedByteLimit == expandedByteLimit
      ensures forall level :: 0 <= level < NUM_LEVELS ==> compactPointer[level] == None
    {
      this.current := current;
      this.compactPointer := seq(NUM_LEVELS, _ => None);
      this.expandedByteLimit := expandedByteLimit;
    }

    /** The inputs of the level closed by boundary files, and the overlapping files of the next level. */
    method PlainInputs(level: nat, start: seq<FileMetaData>)
      returns (inputs0: seq<FileMetaData>, inputs1: seq<FileMetaData>, smallest: InternalKey, largest: InternalKey)
      requires Valid() && level + 1 < NUM_LEVELS
      requires GoodStart(current.files[level], level, start)
      ensures ValidFiles(current.files[level]) && GoodInputs(current.files[level], level, inputs0)
      ensures exists l :: IsLargest(start, l) && inputs0 == start + BoundaryChain(current.files[level], l)
      ensures CoversExactly(inputs0, smallest, largest)
      ensures inputs1 == Overlapping(current.files[level + 1], Some(smallest.user), Some(largest.user))
    {
      ghost var _, startLargest := RangeExists(start);
      inputs0 := AddBoundaryInputs(current.files[level], start, startLargest);
      StartBecomesGood(current.files[level], level, start, startLargest);
      smallest, largest := GetRange(inputs0);
      var overlap1, _, _ := GetOverlappingInputs(current.files[level + 1], level + 1, Some(smallest), Some(largest));
      inputs1 := overlap1;
    }

    /** All files of the level that overlap the range covered so far, closed by boundary files. */
    method ExpandedInputs(level: nat, inputs0: seq<FileMetaData>, inputs1: seq<FileMetaData>)
      returns (expanded0: seq<FileMetaData>)
      requires Valid() && level + 1 < NUM_LEVELS
      requires GoodInputs(current.files[level], level, inputs0)
      requires forall f :: f in inputs1 ==> f in current.files[level + 1]
      ensures ValidFiles(current.files[level]) && GoodInputs(current.files[level], level, expanded0)
      ensures forall f :: f in inputs0 ==> f in expanded0
      ensures ExpandsTo(current.files[level], level, inputs0 + inputs1, expanded0)
    {
      var files := current.files[level];
      GoodIsStart(files, level, inputs0);
      GoodInputsAreFiles(files, level, inputs0);
      var allStart, allLimit := GetRange(inputs0 + inputs1);
      var overlap0, lo, hi := GetOverlappingInputs(files, level, Some(allStart), Some(allLimit));
      ExpandedIsGoodStart(files, level, inputs0, inputs0 + inputs1, allStart, allLimit, lo, hi);
      ghost var _, overlapLargest := RangeExists(overlap0);
      expanded0 := AddBoundaryInputs(files, overlap0, overlapLargest);
      StartBecomesGood(files, level, overlap0, overlapLargest);
      assert SearchedRange(files, level, Some(allStart.user), Some(allLimit.user), lo, hi);
      assert ClosesOverlap(files, level, allStart, allLimit, overlap0, expanded0);
      assert CoversExactly(inputs0 + inputs1, allStart, allLimit);
    }

    /** Takes more files of the level when that needs no further file of the next level and the total
        stays small. */
    method GrowInputs(level: nat, inputs0: seq<FileMetaData>, inputs1: seq<FileMetaData>, smallest: InternalKey,
                      largest: InternalKey)
      returns (grown: seq<FileMetaData>, newSmallest: InternalKey, newLargest: InternalKey)
      requires Valid() && level + 1 < NUM_LEVELS
      requires GoodInputs(current.files[level], level, inputs0) && CoversExactly(inputs0, smallest, largest)
      requires inputs1 == Overlapping(current.files[level + 1], Some(smallest.user), Some(largest.user))
      ensures GoodInputs(current.files[level], level, grown) && CoversExactly(grown, newSmallest, newLargest)
      ensures inputs1 == Overlapping(current.files[level + 1], Some(newSmallest.user), Some(newLargest.user))
      ensures forall f :: f in inputs0 ==> f in grown
      ensures ValidFiles(current.files[level])
      ensures GrowsTo(current, level, inputs0, inputs1, expandedByteLimit, grown)
    {
      grown, newSmallest, newLargest := inputs0, smallest, largest;
      if inputs1 == [] {
        return;
      }
      var next := current.files[level + 1];
      OverlappingMembers(next, Some(smallest.user), Some(largest.user));
      var expanded0 := ExpandedInputs(level, inputs0, inputs1);
      var pays, newStart, newLimit := GrowthPays(level, inputs0, inputs1, expanded0, smallest, largest);
      if pays {
        grown, newSmallest, newLargest := expanded0, newStart, newLimit;
      }
    }

    /** Whether the expanded inputs are worth it; if so, they need the same files of the next level. */
    method GrowthPays(level: nat, inputs0: seq<FileMetaData>, inputs1: seq<FileMetaData>,
                      expanded0: seq<FileMetaData>, smallest: InternalKey, largest: InternalKey)
      returns (pays: bool, newStart: InternalKey, newLimit: InternalKey)
      requires Valid() && level + 1 < NUM_LEVELS && expanded0 != []
      requires CoversExactly(inputs0, smallest, largest) && forall f :: f in inputs0 ==> f in expanded0
      requires inputs1 == Overlapping(current.files[level + 1], Some(smallest.user), Some(largest.user))
      ensures pays <==> Pays(current.files[level + 1], inputs0, inputs1, expanded0, expandedByteLimit)
      ensures pays ==> CoversExactly(expanded0, newStart, newLimit)
      ensures pays ==> inputs1 == Overlapping(current.files[level + 1], Some(newStart.user), Some(newLimit.user))
    {
      pays, newStart, newLimit := false, smallest, largest;
      var next := current.files[level + 1];
      var inputs1Size := TotalSize(inputs1);
      var expanded0Size := TotalSize(expanded0);
      if |expanded0| > |inputs0| && inputs1Size + expanded0Size < expandedByteLimit {
        newStart, newLimit := GetRange(expanded0);
        var expanded1, _, _ := GetOverlappingInputs(next, level + 1, Some(newStart), Some(newLimit));
        pays := |expanded1| == |inputs1|;
        WhatPays(next, inputs0, inputs1, expanded0, expandedByteLimit, newStart, newLimit);
        RangesNest(inputs0, expanded0, smallest, largest, newStart, newLimit);
        WiderOverlap(next, smallest.user, largest.user, newStart.user, newLimit.user);
      }
    }

    /** Completes the inputs of a compaction: boundary files of the level, the overlapping files of the
        next level, and, when that takes no further file of the next level, more files of the level. */
    method SetupOtherInputs(level: nat, start: seq<FileMetaData>) returns (c: Compaction)
      requires Valid() && level + 1 < NUM_LEVELS
      requires GoodStart(current.files[level], level, start)
      modifies this`compactPointer
      ensures Valid()
      ensures c.level == level && GoodPick(current, c) && ExtendsStart(current, start, c, expandedByteLimit)
      ensures GoodGrandparents(current, c)
      ensures PointerMoved(old(compactPointer), c, compactPointer)
    {
      var largest;
      c, largest := CompleteInputs(level, start);
      ghost var v := current;
      compactPointer := compactPointer[level := Some(largest)];
      assert current == v;
      assert GoodPick(v, c) && ExtendsStart(v, start, c, expandedByteLimit) && GoodGrandparents(v, c);
    }

    method CompleteInputs(level: nat, start: seq<FileMetaData>) returns (c: Compaction, largest: InternalKey)
      requires Valid() && level + 1 < NUM_LEVELS
      requires GoodStart(current.files[level], level, start)
      ensures c.level == level && GoodPick(current, c) && ExtendsStart(current, start, c, expandedByteLimit)
      ensures GoodGrandparents(current, c)
      ensures IsLargest(c.inputs0, largest)
    {
      var plain, inputs1, plainSmallest, plainLargest := PlainInputs(level, start);
      var inputs0, smallest, newLargest := GrowInputs(level, plain, inputs1, plainSmallest, plainLargest);
      var grandparents := Grandparents(level, inputs0, inputs1);
      largest := newLargest;
      c := Compaction(level, inputs0, inputs1, grandparents);
      PickIsGood(current, start, plain, c, plainSmallest, plainLargest, smallest, largest,
        expandedByteLimit);
    }

    /** The files two levels down that overlap everything the compaction covers. */
    method Grandparents(level: nat, inputs0: seq<FileMetaData>, inputs1: seq<FileMetaData>)
      returns (grandparents: seq<FileMetaData>)
      requires Valid() && level + 1 < NUM_LEVELS && inputs0 != []
      ensures GoodGrandparents(current, Compaction(level, inputs0, inputs1, grandparents))
    {
      var allStart, allLimit := GetRange(inputs0 + inputs1);
      grandparents := [];
      if level + 2 < NUM_LEVELS {
        var overlapping, _, _ := GetOverlappingInputs(current.files[level + 2], level + 2, Some(allStart),
          Some(allLimit));
        grandparents := overlapping;
        assert CoversExactly(inputs0 + inputs1, allStart, allLimit);
      }
    }

    method FirstPast(files: seq<FileMetaData>, pointer: Option<InternalKey>) returns (index: nat)
      requires files != []
      ensures index < |files| && FirstAfter(files, pointer, files[index])
    {
      index := 0;
      while index < |files| && !EndsAfter(files[index], pointer)
        invariant index <= |files|
        invariant forall i :: 0 <= i < index ==> !EndsAfter(files[i], pointer)
      {
        index := index + 1;
      }
      if index == |files| {
        index := 0;
      }
      assert FirstAt(files, pointer, files[index], index);
    }

    /** Starts a compaction: by size, at the first file past the level's pointer or back at the first
        file; by seeks, at the file that was read in vain. */
    method PickCompaction(trigger: Trigger) returns (r: Option<Compaction>)
      requires Valid()
      requires trigger.BySize? ==> trigger.level + 1 < NUM_LEVELS && current.files[trigger.level] != []
      requires trigger.BySeek? ==> trigger.level + 1 < NUM_LEVELS && trigger.file in current.files[trigger.level]
      modifies this`compactPointer
      ensures Valid()
      ensures r.None? <==> trigger.NoTrigger?
      ensures r.None? ==> compactPointer == old(compactPointer)
      ensures r.Some? ==> GoodPick(current, r.value) && GoodGrandparents(current, r.value)
      ensures r.Some? ==> r.value.level == trigger.level && PointerMoved(old(compactPointer), r.value, compactPointer)
      ensures r.Some? ==> exists f, start ::
        && StartsAt(trigger, current.files[trigger.level], old(compactPointer)[trigger.level], f)
        && PickedStart(current.files[trigger.level], trigger.level, f, start)
        && ExtendsStart(current, start, r.value, expandedByteLimit) && f in r.value.inputs0
    {
      if trigger.NoTrigger? {
        return None;
      }
      ghost var picked;
      var start;
      start, picked := StartInputs(trigger);
      var c := SetupOtherInputs(trigger.level, start);
      assert picked in start && picked in c.inputs0;
      r := Some(c);
    }

    /** The picked file, at level 0 with all files that overlap it or each other. */
    method StartInputs(trigger: Trigger) returns (start: seq<FileMetaData>, ghost picked: FileMetaData)
      requires Valid() && !trigger.NoTrigger? && trigger.level + 1 < NUM_LEVELS
      requires trigger.BySize? ==> current.files[trigger.level] != []
      requires trigger.BySeek? ==> trigger.file in current.files[trigger.level]
      ensures GoodStart(current.files[trigger.level], trigger.level, start)
      ensures StartsAt(trigger, current.files[trigger.level], compactPointer[trigger.level], picked)
      ensures PickedStart(current.files[trigger.level], trigger.level, picked, start)
    {
      var level := trigger.level;
      var files := current.files[level];
      var index := 0;
      if trigger.BySize? {
        index := FirstPast(files, compactPointer[level]);
      } else {
        index :| 0 <= index < |files| && files[index] == trigger.file;
      }
      start, picked := [files[index]], files[index];
      if level == 0 {
        var smallest, largest := GetRange(start);
        var overlapping, lo, hi := GetOverlappingInputs(files, 0, Some(smallest), Some(largest));
        start := overlapping;
        PickedIsIncluded(files, picked, smallest, largest, lo, hi);
        assert SearchedRange(files, 0, Some(smallest.user), Some(largest.user), lo, hi);
      } else {
        SingleSlice(files, index);
      }
    }

    /** Starts a manual compaction of a key range: below level 0, only as many files as one compaction
        should take. */
    method CompactRange(level: nat, begin: Option<InternalKey>, end: Option<InternalKey>, limit: nat)
      returns (r: Option<Compaction>)
      requires Valid() && level + 1 < NUM_LEVELS
      modifies this`compactPointer
      ensures Valid()
      ensures r.None? <==> forall f :: f in current.files[level] ==> !Overlaps(f, UserOf(begin), UserOf(end))
      ensures r.None? ==> compactPointer == old(compactPointer)
      ensures r.Some? ==> r.value.level == level && GoodPick(current, r.value) && GoodGrandparents(current, r.value)
      ensures r.Some? ==> exists start ::
        ManualStart(current.files[level], level, UserOf(begin), UserOf(end), limit, start)
        && ExtendsStart(current, start, r.value, expandedByteLimit)
      ensures r.Some? ==> PointerMoved(old(compactPointer), r.value, compactPointer)
    {
      var inputs := ManualInputs(level, begin, end, limit);
      if inputs == [] {
        return None;
      }
      var c := SetupOtherInputs(level, inputs);
      r := Some(c);
    }

    /** The overlapping files of the level, as many as one compaction should take. */
    method ManualInputs(level: nat, begin: Option<InternalKey>, end: Option<InternalKey>, limit: nat)
      returns (start: seq<FileMetaData>)
      requires Valid() && level + 1 < NUM_LEVELS
      ensures start == [] <==> forall f :: f in current.files[level] ==> !Overlaps(f, UserOf(begin), UserOf(end))
      ensures start != [] ==> GoodStart(current.files[level], level, start)
      ensures start != [] ==> ManualStart(current.files[level], level, UserOf(begin), UserOf(end), limit, start)
    {
      var files := current.files[level];
      var inputs, lo, hi := GetOverlappingInputs(files, level, begin, end);
      assert SearchedRange(files, level, UserOf(begin), UserOf(end), lo, hi);
      assert OverlappingInputs(files, level, UserOf(begin), UserOf(end), inputs);
      SomeOverlap(files, level, UserOf(begin), UserOf(end), lo, hi);
      start := inputs;
      if inputs == [] {
        return;
      }
      if level > 0 {
        start := CutAtLimit(inputs, limit);
        ghost var a, b := OverlappingIsSlice(files, lo, hi);
        assert start == inputs[..|start|];
        PrefixOfSlice(files, inputs, a, b, |start|);
      } else {
        ClosedRangeIsOverlapClosed(files, lo, hi);
      }
    }
  }

  /** The grandparents are the files two levels down that overlap the whole compaction. */
  ghost predicate GoodGrandparents(v: Version, c: Compaction)
    requires |v.files| == NUM_LEVELS && c.level + 1 < NUM_LEVELS
  {
    if c.level + 2 < NUM_LEVELS then NextInputs(v.files[c.level + 2], c.inputs0 + c.inputs1, c.grandparents)
      else c.grandparents == []
  }

  /** The file that the trigger picks. */
  ghost predicate StartsAt(trigger: Trigger, files: seq<FileMetaData>, pointer: Option<InternalKey>, f: FileMetaData) {
    match trigger
    case BySize(_) => FirstAfter(files, pointer, f)
    case BySeek(_, file) => f == file && f in files
    case NoTrigger => false
  }

  /** What goes into the inputs of the level for it. */
  ghost predicate PickedStart(files: seq<FileMetaData>, level: nat, f: FileMetaData, start: seq<FileMetaData>) {
    if level > 0 then start == [f]
    else f in start && OverlappingInputs(files, 0, Some(f.smallest.user), Some(f.largest.user), start)
  }

  /** The first file that ends after the pointer, or the first of all when there is none. */
  ghost predicate FirstAfter(files: seq<FileMetaData>, pointer: Option<InternalKey>, f: FileMetaData) {
    exists i :: FirstAt(files, pointer, f, i)
  }

  ghost predicate FirstAt(files: seq<FileMetaData>, pointer: Option<InternalKey>, f: FileMetaData, i: int) {
    && 0 <= i < |files| && files[i] == f
    && (EndsAfter(f, pointer) || (i == 0 && forall g :: g in files ==> !EndsAfter(g, pointer)))
    && forall j :: 0 <= j < i ==> !EndsAfter(files[j], pointer)
  }

  predicate EndsAfter(f: FileMetaData, pointer: Option<InternalKey>) {
    pointer.None? || Less(pointer.value, f.largest)
  }

  lemma PrefixOfSlice(files: seq<FileMetaData>, all: seq<FileMetaData>, a: nat, b: nat, n: nat)
    requires Slice(files, all, a, b) && 0 < n <= |all|
    ensures Slice(files, all[..n], a, a + n)
  {
    assert all[..n] == files[a..a + n];
  }

  lemma SingleSlice(files: seq<FileMetaData>, index: nat)
    requires index < |files|
    ensures Slice(files, [files[index]], index, index + 1)
  {
    assert [files[index]] == files[index..index + 1];
  }

  lemma PickedIsIncluded(files: seq<FileMetaData>, f: FileMetaData, s: InternalKey, l: InternalKey, lo: Option<UserKey>,
                         hi: Option<UserKey>)
    requires ValidFiles(files) && f in files && CoversExactly([f], s, l)
    requires ClosedRange(files, lo, hi) && Contains(lo, hi, Some(s.user), Some(l.user))
    ensures f in Overlapping(files, lo, hi) && GoodStart(files, 0, Overlapping(files, lo, hi))
    ensures s == f.smallest && l == f.largest
  {
    assert f in [f];
    OverlappingMembers(files, lo, hi);
    ClosedRangeIsOverlapClosed(files, lo, hi);
    assert s == f.smallest && l == f.largest;
  }
}
