/** Table files, levels and the invariants every installed version keeps (db/version_set.h). */
module Versions {
  import opened Basics
  import opened InternalKeys

  const NUM_LEVELS: nat := 7

  /** Where the next compaction of each level starts; None until one has run. */
  type Pointers = seq<Option<InternalKey>>

  const NO_POINTERS: Pointers := [None, None, None, None, None, None, None]
  const MAX_MEM_COMPACT_LEVEL: nat := 2

  /** A table file: its manifest record, and the sorted entries a lookup in the table goes through. */
  datatype FileMetaData = FileMetaData(
    number: nat, fileSize: nat, smallest: InternalKey, largest: InternalKey, entries: seq<Entry>)

  datatype Version = Version(files: seq<seq<FileMetaData>>)

  ghost predicate ValidFile(f: FileMetaData) {
    && f.entries != []
    && SortedKeys(f.entries)
    && f.smallest == f.entries[0].key
    && f.largest == f.entries[|f.entries| - 1].key
    && !Less(f.largest, f.smallest)
  }

  ghost predicate In(v: Version, level: nat, f: FileMetaData) {
    level < |v.files| && f in v.files[level]
  }

  /** The order in which a version lists the files of a level: smallest key, then number. */
  predicate FileLess(f: FileMetaData, g: FileMetaData) {
    Less(f.smallest, g.smallest) || (!Less(g.smallest, f.smallest) && f.number < g.number)
  }

  ghost predicate SortedFiles(files: seq<FileMetaData>) {
    forall i, j :: 0 <= i < j < |files| ==> FileLess(files[i], files[j])
  }

  ghost predicate Apart(f: FileMetaData, g: FileMetaData) {
    Less(f.largest, g.smallest) || Less(g.largest, f.smallest)
  }

  /** Every entry of `f` is newer than every entry of `g` for the same user key. */
  ghost predicate Newer(f: FileMetaData, g: FileMetaData) {
    forall a, b :: a in f.entries && b in g.entries && a.key.user == b.key.user
      ==> a.key.sequence > b.key.sequence
  }

  /** Levels and files a read must consult before others. */
  predicate Shallower(level: nat, f: FileMetaData, other: nat, g: FileMetaData) {
    level < other || (level == other == 0 && f.number > g.number)
  }

  ghost predicate WellFormed(v: Version) {
    && |v.files| == NUM_LEVELS
    && (forall level, f :: In(v, level, f) ==> ValidFile(f))
    && (forall level :: 0 <= level < NUM_LEVELS ==> SortedFiles(v.files[level]))
  }

  /** Below level 0 the files of a level do not overlap. */
  ghost predicate Shape(v: Version) {
    forall level, f, g :: 1 <= level && In(v, level, f) && In(v, level, g) && f != g ==> Apart(f, g)
  }

  ghost predicate Age(v: Version) {
    forall level, f, other, g :: In(v, level, f) && In(v, other, g) && Shallower(level, f, other, g) ==> Newer(f, g)
  }

  ghost predicate DistinctNumbers(v: Version) {
    forall level, f, other, g :: In(v, level, f) && In(v, other, g) && f.number == g.number
      ==> level == other && f == g
  }

  ghost predicate FilesUnique(f: FileMetaData, g: FileMetaData) {
    forall a, b :: a in f.entries && b in g.entries ==> SameVersionSameEntry(a, b)
  }

  predicate SameVersionSameEntry(a: Entry, b: Entry) {
    a.key.user == b.key.user && a.key.sequence == b.key.sequence ==> a == b
  }

  /** No two entries of a version carry the same sequence number for the same user key. */
  ghost predicate UniqueEntries(v: Version) {
    forall level, f, other, g :: In(v, level, f) && In(v, other, g) ==> FilesUnique(f, g)
  }

  ghost predicate Inv(v: Version) {
    WellFormed(v) && Shape(v) && Age(v) && DistinctNumbers(v) && UniqueEntries(v)
  }

  /** Sorted and pairwise non-overlapping, as the binary searches below level 0 need it. */
  ghost predicate DisjointSorted(files: seq<FileMetaData>) {
    forall i, j :: 0 <= i < j < |files| ==> Less(files[i].largest, files[j].smallest)
  }

  ghost predicate ValidFiles(files: seq<FileMetaData>) {
    forall f :: f in files ==> ValidFile(f)
  }

  lemma ValidFileBounds(f: FileMetaData)
    requires ValidFile(f)
    ensures !Less(f.largest, f.smallest)
    ensures forall e :: e in f.entries ==> !Less(e.key, f.smallest) && !Less(f.largest, e.key)
    ensures forall e :: e in f.entries ==> f.smallest.user <= e.key.user <= f.largest.user
  {
  }

  /** The set view of a level (pairwise apart) and its list view (sorted) give disjoint sorted runs. */
  lemma LevelIsDisjointSorted(v: Version, level: nat)
    requires WellFormed(v) && Shape(v) && 1 <= level < NUM_LEVELS
    ensures DisjointSorted(v.files[level]) && ValidFiles(v.files[level])
  {
    var files := v.files[level];
    forall f | f in files ensures ValidFile(f) {
      assert In(v, level, f);
    }
    forall i, j | 0 <= i < j < |files| ensures Less(files[i].largest, files[j].smallest) {
      assert In(v, level, files[i]) && In(v, level, files[j]);
      assert FileLess(files[i], files[j]);
      ValidFileBounds(files[i]);
      ValidFileBounds(files[j]);
    }
  }

  /** What the searches over a version rely on. */
  ghost predicate Searchable(v: Version) {
    && |v.files| == NUM_LEVELS
    && (forall level :: 0 <= level < NUM_LEVELS ==> ValidFiles(v.files[level]))
    && (forall level :: 1 <= level < NUM_LEVELS ==> DisjointSorted(v.files[level]))
  }

  lemma InvIsSearchable(v: Version)
    requires WellFormed(v) && Shape(v)
    ensures Searchable(v)
  {
    forall level | 0 <= level < NUM_LEVELS ensures ValidFiles(v.files[level]) {
      forall f | f in v.files[level] ensures ValidFile(f) {
        assert In(v, level, f);
      }
    }
    forall level | 1 <= level < NUM_LEVELS ensures DisjointSorted(v.files[level]) {
      LevelIsDisjointSorted(v, level);
    }
  }

  ghost function EntriesOf(files: seq<FileMetaData>): set<Entry> {
    set f, e | f in files && e in f.entries :: e
  }

  ghost function AllEntries(v: Version): set<Entry> {
    set level, f, e | 0 <= level < |v.files| && f in v.files[level] && e in f.entries :: e
  }

  lemma AllEntriesMember(v: Version, level: nat, f: FileMetaData, e: Entry)
    requires In(v, level, f) && e in f.entries
    ensures e in AllEntries(v)
  {
  }

  lemma FileOf(v: Version, e: Entry) returns (level: nat, f: FileMetaData)
    requires e in AllEntries(v)
    ensures In(v, level, f) && e in f.entries
  {
    var l, g :| 0 <= l < |v.files| && g in v.files[l] && e in g.entries;
    level, f := l, g;
  }

  // ---- ranges of user keys; None stands for an open end ----

  predicate AfterFile(user: Option<UserKey>, f: FileMetaData) {
    user.Some? && user.value > f.largest.user
  }

  predicate BeforeFile(user: Option<UserKey>, f: FileMetaData) {
    user.Some? && user.value < f.smallest.user
  }

  predicate Overlaps(f: FileMetaData, lo: Option<UserKey>, hi: Option<UserKey>) {
    !AfterFile(lo, f) && !BeforeFile(hi, f)
  }

  function Overlapping(files: seq<FileMetaData>, lo: Option<UserKey>, hi: Option<UserKey>): seq<FileMetaData> {
    if files == [] then []
    else
      var rest := Overlapping(files[..|files| - 1], lo, hi);
      var f := files[|files| - 1];
      if Overlaps(f, lo, hi) then rest + [f] else rest
  }

  lemma {:induction false} OverlappingMembers(files: seq<FileMetaData>, lo: Option<UserKey>, hi: Option<UserKey>)
    ensures forall f :: f in Overlapping(files, lo, hi) <==> f in files && Overlaps(f, lo, hi)
  {
    if files != [] {
      var front := files[..|files| - 1];
      OverlappingMembers(front, lo, hi);
      assert files == front + [files[|files| - 1]];
    }
  }

  /** In a disjoint sorted level the files overlapping a range are consecutive. */
  lemma OverlappingIsSlice(files: seq<FileMetaData>, lo: Option<UserKey>, hi: Option<UserKey>)
    returns (a: nat, b: nat)
    requires DisjointSorted(files) && ValidFiles(files)
    ensures a <= b <= |files| && Overlapping(files, lo, hi) == files[a..b]
    ensures forall i :: 0 <= i < |files| ==> (a <= i < b <==> Overlaps(files[i], lo, hi))
  {
    a := 0;
    while a < |files| && AfterFile(lo, files[a])
      invariant a <= |files| && forall i :: 0 <= i < a ==> AfterFile(lo, files[i])
    {
      a := a + 1;
    }
    b := a;
    while b < |files| && !BeforeFile(hi, files[b])
      invariant a <= b <= |files| && forall i :: a <= i < b ==> !BeforeFile(hi, files[i])
    {
      b := b + 1;
    }
    forall i | a <= i < |files|
      ensures !AfterFile(lo, files[i]) && (b <= i ==> BeforeFile(hi, files[i]))
    {
      if a < i {
        PairOrdered(files, a, i);
      }
      if b < i {
        PairOrdered(files, b, i);
      }
    }
    assert files[..|files|] == files;
    SliceFilter(files, lo, hi, a, b, |files|);
  }

  lemma PairOrdered(files: seq<FileMetaData>, i: nat, j: nat)
    requires DisjointSorted(files) && ValidFiles(files) && i < j < |files|
    ensures files[i].smallest.user <= files[i].largest.user <= files[j].smallest.user <= files[j].largest.user
  {
    ValidFileBounds(files[i]);
    ValidFileBounds(files[j]);
    assert Less(files[i].largest, files[j].smallest);
  }

  lemma {:induction false} SliceFilter(files: seq<FileMetaData>, lo: Option<UserKey>, hi: Option<UserKey>, a: nat,
                                       b: nat, k: nat)
    requires a <= b <= |files| && k <= |files|
    requires forall i :: 0 <= i < |files| ==> (a <= i < b <==> Overlaps(files[i], lo, hi))
    ensures Overlapping(files[..k], lo, hi) == files[Min(a, k)..Min(b, k)]
  {
    if k > 0 {
      SliceFilter(files, lo, hi, a, b, k - 1);
      SliceSplits(files, 0, k);
      OverlappingSnoc(files[..k - 1], files[k - 1], lo, hi);
      if k <= a {
        assert files[k..k] == [] == files[k - 1..k - 1];
      } else if k <= b {
        SliceSplits(files, a, k);
      }
    }
  }

  function Min(x: nat, y: nat): nat {
    if x < y then x else y
  }

  lemma OverlappingSnoc(files: seq<FileMetaData>, f: FileMetaData, lo: Option<UserKey>, hi: Option<UserKey>)
    ensures Overlapping(files + [f], lo, hi) == Overlapping(files, lo, hi) + if Overlaps(f, lo, hi) then [f] else []
  {
    assert (files + [f])[..|files|] == files;
  }

  lemma SliceSplits<T>(s: seq<T>, a: nat, k: nat)
    requires a < k <= |s|
    ensures s[a..k] == s[a..k - 1] + [s[k - 1]]
  {
  }

}
