/** Every install keeps the levels disjoint and newer data above older data: the flush of a memtable to
    the level picked for it, the move of a single file, and a full compaction (db/db_impl.cc and
    PickLevelForMemTableOutput of db/version_set.cc). */
module Install {
  import opened Basics
  import opened InternalKeys
  import opened Versions
  import opened LevelSearch
  import opened Picking
  import opened VersionBuilder

  // ---- flushing a memtable ----

  /** The deepest level, at most two, such that neither it nor a level above it overlaps the range and
      the level below it has not too many overlapping bytes. */
  method PickLevelForMemTableOutput(v: Version, smallest: UserKey, largest: UserKey, maxGrandparentBytes: nat)
    returns (level: nat)
    requires Searchable(v)
    ensures level <= MAX_MEM_COMPACT_LEVEL
    ensures level > 0 ==> forall l: nat, f :: l <= level && In(v, l, f) ==> !Overlaps(f, Some(smallest), Some(largest))
    ensures forall l :: 2 <= l <= level + 1 ==>
      TotalFileSize(Overlapping(v.files[l], Some(smallest), Some(largest))) <= maxGrandparentBytes
    ensures level < MAX_MEM_COMPACT_LEVEL ==>
      || (level == 0 && exists f :: In(v, 0, f) && Overlaps(f, Some(smallest), Some(largest)))
      || (exists f :: In(v, level + 1, f) && Overlaps(f, Some(smallest), Some(largest)))
      || TotalFileSize(Overlapping(v.files[level + 2], Some(smallest), Some(largest))) > maxGrandparentBytes
  {
    level := 0;
    var overlap := SomeFileOverlapsRange(false, v.files[0], Some(smallest), Some(largest));
    if overlap {
      return;
    }
    var start, limit := InternalKey(smallest, MAX_SEQUENCE_NUMBER, Put), InternalKey(largest, 0, Deletion);
    while level < MAX_MEM_COMPACT_LEVEL
      invariant level <= MAX_MEM_COMPACT_LEVEL
      invariant forall l: nat, f :: l <= level && In(v, l, f) ==> !Overlaps(f, Some(smallest), Some(largest))
      invariant forall l :: 2 <= l <= level + 1 ==>
        TotalFileSize(Overlapping(v.files[l], Some(smallest), Some(largest))) <= maxGrandparentBytes
    {
      overlap := SomeFileOverlapsRange(true, v.files[level + 1], Some(smallest), Some(largest));
      if overlap {
        break;
      }
      if level + 2 < NUM_LEVELS {
        var overlaps, _, _ := GetOverlappingInputs(v.files[level + 2], level + 2, Some(start), Some(limit));
        var sum := TotalSize(overlaps);
        if sum > maxGrandparentBytes {
          break;
        }
      }
      level := level + 1;
    }
  }

  /** File numbers are handed out in increasing order. */
  ghost predicate NewNumber(v: Version, number: nat) {
    forall level, f :: In(v, level, f) ==> f.number < number
  }

  /** The table written from the immutable memtable: newer than everything in the version. */
  ghost predicate NewerThanVersion(v: Version, f: FileMetaData) {
    forall level, g :: In(v, level, g) ==> Newer(f, g)
  }

  function FlushEdit(level: nat, f: FileMetaData): VersionEdit {
    VersionEdit([], {}, [(level, f)])
  }

  lemma FlushIsFresh(v: Version, level: nat, f: FileMetaData)
    requires |v.files| == NUM_LEVELS && level < NUM_LEVELS && NewNumber(v, f.number)
    ensures FreshEdit(v, FlushEdit(level, f))
  {
    forall l | 0 <= l < NUM_LEVELS ensures f.number !in Numbers(v.files[l]) {
      if g :| g in v.files[l] && g.number == f.number {
        assert In(v, l, g);
      }
    }
  }

  ghost predicate FlushedTo(v: Version, level: nat, f: FileMetaData, next: Version) {
    && |next.files| == NUM_LEVELS
    && (forall l :: 0 <= l < NUM_LEVELS ==> SortedFiles(next.files[l]))
    && forall l, g :: In(next, l, g) <==> In(v, l, g) || (l == level && g == f)
  }

  lemma FlushInstalls(v: Version, level: nat, f: FileMetaData, next: Version)
    requires |v.files| == NUM_LEVELS && level < NUM_LEVELS
    requires Installs(v, FlushEdit(level, f), next)
    ensures FlushedTo(v, level, f, next)
  {
    var edit := FlushEdit(level, f);
    forall l: nat, g ensures In(next, l, g) <==> In(v, l, g) || (l == level && g == f) {
      if l < NUM_LEVELS {
        assert edit.added[0] in edit.added;
        assert g in next.files[l] <==> g in EditLevel(FileSet(v.files[l]), edit, l);
      }
    }
  }

  lemma DisjointUsersApart(f: FileMetaData, g: FileMetaData)
    requires ValidFile(f) && ValidFile(g)
    requires !Overlaps(g, Some(f.smallest.user), Some(f.largest.user))
    ensures Apart(f, g) && Apart(g, f) && Newer(f, g) && Newer(g, f)
  {
    ValidFileBounds(f);
    ValidFileBounds(g);
  }

  /** A flush to level 0, or to a level at or above which nothing overlaps the file, keeps the invariant. */
  lemma FlushKeepsInv(v: Version, level: nat, f: FileMetaData, next: Version)
    requires Inv(v) && level < NUM_LEVELS && ValidFile(f)
    requires NewNumber(v, f.number) && NewerThanVersion(v, f)
    requires FilesUnique(f, f)
    requires level > 0 ==> forall l: nat, g :: l <= level && In(v, l, g) ==>
      !Overlaps(g, Some(f.smallest.user), Some(f.largest.user))
    requires FlushedTo(v, level, f, next)
    ensures Inv(next)
  {
    assert WellFormed(next);
    FlushKeepsShape(v, level, f, next);
    FlushKeepsAge(v, level, f, next);
    assert DistinctNumbers(next);
    forall l, g, m, h | In(next, l, g) && In(next, m, h) ensures FilesUnique(g, h) {
      if In(v, m, h) && !In(v, l, g) {
        assert Newer(f, h);
      } else if In(v, l, g) && !In(v, m, h) {
        assert Newer(f, g);
      }
    }
  }

  lemma FlushKeepsShape(v: Version, level: nat, f: FileMetaData, next: Version)
    requires WellFormed(v) && Shape(v) && level < NUM_LEVELS && ValidFile(f)
    requires level > 0 ==> forall l: nat, g :: l <= level && In(v, l, g) ==>
      !Overlaps(g, Some(f.smallest.user), Some(f.largest.user))
    requires FlushedTo(v, level, f, next)
    ensures Shape(next)
  {
    forall l, g, h | 1 <= l && In(next, l, g) && In(next, l, h) && g != h ensures Apart(g, h) {
      if !In(v, l, g) {
        DisjointUsersApart(f, h);
      } else if !In(v, l, h) {
        DisjointUsersApart(f, g);
      }
    }
  }

  lemma FlushKeepsAge(v: Version, level: nat, f: FileMetaData, next: Version)
    requires WellFormed(v) && Age(v) && level < NUM_LEVELS && ValidFile(f)
    requires NewNumber(v, f.number) && NewerThanVersion(v, f)
    requires level > 0 ==> forall l: nat, g :: l <= level && In(v, l, g) ==>
      !Overlaps(g, Some(f.smallest.user), Some(f.largest.user))
    requires FlushedTo(v, level, f, next)
    ensures Age(next)
  {
    forall l, g, m, h | In(next, l, g) && In(next, m, h) && Shallower(l, g, m, h) ensures Newer(g, h) {
      if In(v, l, g) && In(v, m, h) {
      } else if In(v, m, h) {
        assert Newer(f, h);
      } else if In(v, l, g) {
        DisjointUsersApart(f, g);
      }
    }
  }

  // ---- compactions ----

  function InputFiles(c: Compaction): seq<FileMetaData> {
    c.inputs0 + c.inputs1
  }

  /** Disjoint sorted tables of entries of the inputs. */
  ghost predicate GoodTables(c: Compaction, outputs: seq<FileMetaData>) {
    && ValidFiles(outputs) && DisjointSorted(outputs)
    && (forall o, e :: o in outputs && e in o.entries ==> FromInputs(c, e))
  }

  ghost predicate NewNumbers(v: Version, outputs: seq<FileMetaData>) {
    && (forall o :: o in outputs ==> NewNumber(v, o.number))
    && (forall i, j :: 0 <= i < j < |outputs| ==> outputs[i].number < outputs[j].number)
  }

  /** The tables a compaction writes. */
  ghost predicate GoodOutputs(v: Version, c: Compaction, outputs: seq<FileMetaData>) {
    GoodTables(c, outputs) && NewNumbers(v, outputs)
  }

  ghost predicate FromInputs(c: Compaction, e: Entry) {
    exists f :: f in InputFiles(c) && e in f.entries
  }

  function LargestKey(files: seq<FileMetaData>): InternalKey
    requires files != []
  {
    var last := files[|files| - 1].largest;
    if |files| == 1 then last
    else
      var before := LargestKey(files[..|files| - 1]);
      if Less(before, last) then last else before
  }

  lemma {:induction false} LargestKeyIsLargest(files: seq<FileMetaData>)
    requires files != []
    ensures IsLargest(files, LargestKey(files))
  {
    var front := files[..|files| - 1];
    assert files == front + [files[|files| - 1]];
    if front != [] {
      LargestKeyIsLargest(front);
    }
  }

  /** The next compaction of the level starts behind the inputs. */
  function Moves(c: Compaction): seq<(nat, InternalKey)> {
    if c.inputs0 == [] then [] else [(c.level, LargestKey(c.inputs0))]
  }

  /** The edit moves the pointer to where setting up the compaction has moved it. */
  lemma EditMovesPointer(before: Pointers, c: Compaction, after: Pointers)
    requires PointerMoved(before, c, after)
    ensures AfterMoves(before, Moves(c)) == after
  {
    var l :| IsLargest(c.inputs0, l) && after == before[c.level := Some(l)];
    LargestKeyIsLargest(c.inputs0);
    SameLargest(c.inputs0, l, LargestKey(c.inputs0));
    assert Moves(c)[..0] == [];
  }

  function CompactionEdit(c: Compaction, outputs: seq<FileMetaData>): VersionEdit {
    VersionEdit(
      Moves(c),
      (set f | f in c.inputs0 :: (c.level, f.number)) + (set f | f in c.inputs1 :: (c.level + 1, f.number)),
      seq(|outputs|, i requires 0 <= i < |outputs| => (c.level + 1, outputs[i])))
  }

  /** The files that a compaction leaves in place. */
  ghost predicate Remains(v: Version, c: Compaction, level: nat, f: FileMetaData) {
    In(v, level, f) && !(level == c.level && f in c.inputs0) && !(level == c.level + 1 && f in c.inputs1)
  }

  ghost predicate CompactedTo(v: Version, c: Compaction, outputs: seq<FileMetaData>, next: Version) {
    && |next.files| == NUM_LEVELS
    && (forall l :: 0 <= l < NUM_LEVELS ==> SortedFiles(next.files[l]))
    && forall l, g :: In(next, l, g) <==> Remains(v, c, l, g) || (l == c.level + 1 && g in outputs)
  }

  lemma InputsAreInVersion(v: Version, c: Compaction)
    requires GoodPick(v, c)
    ensures forall f :: f in c.inputs0 ==> In(v, c.level, f)
    ensures forall f :: f in c.inputs1 ==> In(v, c.level + 1, f)
  {
    GoodIsStart(v.files[c.level], c.level, c.inputs0);
    GoodInputsAreFiles(v.files[c.level], c.level, c.inputs0);
    NextInputsAreFiles(v.files[c.level + 1], c.inputs0, c.inputs1);
  }

  lemma CompactionIsFresh(v: Version, c: Compaction, outputs: seq<FileMetaData>)
    requires |v.files| == NUM_LEVELS && c.level + 1 < NUM_LEVELS && NewNumbers(v, outputs)
    ensures FreshEdit(v, CompactionEdit(c, outputs))
  {
    var added := CompactionEdit(c, outputs).added;
    forall l | 0 <= l < NUM_LEVELS ensures Fresh(Numbers(v.files[l]), added, l) {
      OutputsAreFresh(v, c, outputs, l, |outputs|);
      assert added[..|added|] == added;
    }
  }

  lemma {:induction false} OutputsAreFresh(v: Version, c: Compaction, outputs: seq<FileMetaData>, l: nat, n: nat)
    requires |v.files| == NUM_LEVELS && l < NUM_LEVELS && n <= |outputs| && NewNumbers(v, outputs)
    ensures Fresh(Numbers(v.files[l]), CompactionEdit(c, outputs).added[..n], l)
  {
    if n > 0 {
      var added := CompactionEdit(c, outputs).added;
      OutputsAreFresh(v, c, outputs, l, n - 1);
      assert added[..n][..n - 1] == added[..n - 1];
      var number := outputs[n - 1].number;
      assert outputs[n - 1] in outputs;
      forall f | f in v.files[l] ensures f.number != number {
        assert In(v, l, f);
      }
      forall a | a in added[..n - 1] ensures a.1.number != number {
        var i :| 0 <= i < n - 1 && added[i] == a;
        assert a.1 == outputs[i];
      }
    }
  }

  lemma CompactionInstalls(v: Version, c: Compaction, outputs: seq<FileMetaData>, next: Version)
    requires WellFormed(v) && DistinctNumbers(v) && GoodPick(v, c)
    requires Installs(v, CompactionEdit(c, outputs), next)
    ensures CompactedTo(v, c, outputs, next)
  {
    var edit := CompactionEdit(c, outputs);
    InputsAreInVersion(v, c);
    forall l: nat, g ensures In(next, l, g) <==> Remains(v, c, l, g) || (l == c.level + 1 && g in outputs) {
      if l < NUM_LEVELS {
        assert g in next.files[l] <==> g in EditLevel(FileSet(v.files[l]), edit, l);
        if g in outputs {
          var i :| 0 <= i < |outputs| && outputs[i] == g;
          assert edit.added[i] in edit.added;
        }
        if In(v, l, g) {
          assert (l, g.number) in edit.deleted <==> !Remains(v, c, l, g);
        }
      }
    }
  }

  /** The user-key range of the upper inputs decides which files of the next level are inputs. */
  lemma PickRange(v: Version, c: Compaction) returns (s: InternalKey, l: InternalKey)
    requires GoodPick(v, c)
    ensures CoversExactly(c.inputs0, s, l)
    ensures forall f :: f in c.inputs1 <==> In(v, c.level + 1, f) && Overlaps(f, Some(s.user), Some(l.user))
  {
    s, l :| CoversExactly(c.inputs0, s, l) &&
      c.inputs1 == Overlapping(v.files[c.level + 1], Some(s.user), Some(l.user));
    OverlappingMembers(v.files[c.level + 1], Some(s.user), Some(l.user));
  }

  /** A file of the next level that is left out lies on one side of all the inputs. */
  lemma LeftOutLiesAside(v: Version, c: Compaction, h: FileMetaData)
    requires WellFormed(v) && Shape(v) && GoodPick(v, c) && Remains(v, c, c.level + 1, h)
    ensures AllAfter(h, InputFiles(c)) || AllBefore(InputFiles(c), h)
  {
    var s, l := PickRange(v, c);
    assert In(v, c.level + 1, h) && ValidFile(h) && !Overlaps(h, Some(s.user), Some(l.user));
    assert forall f :: f in c.inputs1 ==> In(v, c.level + 1, f) && Apart(f, h);
    AsideOfAll(c, s, l, h);
  }

  lemma AsideOfAll(c: Compaction, s: InternalKey, l: InternalKey, h: FileMetaData)
    requires CoversExactly(c.inputs0, s, l) && ValidFile(h) && !Overlaps(h, Some(s.user), Some(l.user))
    requires forall f :: f in c.inputs1 ==> Apart(f, h) && Overlaps(f, Some(s.user), Some(l.user))
    ensures AllAfter(h, InputFiles(c)) || AllBefore(InputFiles(c), h)
  {
    forall f | f in InputFiles(c)
      ensures h.largest.user < s.user ==> Less(h.largest, f.smallest)
      ensures h.smallest.user > l.user ==> Less(f.largest, h.smallest)
    {
      InputLiesAside(c, s, l, f, h);
    }
  }

  ghost predicate AllAfter(h: FileMetaData, files: seq<FileMetaData>) {
    forall f :: f in files ==> Less(h.largest, f.smallest)
  }

  ghost predicate AllBefore(files: seq<FileMetaData>, h: FileMetaData) {
    forall f :: f in files ==> Less(f.largest, h.smallest)
  }

  lemma InputLiesAside(c: Compaction, s: InternalKey, l: InternalKey, f: FileMetaData, h: FileMetaData)
    requires CoversExactly(c.inputs0, s, l) && f in InputFiles(c) && !Less(h.largest, h.smallest)
    requires f in c.inputs1 ==> Apart(f, h) && Overlaps(f, Some(s.user), Some(l.user))
    ensures h.largest.user < s.user ==> Less(h.largest, f.smallest)
    ensures h.smallest.user > l.user ==> Less(f.largest, h.smallest)
  {
    if f in c.inputs0 {
      assert !Less(f.smallest, s) && !Less(l, f.largest);
    }
  }

  lemma OutputWithinInputs(v: Version, c: Compaction, o: FileMetaData, h: FileMetaData)
    requires WellFormed(v) && Shape(v) && GoodPick(v, c) && Remains(v, c, c.level + 1, h)
    requires ValidFile(o) && forall e :: e in o.entries ==> FromInputs(c, e)
    ensures Apart(o, h) && Apart(h, o)
  {
    LeftOutLiesAside(v, c, h);
    InputsAreInVersion(v, c);
    var first, last := o.entries[0], o.entries[|o.entries| - 1];
    assert first in o.entries && last in o.entries;
    var f :| f in InputFiles(c) && first in f.entries;
    var g :| g in InputFiles(c) && last in g.entries;
    ValidFileBounds(f);
    ValidFileBounds(g);
  }

  lemma CompactionKeepsShape(v: Version, c: Compaction, outputs: seq<FileMetaData>, next: Version)
    requires WellFormed(v) && Shape(v) && GoodPick(v, c) && GoodTables(c, outputs)
    requires CompactedTo(v, c, outputs, next)
    ensures Shape(next)
  {
    forall o, h | o in outputs && Remains(v, c, c.level + 1, h) ensures Apart(o, h) && Apart(h, o) {
      OutputWithinInputs(v, c, o, h);
    }
    ApartMeansShape(v, c, outputs, next);
  }

  lemma ApartMeansShape(v: Version, c: Compaction, outputs: seq<FileMetaData>, next: Version)
    requires Shape(v) && DisjointSorted(outputs) && CompactedTo(v, c, outputs, next)
    requires forall o, h :: o in outputs && Remains(v, c, c.level + 1, h) ==> Apart(o, h) && Apart(h, o)
    ensures Shape(next)
  {
    forall l, g, h | 1 <= l && In(next, l, g) && In(next, l, h) && g != h ensures Apart(g, h) {
      if Remains(v, c, l, g) && Remains(v, c, l, h) {
        assert In(v, l, g) && In(v, l, h);
      } else if g in outputs && h in outputs {
        OutputsApart(outputs, g, h);
      }
    }
  }

  lemma OutputsApart(outputs: seq<FileMetaData>, g: FileMetaData, h: FileMetaData)
    requires DisjointSorted(outputs) && g in outputs && h in outputs && g != h
    ensures Apart(g, h)
  {
    var i :| 0 <= i < |outputs| && outputs[i] == g;
    var j :| 0 <= j < |outputs| && outputs[j] == h;
    assert i < j || j < i;
  }

  /** A file of the compacted level that stays holds only newer versions of what the inputs hold. */
  lemma StayingIsNewer(v: Version, c: Compaction, g: FileMetaData, f: FileMetaData)
    requires WellFormed(v) && Shape(v) && UniqueEntries(v) && GoodPick(v, c)
    requires Remains(v, c, c.level, g) && f in c.inputs0
    ensures Newer(g, f)
  {
    InputsAreInVersion(v, c);
    assert FilesUnique(g, f);
    if c.level > 0 {
      LevelIsDisjointSorted(v, c.level);
    }
    StayingIsNewerInLevel(v.files[c.level], c.level, c.inputs0, g, f);
  }

  lemma StayingIsNewerInLevel(files: seq<FileMetaData>, level: nat, inputs: seq<FileMetaData>, g: FileMetaData,
                              f: FileMetaData)
    requires GoodInputs(files, level, inputs) && (level > 0 ==> DisjointSorted(files) && ValidFiles(files))
    requires g in files && g !in inputs && f in inputs && ValidFile(f) && ValidFile(g) && FilesUnique(g, f)
    ensures Newer(g, f)
  {
    ValidFileBounds(f);
    ValidFileBounds(g);
    if level == 0 {
      assert !UsersOverlap(g, f);
    } else {
      var a: nat, b: nat :| CleanSlice(files, inputs, a, b);
      StayingSide(files, inputs, a, b, g, f);
      forall x, e | x in g.entries && e in f.entries && x.key.user == e.key.user
        ensures x.key.sequence > e.key.sequence
      {
        assert SameVersionSameEntry(x, e);
        assert !Less(e.key, f.smallest) && !Less(g.largest, x.key);
      }
    }
  }

  lemma StayingSide(files: seq<FileMetaData>, inputs: seq<FileMetaData>, a: nat, b: nat, g: FileMetaData,
                    f: FileMetaData)
    requires DisjointSorted(files) && ValidFiles(files) && CleanSlice(files, inputs, a, b)
    requires g in files && g !in inputs && f in inputs
    ensures Less(g.largest, f.smallest) || f.largest.user < g.smallest.user
  {
    var i :| 0 <= i < |files| && files[i] == g;
    var j :| 0 <= j < |inputs| && inputs[j] == f;
    assert f == files[a + j];
    assert forall k :: a <= k < b ==> files[k] == inputs[k - a];
    assert i < a || b <= i;
    if b <= i {
      if a + j < b - 1 {
        PairOrdered(files, a + j, b - 1);
      }
      PairOrdered(files, b - 1, b);
      if b < i {
        PairOrdered(files, b, i);
      }
    }
  }

  /** Whatever was above one of the inputs, or stays in its level, is newer than that input. */
  lemma NewerThanInput(v: Version, c: Compaction, l: nat, g: FileMetaData, f: FileMetaData)
    requires WellFormed(v) && Shape(v) && Age(v) && UniqueEntries(v) && GoodPick(v, c)
    requires Remains(v, c, l, g) && l <= c.level && f in InputFiles(c)
    ensures Newer(g, f)
  {
    InputsAreInVersion(v, c);
    if f in c.inputs0 && l == c.level {
      StayingIsNewer(v, c, g, f);
    } else if f in c.inputs0 {
      assert Shallower(l, g, c.level, f);
    } else {
      assert Shallower(l, g, c.level + 1, f);
    }
  }

  lemma NewerThanOutput(v: Version, c: Compaction, l: nat, g: FileMetaData, o: FileMetaData)
    requires WellFormed(v) && Shape(v) && Age(v) && UniqueEntries(v) && GoodPick(v, c)
    requires Remains(v, c, l, g) && l <= c.level
    requires forall e :: e in o.entries ==> FromInputs(c, e)
    ensures Newer(g, o)
  {
    forall x, e | x in g.entries && e in o.entries && x.key.user == e.key.user ensures x.key.sequence > e.key.sequence {
      assert FromInputs(c, e);
      var f :| f in InputFiles(c) && e in f.entries;
      NewerThanInput(v, c, l, g, f);
    }
  }

  lemma OutputIsNewer(v: Version, c: Compaction, o: FileMetaData, m: nat, h: FileMetaData)
    requires WellFormed(v) && Age(v) && GoodPick(v, c)
    requires In(v, m, h) && c.level + 1 < m
    requires forall e :: e in o.entries ==> FromInputs(c, e)
    ensures Newer(o, h)
  {
    InputsAreInVersion(v, c);
    forall e, x | e in o.entries && x in h.entries && e.key.user == x.key.user ensures e.key.sequence > x.key.sequence {
      var f :| f in InputFiles(c) && e in f.entries;
      assert Newer(f, h) by {
        if f in c.inputs0 {
          assert Shallower(c.level, f, m, h);
        } else {
          assert Shallower(c.level + 1, f, m, h);
        }
      }
    }
  }

  lemma CompactionKeepsAge(v: Version, c: Compaction, outputs: seq<FileMetaData>, next: Version)
    requires WellFormed(v) && Shape(v) && Age(v) && UniqueEntries(v) && GoodPick(v, c) && GoodTables(c, outputs)
    requires CompactedTo(v, c, outputs, next)
    ensures Age(next)
  {
    forall l, g, m, h | In(next, l, g) && In(next, m, h) && Shallower(l, g, m, h) ensures Newer(g, h) {
      if Remains(v, c, l, g) && Remains(v, c, m, h) {
      } else if Remains(v, c, l, g) {
        NewerThanOutput(v, c, l, g, h);
      } else {
        OutputIsNewer(v, c, g, m, h);
      }
    }
  }

  /** Installing the outputs of a picked compaction keeps the invariant. */
  lemma CompactionKeepsInv(v: Version, c: Compaction, outputs: seq<FileMetaData>, next: Version)
    requires Inv(v) && GoodPick(v, c) && GoodOutputs(v, c, outputs)
    requires CompactedTo(v, c, outputs, next)
    ensures Inv(next)
  {
    assert WellFormed(next);
    CompactionKeepsShape(v, c, outputs, next);
    CompactionKeepsAge(v, c, outputs, next);
    CompactionKeepsNumbers(v, c, outputs, next);
    CompactionKeepsUnique(v, c, outputs, next);
  }

  lemma CompactionKeepsNumbers(v: Version, c: Compaction, outputs: seq<FileMetaData>, next: Version)
    requires DistinctNumbers(v) && NewNumbers(v, outputs) && CompactedTo(v, c, outputs, next)
    ensures DistinctNumbers(next)
  {
    forall l, g, m, h | In(next, l, g) && In(next, m, h) && g.number == h.number ensures l == m && g == h {
      if !Remains(v, c, l, g) && !Remains(v, c, m, h) {
        var i :| 0 <= i < |outputs| && outputs[i] == g;
        var j :| 0 <= j < |outputs| && outputs[j] == h;
        assert !(i < j) && !(j < i);
      }
    }
  }

  lemma Origin(v: Version, c: Compaction, outputs: seq<FileMetaData>, next: Version, l: nat, g: FileMetaData, e: Entry)
    returns (level: nat, f: FileMetaData)
    requires WellFormed(v) && GoodPick(v, c) && GoodTables(c, outputs) && CompactedTo(v, c, outputs, next)
    requires In(next, l, g) && e in g.entries
    ensures In(v, level, f) && e in f.entries
  {
    if Remains(v, c, l, g) {
      level, f := l, g;
    } else {
      InputsAreInVersion(v, c);
      assert FromInputs(c, e);
      f :| f in InputFiles(c) && e in f.entries;
      level := if f in c.inputs0 then c.level else c.level + 1;
    }
  }

  lemma CompactionKeepsUnique(v: Version, c: Compaction, outputs: seq<FileMetaData>, next: Version)
    requires WellFormed(v) && UniqueEntries(v) && GoodPick(v, c) && GoodTables(c, outputs)
    requires CompactedTo(v, c, outputs, next)
    ensures UniqueEntries(next)
  {
    forall l, g, m, h | In(next, l, g) && In(next, m, h) ensures FilesUnique(g, h) {
      forall a, b | a in g.entries && b in h.entries ensures SameVersionSameEntry(a, b) {
        var l0, g0 := Origin(v, c, outputs, next, l, g, a);
        var m0, h0 := Origin(v, c, outputs, next, m, h, b);
        assert FilesUnique(g0, h0);
      }
    }
  }

  // ---- moving a single file ----

  predicate IsTrivialMove(c: Compaction, maxGrandparentBytes: nat) {
    |c.inputs0| == 1 && |c.inputs1| == 0 && TotalFileSize(c.grandparents) <= maxGrandparentBytes
  }

  lemma MoveIsFresh(v: Version, c: Compaction)
    requires DistinctNumbers(v) && GoodPick(v, c) && |c.inputs0| == 1
    ensures FreshEdit(v, CompactionEdit(c, c.inputs0))
  {
    InputsAreInVersion(v, c);
    var f := c.inputs0[0];
    assert f in c.inputs0 && In(v, c.level, f);
    assert CompactionEdit(c, c.inputs0).added == [(c.level + 1, f)];
    forall l | 0 <= l < NUM_LEVELS ensures Fresh(Numbers(v.files[l]), [(c.level + 1, f)], l) {
      if l == c.level + 1 {
        forall g | g in v.files[l] ensures g.number != f.number {
          assert In(v, l, g);
        }
      }
      FreshSingle(Numbers(v.files[l]), (c.level + 1, f), l);
    }
  }

  lemma FreshSingle(seen: set<nat>, a: (nat, FileMetaData), level: nat)
    requires a.0 == level ==> a.1.number !in seen
    ensures Fresh(seen, [a], level)
  {
    var front := [a][..|[a]| - 1];
    assert front == [];
    assert AddedNumbers(front, level) == {};
  }

  /** The moved file keeps its number; nothing of the next level overlaps it. */
  lemma MoveKeepsInv(v: Version, c: Compaction, maxGrandparentBytes: nat, next: Version)
    requires Inv(v) && GoodPick(v, c) && IsTrivialMove(c, maxGrandparentBytes)
    requires CompactedTo(v, c, c.inputs0, next)
    ensures Inv(next)
  {
    MoveIsGoodTable(v, c);
    assert WellFormed(next) by {
      InputsAreInVersion(v, c);
    }
    CompactionKeepsShape(v, c, c.inputs0, next);
    CompactionKeepsAge(v, c, c.inputs0, next);
    CompactionKeepsUnique(v, c, c.inputs0, next);
    assert In(v, c.level, c.inputs0[0]) by {
      InputsAreInVersion(v, c);
    }
    MoveKeepsNumbers(v, c, next);
  }

  lemma MoveIsGoodTable(v: Version, c: Compaction)
    requires WellFormed(v) && GoodPick(v, c) && |c.inputs0| == 1
    ensures GoodTables(c, c.inputs0)
  {
    InputsAreInVersion(v, c);
    forall o, e | o in c.inputs0 && e in o.entries ensures FromInputs(c, e) {
      assert o in InputFiles(c);
    }
    forall o | o in c.inputs0 ensures ValidFile(o) {
      assert In(v, c.level, o);
    }
  }

  lemma MoveKeepsNumbers(v: Version, c: Compaction, next: Version)
    requires DistinctNumbers(v) && |c.inputs0| == 1 && In(v, c.level, c.inputs0[0])
    requires CompactedTo(v, c, c.inputs0, next)
    ensures DistinctNumbers(next)
  {
    assert forall g :: g in c.inputs0 ==> g == c.inputs0[0];
    forall l: nat, g, m: nat, h | In(next, l, g) && In(next, m, h) && g.number == h.number ensures l == m && g == h {
      assert In(v, if Remains(v, c, l, g) then l else c.level, g);
      assert In(v, if Remains(v, c, m, h) then m else c.level, h);
    }
  }

  /** What merging a file of this level with the next one would read there. */
  function OverlapBelow(v: Version, level: nat, f: FileMetaData): nat
    requires level + 1 < |v.files|
  {
    TotalFileSize(Overlapping(v.files[level + 1], Some(f.smallest.user), Some(f.largest.user)))
  }

  /** A lone file that nothing of the next level overlaps is moved exactly when, in the next version and on its new
      level, merging it on would not read too much. */
  lemma MovesWhenCheapLater(v: Version, c: Compaction, maxGrandparentBytes: nat, next: Version)
    requires Inv(v) && GoodPick(v, c) && GoodGrandparents(v, c) && c.level + 2 < NUM_LEVELS
    requires c.inputs1 == [] && |c.inputs0| == 1 && CompactedTo(v, c, c.inputs0, next)
    ensures In(next, c.level + 1, c.inputs0[0])
    ensures IsTrivialMove(c, maxGrandparentBytes) <==>
            OverlapBelow(next, c.level + 1, c.inputs0[0]) <= maxGrandparentBytes
  {
    var f, files := c.inputs0[0], v.files[c.level + 2];
    assert f in c.inputs0 && c.inputs0 + c.inputs1 == [f];
    var s, l :| CoversExactly(c.inputs0 + c.inputs1, s, l) &&
      c.grandparents == Overlapping(files, Some(s.user), Some(l.user));
    assert CoversExactly([f], f.smallest, f.largest) by {
      SingleCovers(f);
    }
    CoversOnce([f], s, l, f.smallest, f.largest);
    forall g ensures g in files <==> g in next.files[c.level + 2] {
      assert In(v, c.level + 2, g) <==> In(next, c.level + 2, g);
    }
    SortedListsAgree(files, next.files[c.level + 2]);
  }

  lemma SingleCovers(f: FileMetaData)
    ensures CoversExactly([f], f.smallest, f.largest)
  {
    assert f in [f];
  }

  // ---- whole runs ----

  datatype InstallStep =
    | Flush(level: nat, table: FileMetaData)
    | Move(moved: Compaction, maxGrandparentBytes: nat)
    | Compact(compaction: Compaction, outputs: seq<FileMetaData>)

  function EditOf(step: InstallStep): VersionEdit {
    match step
    case Flush(level, table) => FlushEdit(level, table)
    case Move(c, _) => CompactionEdit(c, c.inputs0)
    case Compact(c, outputs) => CompactionEdit(c, outputs)
  }

  /** What the code has established when it hands the edit of a step to LogAndApply. */
  ghost predicate Enabled(v: Version, step: InstallStep) {
    match step
    case Flush(level, f) =>
      && level < NUM_LEVELS && ValidFile(f) && FilesUnique(f, f) && NewNumber(v, f.number) && NewerThanVersion(v, f)
      && (level > 0 ==> forall l: nat, g :: l <= level && In(v, l, g) ==>
         !Overlaps(g, Some(f.smallest.user), Some(f.largest.user)))
    case Move(c, maxBytes) => GoodPick(v, c) && IsTrivialMove(c, maxBytes)
    case Compact(c, outputs) => GoodPick(v, c) && GoodOutputs(v, c, outputs)
  }

  lemma StepIsFresh(v: Version, step: InstallStep)
    requires Inv(v) && Enabled(v, step)
    ensures FreshEdit(v, EditOf(step))
  {
    match step
    case Flush(level, f) => FlushIsFresh(v, level, f);
    case Move(c, _) => MoveIsFresh(v, c);
    case Compact(c, outputs) => CompactionIsFresh(v, c, outputs);
  }

  lemma InstallKeepsInv(v: Version, step: InstallStep, next: Version)
    requires Inv(v) && Stepped(v, step, next)
    ensures Inv(next)
  {
    match step
    case Flush(level, f) =>
      FlushInstalls(v, level, f, next);
      FlushKeepsInv(v, level, f, next);
    case Move(c, maxBytes) =>
      CompactionInstalls(v, c, c.inputs0, next);
      MoveKeepsInv(v, c, maxBytes, next);
    case Compact(c, outputs) =>
      CompactionInstalls(v, c, outputs, next);
      CompactionKeepsInv(v, c, outputs, next);
  }

  /** The version of a database just created. */
  function EmptyVersion(): Version {
    Version(seq(NUM_LEVELS, _ => []))
  }

  ghost predicate Stepped(v: Version, step: InstallStep, next: Version) {
    Enabled(v, step) && Installs(v, EditOf(step), next)
  }

  /** The numbers of new tables come from a counter that only goes up (NewFileNumber). */
  ghost predicate NumbersFrom(step: InstallStep, before: nat, after: nat) {
    && before <= after
    && match step
       case Flush(_, f) => before <= f.number < after
       case Move(_, _) => true
       case Compact(_, outputs) => forall o :: o in outputs ==> before <= o.number < after
  }

  /** Versions, and the next file number along with each. */
  ghost predicate History(versions: seq<Version>, counters: seq<nat>, steps: seq<InstallStep>) {
    && |versions| == |steps| + 1 == |counters| && versions[0] == EmptyVersion()
    && forall i :: 0 <= i < |steps| ==> HistoryStep(versions, counters, steps, i)
  }

  ghost predicate HistoryStep(versions: seq<Version>, counters: seq<nat>, steps: seq<InstallStep>, i: nat)
    requires i < |steps| < |versions| && |steps| < |counters|
  {
    Stepped(versions[i], steps[i], versions[i + 1]) && NumbersFrom(steps[i], counters[i], counters[i + 1])
  }

  /** Every version of every run of installs keeps levels disjoint and ages ordered. */
  lemma {:induction false} HistoryKeepsInv(versions: seq<Version>, counters: seq<nat>, steps: seq<InstallStep>, n: nat)
    requires History(versions, counters, steps) && n <= |steps|
    ensures Inv(versions[n])
  {
    if n > 0 {
      HistoryKeepsInv(versions, counters, steps, n - 1);
      assert HistoryStep(versions, counters, steps, n - 1);
      InstallKeepsInv(versions[n - 1], steps[n - 1], versions[n]);
    }
  }
}
