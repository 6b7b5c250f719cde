/** Where the picker falls short: SetupOtherInputs closes the inputs of the compacted level by boundary
    files but not those of the next level, so a compaction can drop a deletion marker whose older value
    stays behind (db/version_set.cc, db/db_impl.cc). */
module ResurfacingDeletion {
  import opened Basics
  import opened InternalKeys
  import opened Versions
  import opened Picking
  import opened Install
  import opened CompactionReads
  import opened CompactionWork
  import opened CompactionTheorem

  const NEW_ONE := Entry(InternalKey(1.0, 4, Put), "new")
  const OLD_ONE := Entry(InternalKey(1.0, 2, Put), "old")
  const DELETED_TWO := Entry(InternalKey(2.0, 3, Deletion), "")
  const OLD_TWO := Entry(InternalKey(2.0, 1, Put), "deleted value")

  /** Three tables: `a` in level 1; in level 2 `b`, which ends with the deletion of user key 2.0, and `c`,
      which starts with its old value. */
  ghost predicate SplitUser(v: Version, a: FileMetaData, b: FileMetaData, c: FileMetaData) {
    && v == Version([[], [a], [b, c], [], [], [], []])
    && a == TableOf(11, 1, [NEW_ONE])
    && b == TableOf(8, 1, [OLD_ONE, DELETED_TWO])
    && c == TableOf(9, 1, [OLD_TWO])
  }

  ghost predicate HoldsThree(v: Version, a: FileMetaData, b: FileMetaData, c: FileMetaData) {
    forall level: nat, f :: In(v, level, f) <==> (level == 1 && f == a) || (level == 2 && (f == b || f == c))
  }

  lemma SplitUserHoldsThree(v: Version, a: FileMetaData, b: FileMetaData, c: FileMetaData)
    requires SplitUser(v, a, b, c)
    ensures HoldsThree(v, a, b, c)
  {
    forall level: nat, f ensures In(v, level, f) <==> (level == 1 && f == a) || (level == 2 && (f == b || f == c)) {
      if level < 7 {
        assert level == 0 || level == 1 || level == 2 || level == 3 || level == 4 || level == 5 || level == 6;
      }
    }
  }

  lemma TablesFit(v: Version, a: FileMetaData, b: FileMetaData, c: FileMetaData)
    requires SplitUser(v, a, b, c)
    ensures ValidFile(a) && ValidFile(b) && ValidFile(c)
    ensures Newer(a, b) && Newer(a, c) && Apart(b, c) && Apart(c, b) && FileLess(b, c)
    ensures FilesUnique(a, a) && FilesUnique(b, b) && FilesUnique(c, c) && FilesUnique(a, b) && FilesUnique(a, c)
    ensures FilesUnique(b, c)
  {
  }

  lemma ThreeTablesShapeAge(v: Version, a: FileMetaData, b: FileMetaData, c: FileMetaData)
    requires HoldsThree(v, a, b, c)
    requires Newer(a, b) && Newer(a, c) && Apart(b, c) && Apart(c, b)
    ensures Shape(v) && Age(v)
  {
  }

  lemma ThreeTablesNumbers(v: Version, a: FileMetaData, b: FileMetaData, c: FileMetaData)
    requires HoldsThree(v, a, b, c)
    requires a.number != b.number && b.number != c.number && a.number != c.number
    ensures DistinctNumbers(v)
  {
  }

  lemma ThreeTablesUnique(v: Version, a: FileMetaData, b: FileMetaData, c: FileMetaData)
    requires HoldsThree(v, a, b, c)
    requires FilesUnique(a, a) && FilesUnique(b, b) && FilesUnique(c, c) && FilesUnique(a, b) && FilesUnique(a, c)
    requires FilesUnique(b, c)
    ensures UniqueEntries(v)
  {
    UniqueIsSymmetric(a, b);
    UniqueIsSymmetric(a, c);
    UniqueIsSymmetric(b, c);
  }

  lemma UniqueIsSymmetric(f: FileMetaData, g: FileMetaData)
    requires FilesUnique(f, g)
    ensures FilesUnique(g, f)
  {
    forall b, a | b in g.entries && a in f.entries ensures SameVersionSameEntry(b, a) {
      assert SameVersionSameEntry(a, b);
    }
  }

  lemma SplitUserInv(v: Version, a: FileMetaData, b: FileMetaData, c: FileMetaData)
    requires SplitUser(v, a, b, c)
    ensures Inv(v)
  {
    SplitUserHoldsThree(v, a, b, c);
    TablesFit(v, a, b, c);
    forall level | 0 <= level < NUM_LEVELS ensures SortedFiles(v.files[level]) {
      assert level == 0 || level == 1 || level == 2 || level == 3 || level == 4 || level == 5 || level == 6;
    }
    ThreeTablesShapeAge(v, a, b, c);
    ThreeTablesNumbers(v, a, b, c);
    ThreeTablesUnique(v, a, b, c);
  }

  /** A compaction of level 1 has no choice: it takes `a` and `b` and leaves `c` behind. */
  lemma PickLeavesTableBehind(v: Version, a: FileMetaData, b: FileMetaData, c: FileMetaData, pick: Compaction)
    requires SplitUser(v, a, b, c) && GoodPick(v, pick) && pick.level == 1
    ensures pick.inputs0 == [a] && pick.inputs1 == [b]
  {
    OnlySlice(v.files[1], a, pick.inputs0);
    var s, l :| CoversExactly([a], s, l) && pick.inputs1 == Overlapping(v.files[2], Some(s.user), Some(l.user));
    assert s.user == 1.0 && l.user == 1.0 by {
      assert a in [a];
    }
    OverlapOfTwo(b, c);
  }

  lemma OnlySlice(files: seq<FileMetaData>, a: FileMetaData, inputs: seq<FileMetaData>)
    requires files == [a] && GoodInputs(files, 1, inputs)
    ensures inputs == [a]
  {
    var i: nat, j: nat :| CleanSlice(files, inputs, i, j);
    assert i == 0 && j == 1;
  }

  lemma OverlapOfTwo(b: FileMetaData, c: FileMetaData)
    requires Overlaps(b, Some(1.0), Some(1.0)) && !Overlaps(c, Some(1.0), Some(1.0))
    ensures Overlapping([b, c], Some(1.0), Some(1.0)) == [b]
  {
    assert [b, c][..1] == [b];
    assert [b][..0] == [];
    assert Overlapping([b], Some(1.0), Some(1.0)) == Overlapping([], Some(1.0), Some(1.0)) + [b];
  }

  lemma SplitUserRest(v: Version, a: FileMetaData, b: FileMetaData, c: FileMetaData, pick: Compaction)
    requires SplitUser(v, a, b, c) && pick.level == 1 && pick.inputs0 == [a] && pick.inputs1 == [b]
    ensures RestEntries(v, pick) == {OLD_TWO} && IsBase(v, 1, 2.0)
  {
    SplitUserHoldsThree(v, a, b, c);
    assert c != b && c != a;
    assert c.entries == [OLD_TWO] && c.entries[0] == OLD_TWO;
    assert Remains(v, pick, 2, c);
    assert a in pick.inputs0 && b in pick.inputs1;
    forall level: nat, f | Remains(v, pick, level, f) ensures f == c {
      assert In(v, level, f);
    }
    AllEntriesMember(v, 2, c, OLD_TWO);
    assert InRest(v, pick, OLD_TWO);
    assert forall e :: e in RestEntries(v, pick) <==> e == OLD_TWO;
  }

  lemma SplitUserInputs(v: Version, a: FileMetaData, b: FileMetaData, c: FileMetaData, pick: Compaction)
    requires SplitUser(v, a, b, c) && pick.inputs0 == [a] && pick.inputs1 == [b]
    ensures InputEntries(pick) == {NEW_ONE, OLD_ONE, DELETED_TWO}
  {
    assert InputFiles(pick) == [a, b];
    assert a in InputFiles(pick) && b in InputFiles(pick);
    assert NEW_ONE == a.entries[0] && OLD_ONE == b.entries[0] && DELETED_TWO == b.entries[1];
    assert NEW_ONE in a.entries && OLD_ONE in b.entries && DELETED_TWO in b.entries;
    forall e | e in InputEntries(pick) ensures e == NEW_ONE || e == OLD_ONE || e == DELETED_TWO {
      var f :| f in InputFiles(pick) && e in f.entries;
      assert f == a || f == b;
    }
  }

  lemma TwoResurfaces(rest: set<Entry>, inputs: set<Entry>, baseUsers: iset<UserKey>)
    requires rest == {OLD_TWO} && inputs == {NEW_ONE, OLD_ONE, DELETED_TWO} && 2.0 in baseUsers
    ensures UniqueSequences(rest + inputs) && Resurfaces(rest, inputs, 4, baseUsers, 2.0)
  {
    assert Newest(rest + inputs, 2.0, 4, DELETED_TWO);
    assert Newest(rest, 2.0, 4, OLD_TWO);
  }

  lemma OnlyValueOfTwo(store: set<Entry>)
    requires store <= {OLD_TWO, NEW_ONE, OLD_ONE, DELETED_TWO} && Lookup(store, 2.0, 4).Some?
    ensures Lookup(store, 2.0, 4) == Some("deleted value")
  {
    assert forall e :: Newest(store, 2.0, 4, e) ==> Outcome(e) == None || Outcome(e) == Some("deleted value");
  }

  lemma AnyCompactionOfSplitUser(v: Version, a: FileMetaData, b: FileMetaData, c: FileMetaData, pick: Compaction,
                                 input: seq<Entry>, outputs: seq<FileMetaData>, next: Version)
    requires SplitUser(v, a, b, c) && GoodPick(v, pick) && pick.level == 1 && MergedInput(pick, input)
    requires WorkDone(v, pick, input, 4, outputs, 12) && CompactedTo(v, pick, outputs, next)
    ensures Lookup(AllEntries(v), 2.0, 4) == None
    ensures Lookup(AllEntries(next), 2.0, 4) == Some("deleted value")
  {
    SplitUserInv(v, a, b, c);
    PickLeavesTableBehind(v, a, b, c, pick);
    SplitUserRest(v, a, b, c, pick);
    SplitUserInputs(v, a, b, c, pick);
    var rest, inputs := RestEntries(v, pick), InputEntries(pick);
    TwoResurfaces(rest, inputs, BaseUsers(v, 1));
    VersionSplits(v, pick);
    NextSplits(v, pick, outputs, next);
    OutputEntries(v, pick, input, 4, outputs, 12);
    InputIsUnique(input, rest + inputs);
    LoopFollowsRule(input, 4, v, 1);
    Difference(rest, inputs, EntriesOf(outputs), 4, BaseUsers(v, 1), 2.0);
    OnlyValueOfTwo(AllEntries(next));
  }

  lemma SplitUserPick(v: Version, a: FileMetaData, b: FileMetaData, c: FileMetaData) returns (pick: Compaction)
    requires SplitUser(v, a, b, c)
    ensures pick == Compaction(1, [a], [b], []) && GoodPick(v, pick)
  {
    pick := Compaction(1, [a], [b], []);
    assert v.files[1][0..1] == [a];
    assert CleanSlice(v.files[1], [a], 0, 1);
    OverlapOfTwo(b, c);
    assert a in [a];
    assert CoversExactly([a], a.smallest, a.largest);
    assert NextInputs(v.files[2], [a], [b]);
  }

  lemma SplitUserWork(v: Version, a: FileMetaData, b: FileMetaData, c: FileMetaData, out: FileMetaData)
    requires SplitUser(v, a, b, c) && IsBase(v, 1, 2.0) && out == TableOf(12, 1, [NEW_ONE])
    ensures WorkDone(v, Compaction(1, [a], [b], []), [NEW_ONE, OLD_ONE, DELETED_TWO], 4, [out], 12)
  {
    var input := [NEW_ONE, OLD_ONE, DELETED_TWO];
    assert KeptUpTo(input, 0, 4, v, 1) == [];
    assert KeptUpTo(input, 1, 4, v, 1) == [NEW_ONE];
    assert DroppedAt(input, 1, 4, v, 1) && DroppedAt(input, 2, 4, v, 1);
    assert KeptUpTo(input, 2, 4, v, 1) == [NEW_ONE];
    assert KeptUpTo(input, 3, 4, v, 1) == [NEW_ONE];
    assert [out][..0] == [];
    assert Flat([out]) == [NEW_ONE];
    assert ValidFile(out);
  }

  lemma SplitUserNext(v: Version, a: FileMetaData, b: FileMetaData, c: FileMetaData, out: FileMetaData, next: Version)
    requires SplitUser(v, a, b, c) && out == TableOf(12, 1, [NEW_ONE])
    requires next == Version([[], [], [out, c], [], [], [], []])
    ensures CompactedTo(v, Compaction(1, [a], [b], []), [out], next)
  {
    SplitUserHoldsThree(v, a, b, c);
    assert FileLess(out, c) && c != b && c != a;
    assert a in [a] && b in [b] && out in [out];
    forall level | 0 <= level < NUM_LEVELS ensures SortedFiles(next.files[level]) {
      assert level == 0 || level == 1 || level == 2 || level == 3 || level == 4 || level == 5 || level == 6;
    }
    forall l: nat, g
      ensures In(next, l, g) <==> Remains(v, Compaction(1, [a], [b], []), l, g) || (l == 2 && g in [out])
    {
      assert l < 7 ==> l == 0 || l == 1 || l == 2 || l == 3 || l == 4 || l == 5 || l == 6;
    }
  }

  /** In a version that every invariant allows, the picker sets up a compaction before which user key 2.0
      is absent and after which its deleted value is back. */
  lemma DeletedValueResurfaces()
    returns (v: Version, pick: Compaction, input: seq<Entry>, outputs: seq<FileMetaData>, next: Version)
    ensures Inv(v) && GoodPick(v, pick) && MergedInput(pick, input)
    ensures WorkDone(v, pick, input, 4, outputs, 12) && CompactedTo(v, pick, outputs, next)
    ensures Lookup(AllEntries(v), 2.0, 4) == None
    ensures Lookup(AllEntries(next), 2.0, 4) == Some("deleted value")
  {
    var a, b, c := TableOf(11, 1, [NEW_ONE]), TableOf(8, 1, [OLD_ONE, DELETED_TWO]), TableOf(9, 1, [OLD_TWO]);
    var out := TableOf(12, 1, [NEW_ONE]);
    v := Version([[], [a], [b, c], [], [], [], []]);
    assert SplitUser(v, a, b, c);
    SplitUserInv(v, a, b, c);
    pick := SplitUserPick(v, a, b, c);
    input, outputs := [NEW_ONE, OLD_ONE, DELETED_TWO], [out];
    SplitUserRest(v, a, b, c, pick);
    SplitUserInputs(v, a, b, c, pick);
    ThreeEntries(input);
    SplitUserWork(v, a, b, c, out);
    next := Version([[], [], [out, c], [], [], [], []]);
    SplitUserNext(v, a, b, c, out, next);
    AnyCompactionOfSplitUser(v, a, b, c, pick, input, outputs, next);
  }

  lemma ThreeEntries(input: seq<Entry>)
    requires input == [NEW_ONE, OLD_ONE, DELETED_TWO]
    ensures SortedKeys(input) && SetOf(input) == {NEW_ONE, OLD_ONE, DELETED_TWO}
  {
    assert input[0] in input && input[1] in input && input[2] in input;
  }
}
