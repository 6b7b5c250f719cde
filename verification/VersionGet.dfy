/** Point reads: Version::Get level by level (db/version_set.cc), memtable lookups (db/memtable.cc) and
    DBImpl::Get over both (db/db_impl.cc). */
module VersionGet {
  import opened Basics
  import opened InternalKeys
  import opened Versions
  import opened LevelSearch

  /** The first entry at or after a key, which is where a table or memtable lookup lands. */
  function FirstAtOrAfter(entries: seq<Entry>, key: InternalKey): (r: Option<Entry>)
    ensures r.Some? ==> r.value in entries && !Less(r.value.key, key)
  {
    if entries == [] then None
    else if !Less(entries[0].key, key) then Some(entries[0])
    else FirstAtOrAfter(entries[1..], key)
  }

  ghost predicate NoneVisible(entries: seq<Entry>, user: UserKey, snapshot: SequenceNumber) {
    forall e :: e in entries ==> !VisibleTo(e, user, snapshot)
  }

  ghost predicate NewestIn(entries: seq<Entry>, user: UserKey, snapshot: SequenceNumber, e: Entry) {
    && e in entries && VisibleTo(e, user, snapshot)
    && NoneNewer(entries, user, snapshot, e)
  }

  ghost predicate NoneNewer(entries: seq<Entry>, user: UserKey, snapshot: SequenceNumber, e: Entry) {
    forall o :: o in entries && VisibleTo(o, user, snapshot) ==> o.key.sequence <= e.key.sequence
  }

  lemma NotVisibleBeforeSeekKey(e: Entry, user: UserKey, snapshot: SequenceNumber)
    requires Less(e.key, SeekKey(user, snapshot))
    ensures !VisibleTo(e, user, snapshot)
  {
  }

  /** The entry a lookup lands on answers the read for one sorted run of entries. */
  lemma {:induction false} LookupLands(entries: seq<Entry>, user: UserKey, snapshot: SequenceNumber)
    requires SortedKeys(entries)
    ensures var r := FirstAtOrAfter(entries, SeekKey(user, snapshot));
      if r.Some? && r.value.key.user == user then NewestIn(entries, user, snapshot, r.value)
        else NoneVisible(entries, user, snapshot)
  {
    if entries != [] {
      var head, tail := entries[0], entries[1..];
      forall i | 0 <= i < |tail| ensures Less(head.key, tail[i].key) {
        assert tail[i] == entries[i + 1];
      }
      assert entries == [head] + tail;
      if Less(head.key, SeekKey(user, snapshot)) {
        NotVisibleBeforeSeekKey(head, user, snapshot);
        LookupLands(tail, user, snapshot);
      } else {
        HeadDecides(entries, user, snapshot);
      }
    }
  }

  lemma HeadDecides(entries: seq<Entry>, user: UserKey, snapshot: SequenceNumber)
    requires entries != [] && SortedKeys(entries) && !Less(entries[0].key, SeekKey(user, snapshot))
    ensures if entries[0].key.user == user then NewestIn(entries, user, snapshot, entries[0])
      else NoneVisible(entries, user, snapshot)
  {
    forall e | e in entries ensures e == entries[0] || Less(entries[0].key, e.key) {
      var i :| 0 <= i < |entries| && entries[i] == e;
    }
  }

  // ---- one level ----

  /** Newest first by file number, the order in which level-0 files are read. */
  ghost predicate NewestFirst(files: seq<FileMetaData>) {
    forall i, j :: 0 <= i < j < |files| ==> files[i].number >= files[j].number
  }

  function InsertByNumber(files: seq<FileMetaData>, f: FileMetaData): seq<FileMetaData> {
    if files == [] || files[0].number < f.number then [f] + files
    else [files[0]] + InsertByNumber(files[1..], f)
  }

  lemma {:induction false} InsertByNumberMembers(files: seq<FileMetaData>, f: FileMetaData)
    ensures multiset(InsertByNumber(files, f)) == multiset(files) + multiset{f}
    ensures forall g :: g in InsertByNumber(files, f) ==> g in files || g == f
  {
    if files != [] && files[0].number >= f.number {
      assert files == [files[0]] + files[1..];
      InsertByNumberMembers(files[1..], f);
    }
  }

  lemma {:induction false} InsertByNumberSorts(files: seq<FileMetaData>, f: FileMetaData)
    requires NewestFirst(files)
    ensures NewestFirst(InsertByNumber(files, f))
  {
    if files != [] && files[0].number >= f.number {
      var head, tail := files[0], files[1..];
      assert forall i :: 0 <= i < |tail| ==> tail[i] == files[i + 1];
      InsertByNumberSorts(tail, f);
      InsertByNumberMembers(tail, f);
      var rest := InsertByNumber(tail, f);
      forall i | 0 <= i < |rest| ensures rest[i].number <= head.number {
        assert rest[i] in rest;
      }
    }
  }

  method SortNewestFirst(files: seq<FileMetaData>) returns (sorted: seq<FileMetaData>)
    ensures NewestFirst(sorted) && multiset(sorted) == multiset(files)
  {
    sorted := [];
    for i := 0 to |files|
      invariant NewestFirst(sorted) && multiset(sorted) == multiset(files[..i])
    {
      InsertByNumberSorts(sorted, files[i]);
      InsertByNumberMembers(sorted, files[i]);
      sorted := InsertByNumber(sorted, files[i]);
      assert files[..i + 1] == files[..i] + [files[i]];
    }
    assert files[..|files|] == files;
  }

  /** The files of a level that a read must look into, in order. */
  method FilesToSearch(v: Version, level: nat, user: UserKey, snapshot: SequenceNumber)
    returns (files: seq<FileMetaData>)
    requires Searchable(v) && level < NUM_LEVELS
    ensures forall f :: f in files ==> In(v, level, f)
    ensures level == 0 ==> NewestFirst(files)
    ensures level == 0 ==> forall f :: f in v.files[0] && f !in files ==> NoneVisible(f.entries, user, snapshot)
    ensures level > 0 ==> |files| <= 1 && OnlyCandidate(v.files[level], files, user, snapshot)
  {
    var all := v.files[level];
    if level == 0 {
      var tmp := [];
      for i := 0 to |all|
        invariant forall f :: f in tmp ==> f in all
        invariant forall j :: 0 <= j < i ==> all[j] in tmp || NoneVisible(all[j].entries, user, snapshot)
      {
        if all[i].smallest.user <= user <= all[i].largest.user {
          tmp := tmp + [all[i]];
        } else {
          ValidFileBounds(all[i]);
        }
      }
      files := SortNewestFirst(tmp);
      assert forall f :: f in files <==> f in multiset(files);
      assert forall f :: f in tmp <==> f in multiset(tmp);
    } else {
      var index := FindFile(all, SeekKey(user, snapshot));
      if index >= |all| || user < all[index].smallest.user {
        files := [];
      } else {
        files := [all[index]];
        assert In(v, level, all[index]);
      }
      CandidateIsOnly(all, index, files, user, snapshot);
    }
  }

  /** Below level 0: the files left out have nothing visible, or only something older than what the
      candidate's lookup lands on. */
  ghost predicate OnlyCandidate(all: seq<FileMetaData>, files: seq<FileMetaData>, user: UserKey,
                                snapshot: SequenceNumber) {
    forall g :: g in all && g !in files ==>
      || NoneVisible(g.entries, user, snapshot)
      || (files != [] &&
          exists e :: NewestIn(files[0].entries, user, snapshot, e) && NoneNewer(g.entries, user, snapshot, e))
  }

  lemma CandidateIsOnly(all: seq<FileMetaData>, index: nat, files: seq<FileMetaData>, user: UserKey,
                        snapshot: SequenceNumber)
    requires DisjointSorted(all) && ValidFiles(all) && index <= |all|
    requires forall i :: 0 <= i < index ==> Less(all[i].largest, SeekKey(user, snapshot))
    requires forall i :: index <= i < |all| ==> !Less(all[i].largest, SeekKey(user, snapshot))
    requires files == if index >= |all| || user < all[index].smallest.user then [] else [all[index]]
    ensures OnlyCandidate(all, files, user, snapshot)
  {
    forall g | g in all && g !in files
      ensures NoneVisible(g.entries, user, snapshot)
        || (files != [] &&
            exists e :: NewestIn(files[0].entries, user, snapshot, e) && NoneNewer(g.entries, user, snapshot, e))
    {
      var i :| 0 <= i < |all| && all[i] == g;
      ValidFileBounds(g);
      if i < index {
        EarlierFile(g, user, snapshot);
      } else if files == [] {
        if index < i {
          PairOrdered(all, index, i);
        }
      } else {
        assert index < i;
        LaterFile(all[index], g, user, snapshot);
      }
    }
  }

  lemma EarlierFile(g: FileMetaData, user: UserKey, snapshot: SequenceNumber)
    requires ValidFile(g) && Less(g.largest, SeekKey(user, snapshot))
    ensures NoneVisible(g.entries, user, snapshot)
  {
    ValidFileBounds(g);
    forall e | e in g.entries ensures !VisibleTo(e, user, snapshot) {
      assert !Less(g.largest, e.key);
      NotVisibleBeforeSeekKey(e, user, snapshot);
    }
  }

  /** A file after the candidate: the user key may be split between the two. */
  lemma LaterFile(f: FileMetaData, g: FileMetaData, user: UserKey, snapshot: SequenceNumber)
    requires ValidFile(f) && ValidFile(g) && Less(f.largest, g.smallest) && !Less(f.largest, SeekKey(user, snapshot))
    ensures NoneVisible(g.entries, user, snapshot) ||
      exists e :: NewestIn(f.entries, user, snapshot, e) && NoneNewer(g.entries, user, snapshot, e)
  {
    ValidFileBounds(f);
    ValidFileBounds(g);
    LookupLands(f.entries, user, snapshot);
    var r := FirstAtOrAfter(f.entries, SeekKey(user, snapshot));
    LastIsCandidate(f, SeekKey(user, snapshot));
    var e := r.value;
    forall o | o in g.entries ensures Less(e.key, o.key) {
      assert !Less(f.largest, e.key) && !Less(o.key, g.smallest);
    }
    if e.key.user == user {
      assert NewestIn(f.entries, user, snapshot, e) && NoneNewer(g.entries, user, snapshot, e);
    }
  }

  lemma LastIsCandidate(f: FileMetaData, key: InternalKey)
    requires ValidFile(f) && !Less(f.largest, key)
    ensures FirstAtOrAfter(f.entries, key).Some?
  {
    SomeCandidate(f.entries, |f.entries| - 1, key);
  }

  lemma {:induction false} SomeCandidate(entries: seq<Entry>, i: nat, key: InternalKey)
    requires i < |entries| && !Less(entries[i].key, key)
    ensures FirstAtOrAfter(entries, key).Some?
  {
    if Less(entries[0].key, key) {
      SomeCandidate(entries[1..], i - 1, key);
    }
  }

  // ---- all levels ----

  /** Nothing visible in the levels above. */
  ghost predicate NothingAbove(v: Version, level: nat, user: UserKey, snapshot: SequenceNumber) {
    forall l: nat, f :: l < level && In(v, l, f) ==> NoneVisible(f.entries, user, snapshot)
  }

  /** The first hit is the answer: whatever is read later is older. */
  lemma FirstHitIsNewest(v: Version, level: nat, f: FileMetaData, user: UserKey, snapshot: SequenceNumber, e: Entry)
    requires Age(v) && In(v, level, f) && NewestIn(f.entries, user, snapshot, e)
    requires NothingAbove(v, level, user, snapshot)
    requires forall g :: In(v, level, g) && g != f ==>
      NoneNewer(g.entries, user, snapshot, e) || (level == 0 && f.number > g.number)
    ensures Newest(AllEntries(v), user, snapshot, e)
  {
    AllEntriesMember(v, level, f, e);
    forall o | o in AllEntries(v) && VisibleTo(o, user, snapshot) ensures o.key.sequence <= e.key.sequence {
      var l, g := FileOf(v, o);
      if l == level {
        if g != f && level == 0 && f.number > g.number {
          assert Newer(f, g);
        }
      } else if l > level {
        assert Newer(f, g);
      }
    }
  }

  lemma NothingAnywhere(v: Version, user: UserKey, snapshot: SequenceNumber)
    requires WellFormed(v) && NothingAbove(v, NUM_LEVELS, user, snapshot)
    ensures Lookup(AllEntries(v), user, snapshot) == None
  {
    forall e | e in AllEntries(v) ensures !VisibleTo(e, user, snapshot) {
      var l, f := FileOf(v, e);
      assert NoneVisible(f.entries, user, snapshot);
    }
    LookupNothing(AllEntries(v), user, snapshot);
  }

  /** Reads level by level and stops at the first entry for the user key; NotFound stands for absent and
      for deleted. */
  method Get(v: Version, user: UserKey, snapshot: SequenceNumber) returns (r: Option<Value>)
    requires Inv(v)
    ensures r == Lookup(AllEntries(v), user, snapshot)
  {
    InvIsSearchable(v);
    UniqueInVersion(v);
    for level := 0 to NUM_LEVELS
      invariant NothingAbove(v, level, user, snapshot)
    {
      var files := FilesToSearch(v, level, user, snapshot);
      for i := 0 to |files|
        invariant forall j :: 0 <= j < i ==> NoneVisible(files[j].entries, user, snapshot)
      {
        var f := files[i];
        var hit := FirstAtOrAfter(f.entries, SeekKey(user, snapshot));
        LookupLands(f.entries, user, snapshot);
        if hit.Some? && hit.value.key.user == user {
          HitDecides(v, level, files, i, user, snapshot, hit.value);
          LookupIsNewest(AllEntries(v), user, snapshot, hit.value);
          return Outcome(hit.value);
        }
      }
      NoHitInLevel(v, level, files, user, snapshot);
    }
    NothingAnywhere(v, user, snapshot);
    return None;
  }

  lemma UniqueInVersion(v: Version)
    requires UniqueEntries(v)
    ensures UniqueSequences(AllEntries(v))
  {
    forall a, b | a in AllEntries(v) && b in AllEntries(v) && a.key.user == b.key.user &&
      a.key.sequence == b.key.sequence
      ensures a == b
    {
      var l, f := FileOf(v, a);
      var m, g := FileOf(v, b);
      assert FilesUnique(f, g);
      assert SameVersionSameEntry(a, b);
    }
  }

  lemma HitDecides(v: Version, level: nat, files: seq<FileMetaData>, i: nat, user: UserKey, snapshot: SequenceNumber,
                   e: Entry)
    requires |v.files| == NUM_LEVELS && level < NUM_LEVELS && Age(v) && DistinctNumbers(v)
    requires forall f :: f in files ==> In(v, level, f)
    requires i < |files| && NewestIn(files[i].entries, user, snapshot, e)
    requires level == 0 ==> NewestFirst(files)
    requires level == 0 ==> forall f :: f in v.files[0] && f !in files ==> NoneVisible(f.entries, user, snapshot)
    requires level > 0 ==> |files| <= 1 && OnlyCandidate(v.files[level], files, user, snapshot)
    requires forall j :: 0 <= j < i ==> NoneVisible(files[j].entries, user, snapshot)
    requires NothingAbove(v, level, user, snapshot)
    ensures Newest(AllEntries(v), user, snapshot, e)
  {
    var f := files[i];
    assert f in files;
    forall g | In(v, level, g) && g != f
      ensures NoneNewer(g.entries, user, snapshot, e) || (level == 0 && f.number > g.number)
    {
      if level > 0 {
        assert files == [f];
        if !NoneVisible(g.entries, user, snapshot) {
          var best :| NewestIn(f.entries, user, snapshot, best) && NoneNewer(g.entries, user, snapshot, best);
          assert best.key.sequence == e.key.sequence;
        }
      } else if g in files {
        var j :| 0 <= j < |files| && files[j] == g;
        assert i < j ==> f.number > g.number;
      }
    }
    FirstHitIsNewest(v, level, f, user, snapshot, e);
  }

  lemma NoHitInLevel(v: Version, level: nat, files: seq<FileMetaData>, user: UserKey, snapshot: SequenceNumber)
    requires |v.files| == NUM_LEVELS && level < NUM_LEVELS
    requires level == 0 ==> forall f :: f in v.files[0] && f !in files ==> NoneVisible(f.entries, user, snapshot)
    requires level > 0 ==> |files| <= 1 && OnlyCandidate(v.files[level], files, user, snapshot)
    requires forall j :: 0 <= j < |files| ==> NoneVisible(files[j].entries, user, snapshot)
    requires NothingAbove(v, level, user, snapshot)
    ensures NothingAbove(v, level + 1, user, snapshot)
  {
    assert files != [] ==> NoneVisible(files[0].entries, user, snapshot);
    forall f | In(v, level, f) ensures NoneVisible(f.entries, user, snapshot) {
    }
  }

  // ---- the whole database ----

  /** Every entry of `newer` is newer than every entry of `older` for the same user key. */
  ghost predicate NewerSets(newer: set<Entry>, older: set<Entry>) {
    forall a, b :: a in newer && b in older && a.key.user == b.key.user ==> a.key.sequence > b.key.sequence
  }

  lemma NewerSideDecides(newer: set<Entry>, older: set<Entry>, user: UserKey, snapshot: SequenceNumber, e: Entry)
    requires NewerSets(newer, older) && UniqueSequences(newer + older) && Newest(newer, user, snapshot, e)
    ensures Lookup(newer + older, user, snapshot) == Outcome(e)
  {
    assert Newest(newer + older, user, snapshot, e);
    LookupIsNewest(newer + older, user, snapshot, e);
  }

  lemma OlderSideDecides(newer: set<Entry>, older: set<Entry>, user: UserKey, snapshot: SequenceNumber)
    requires UniqueSequences(newer + older) && forall e :: e in newer ==> !VisibleTo(e, user, snapshot)
    ensures Lookup(newer + older, user, snapshot) == Lookup(older, user, snapshot)
  {
    if some :| some in older && VisibleTo(some, user, snapshot) {
      var e := NewestExists(older, user, snapshot, some);
      assert UniqueSequences(older);
      LookupIsNewest(older, user, snapshot, e);
      assert Newest(newer + older, user, snapshot, e);
      LookupIsNewest(newer + older, user, snapshot, e);
    } else {
      LookupNothing(older, user, snapshot);
      LookupNothing(newer + older, user, snapshot);
    }
  }

  /** MemTable::Get: whether the memtable decides the read, and how. */
  method MemGet(mem: seq<Entry>, user: UserKey, snapshot: SequenceNumber) returns (hit: Option<Entry>)
    requires SortedKeys(mem)
    ensures hit.Some? ==> NewestIn(mem, user, snapshot, hit.value)
    ensures hit.None? ==> NoneVisible(mem, user, snapshot)
  {
    hit := FirstAtOrAfter(mem, SeekKey(user, snapshot));
    LookupLands(mem, user, snapshot);
    if hit.Some? && hit.value.key.user != user {
      hit := None;
    }
  }

  /** DBImpl::Get: the memtable, then the immutable memtable, then the version. */
  method DBGet(mem: seq<Entry>, imm: seq<Entry>, v: Version, user: UserKey, snapshot: SequenceNumber)
    returns (r: Option<Value>)
    requires SortedKeys(mem) && SortedKeys(imm) && Inv(v)
    requires NewerSets(SetOf(mem), SetOf(imm) + AllEntries(v)) && NewerSets(SetOf(imm), AllEntries(v))
    requires UniqueSequences(SetOf(mem) + (SetOf(imm) + AllEntries(v)))
    ensures r == Lookup(SetOf(mem) + (SetOf(imm) + AllEntries(v)), user, snapshot)
  {
    ghost var tables := AllEntries(v);
    ghost var below := SetOf(imm) + tables;
    var hit := MemGet(mem, user, snapshot);
    if hit.Some? {
      assert Newest(SetOf(mem), user, snapshot, hit.value);
      NewerSideDecides(SetOf(mem), below, user, snapshot, hit.value);
      return Outcome(hit.value);
    }
    OlderSideDecides(SetOf(mem), below, user, snapshot);
    assert UniqueSequences(below);
    hit := MemGet(imm, user, snapshot);
    if hit.Some? {
      assert Newest(SetOf(imm), user, snapshot, hit.value);
      NewerSideDecides(SetOf(imm), tables, user, snapshot, hit.value);
      return Outcome(hit.value);
    }
    OlderSideDecides(SetOf(imm), tables, user, snapshot);
    r := Get(v, user, snapshot);
  }
}
