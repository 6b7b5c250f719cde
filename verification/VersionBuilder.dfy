/** Applying version edits (VersionSet::Builder and LogAndApply of db/version_set.cc), and why one
    builder fed with every edit of a manifest rebuilds the version that was installed edit by edit
    (VersionSet::Recover). */
module VersionBuilder {
  import opened Basics
  import opened InternalKeys
  import opened Versions

  /** The part of a version edit that changes compaction pointers and file lists, each for a level. */
  datatype VersionEdit = VersionEdit(
    pointers: seq<(nat, InternalKey)>, deleted: set<(nat, nat)>, added: seq<(nat, FileMetaData)>)

  ghost predicate ValidEdit(edit: VersionEdit) {
    && (forall p :: p in edit.pointers ==> p.0 < NUM_LEVELS)
    && (forall d :: d in edit.deleted ==> d.0 < NUM_LEVELS)
    && (forall a :: a in edit.added ==> a.0 < NUM_LEVELS)
  }

  // ---- compaction pointers ----

  function AfterMoves(ps: Pointers, moves: seq<(nat, InternalKey)>): (r: Pointers)
    ensures |r| == |ps|
  {
    if moves == [] then ps
    else
      var before := AfterMoves(ps, moves[..|moves| - 1]);
      var (level, key) := moves[|moves| - 1];
      if level < |before| then before[level := Some(key)] else before
  }

  /** Where the moves of a list of edits leave the pointers. */
  function AfterAllMoves(ps: Pointers, edits: seq<VersionEdit>): (r: Pointers)
    ensures |r| == |ps|
  {
    if edits == [] then ps
    else AfterMoves(AfterAllMoves(ps, edits[..|edits| - 1]), edits[|edits| - 1].pointers)
  }

  /** The last move of a level, at index i, stands; without one, at -1, the pointer stays. */
  lemma {:induction false} LastMoveStands(ps: Pointers, moves: seq<(nat, InternalKey)>, level: nat, i: int)
    requires level < |ps| && -1 <= i < |moves| && (i >= 0 ==> moves[i].0 == level)
    requires forall j :: i < j < |moves| ==> moves[j].0 != level
    ensures AfterMoves(ps, moves)[level] == if i < 0 then ps[level] else Some(moves[i].1)
  {
    if moves != [] && i < |moves| - 1 {
      LastMoveStands(ps, moves[..|moves| - 1], level, i);
    }
  }

  lemma {:induction false} MovesJoin(ps: Pointers, a: seq<VersionEdit>, b: seq<VersionEdit>)
    ensures AfterAllMoves(ps, a + b) == AfterAllMoves(AfterAllMoves(ps, a), b)
  {
    if b == [] {
      assert a + b == a;
    } else {
      assert (a + b)[..|a + b| - 1] == a + b[..|b| - 1];
      MovesJoin(ps, a, b[..|b| - 1]);
    }
  }

  // ---- added files of one level: an ordered set ----

  function InsertFile(files: seq<FileMetaData>, f: FileMetaData): seq<FileMetaData> {
    if files == [] then [f]
    else if FileLess(f, files[0]) then [f] + files
    else if FileLess(files[0], f) then [files[0]] + InsertFile(files[1..], f)
    else files
  }

  lemma FileLessTransitive(f: FileMetaData, g: FileMetaData, h: FileMetaData)
    requires FileLess(f, g) && FileLess(g, h)
    ensures FileLess(f, h)
  {
  }

  lemma {:induction false} InsertFileMembers(files: seq<FileMetaData>, f: FileMetaData)
    ensures forall g :: g in InsertFile(files, f) ==> g == f || g in files
    ensures forall g :: g in files ==> g in InsertFile(files, f)
    ensures f in InsertFile(files, f) || exists g :: g in files && g.number == f.number
  {
    if files != [] {
      assert files == [files[0]] + files[1..];
      if FileLess(files[0], f) && !FileLess(f, files[0]) {
        InsertFileMembers(files[1..], f);
      }
    }
  }

  lemma {:induction false} InsertFileSorted(files: seq<FileMetaData>, f: FileMetaData)
    requires SortedFiles(files)
    ensures SortedFiles(InsertFile(files, f))
  {
    if files != [] {
      var head, tail := files[0], files[1..];
      assert forall i :: 0 <= i < |tail| ==> tail[i] == files[i + 1] && FileLess(head, tail[i]);
      if FileLess(f, head) {
        forall i | 0 <= i < |files| ensures FileLess(f, files[i]) {
          if i > 0 {
            FileLessTransitive(f, head, files[i]);
          }
        }
      } else if FileLess(head, f) {
        InsertFileSorted(tail, f);
        InsertFileMembers(tail, f);
        var rest := InsertFile(tail, f);
        forall i | 0 <= i < |rest| ensures FileLess(head, rest[i]) {
          assert rest[i] in rest;
        }
      }
    }
  }

  ghost function Numbers(files: seq<FileMetaData>): set<nat> {
    set f | f in files :: f.number
  }

  // ---- the builder's state for one level ----

  datatype LevelState = LevelState(deleted: set<nat>, added: seq<FileMetaData>)

  function AfterDeletes(s: LevelState, edit: VersionEdit, level: nat): LevelState {
    s.(deleted := s.deleted + set d | d in edit.deleted && d.0 == level :: d.1)
  }

  function AfterAdds(s: LevelState, added: seq<(nat, FileMetaData)>, level: nat): LevelState {
    if added == [] then s
    else
      var before := AfterAdds(s, added[..|added| - 1], level);
      var (l, f) := added[|added| - 1];
      if l == level then LevelState(before.deleted - {f.number}, InsertFile(before.added, f)) else before
  }

  function AfterEdit(s: LevelState, edit: VersionEdit, level: nat): LevelState {
    AfterAdds(AfterDeletes(s, edit, level), edit.added, level)
  }

  /** The files the builder stands for at one level. */
  ghost function Content(base: seq<FileMetaData>, s: LevelState): set<FileMetaData> {
    set f | f in base + s.added && f.number !in s.deleted
  }

  /** What an edit means for the files of a level. */
  ghost function EditLevel(files: set<FileMetaData>, edit: VersionEdit, level: nat): set<FileMetaData> {
    (set f | f in files && (level, f.number) !in edit.deleted) + AddedAt(edit.added, level)
  }

  ghost function AddedAt(added: seq<(nat, FileMetaData)>, level: nat): set<FileMetaData> {
    set a | a in added && a.0 == level :: a.1
  }

  ghost function AddedNumbers(added: seq<(nat, FileMetaData)>, level: nat): set<nat> {
    set a | a in added && a.0 == level :: a.1.number
  }

  /** No number the level has seen is added to the level again. */
  ghost predicate Fresh(seen: set<nat>, added: seq<(nat, FileMetaData)>, level: nat) {
    added == [] ||
    var front, last := added[..|added| - 1], added[|added| - 1];
    && Fresh(seen, front, level)
    && (last.0 == level ==> last.1.number !in seen + AddedNumbers(front, level))
  }

  ghost function Known(base: seq<FileMetaData>, s: LevelState): set<nat> {
    Numbers(base) + Numbers(s.added)
  }

  lemma {:induction false} AddsMeaning(base: seq<FileMetaData>, s: LevelState, added: seq<(nat, FileMetaData)>,
                                       level: nat)
    requires SortedFiles(s.added) && Fresh(Known(base, s), added, level)
    ensures var t := AfterAdds(s, added, level);
      && SortedFiles(t.added)
      && (forall f :: f in t.added <==> f in s.added || f in AddedAt(added, level))
      && t.deleted == s.deleted - AddedNumbers(added, level)
      && Known(base, t) == Known(base, s) + AddedNumbers(added, level)
  {
    if added != [] {
      var front, last := added[..|added| - 1], added[|added| - 1];
      assert added == front + [last];
      AddsMeaning(base, s, front, level);
      var before := AfterAdds(s, front, level);
      var t := AfterAdds(s, added, level);
      if last.0 == level {
        var f := last.1;
        assert f.number !in Known(base, before);
        InsertFileSorted(before.added, f);
        InsertFileMembers(before.added, f);
        assert AddedAt(added, level) == AddedAt(front, level) + {f};
        assert AddedNumbers(added, level) == AddedNumbers(front, level) + {f.number};
        assert Numbers(t.added) == Numbers(before.added) + {f.number} by {
          assert forall g :: g in t.added <==> g in before.added || g == f;
        }
      } else {
        assert AddedAt(added, level) == AddedAt(front, level);
        assert AddedNumbers(added, level) == AddedNumbers(front, level);
      }
    }
  }

  /** One edit applied to the builder is that edit applied to the files it stands for. */
  lemma EditMeaning(base: seq<FileMetaData>, s: LevelState, edit: VersionEdit, level: nat)
    requires SortedFiles(s.added) && Fresh(Known(base, s), edit.added, level)
    ensures var t := AfterEdit(s, edit, level);
      && SortedFiles(t.added)
      && Content(base, t) == EditLevel(Content(base, s), edit, level)
      && Known(base, t) == Known(base, s) + AddedNumbers(edit.added, level)
  {
    var d := AfterDeletes(s, edit, level);
    AddsMeaning(base, d, edit.added, level);
    var t := AfterEdit(s, edit, level);
    NotReadded(Known(base, s), edit.added, level);
    forall f ensures f in Content(base, t) <==> f in EditLevel(Content(base, s), edit, level) {
      if f in base || f in s.added {
        assert f.number in Known(base, s);
        assert f.number in d.deleted <==> f.number in s.deleted || (level, f.number) in edit.deleted;
      }
      if f in AddedAt(edit.added, level) {
        assert f.number in AddedNumbers(edit.added, level);
      }
    }
  }

  lemma {:induction false} NotReadded(seen: set<nat>, added: seq<(nat, FileMetaData)>, level: nat)
    requires Fresh(seen, added, level)
    ensures seen !! AddedNumbers(added, level)
  {
    if added != [] {
      var front, last := added[..|added| - 1], added[|added| - 1];
      assert added == front + [last];
      NotReadded(seen, front, level);
    }
  }

  /** A sorted list is determined by its members. */
  lemma {:induction false} SortedListsAgree(a: seq<FileMetaData>, b: seq<FileMetaData>)
    requires SortedFiles(a) && SortedFiles(b)
    requires forall f :: f in a <==> f in b
    ensures a == b
  {
    assert b != [] ==> b[0] in b;
    if a != [] {
      assert a[0] in b;
      assert b[0] in a;
      if a[0] != b[0] {
        assert FileLess(b[0], a[0]);
        assert FileLess(a[0], b[0]);
        FileLessTransitive(a[0], b[0], a[0]);
        assert false;
      }
      forall f ensures f in a[1..] <==> f in b[1..] {
        TailMembers(a, f);
        TailMembers(b, f);
      }
      SortedListsAgree(a[1..], b[1..]);
      assert a == [a[0]] + a[1..] && b == [b[0]] + b[1..];
    }
  }

  lemma TailMembers(a: seq<FileMetaData>, f: FileMetaData)
    requires SortedFiles(a) && a != []
    ensures f in a[1..] <==> f in a && f != a[0]
  {
    assert a == [a[0]] + a[1..];
    if f in a[1..] {
      var i :| 1 <= i < |a| && a[i] == f;
      assert FileLess(a[0], a[i]);
    }
  }

  // ---- the builder ----

  class Builder {
    const base: Version
    var levels: seq<LevelState>
    /** The compaction pointers of the version set. */
    var pointers: Pointers

    ghost predicate Valid()
      reads this
    {
      && |base.files| == NUM_LEVELS == |levels| && |pointers| == NUM_LEVELS
      && forall l :: 0 <= l < NUM_LEVELS ==> SortedFiles(base.files[l])
    }

    constructor (base: Version, pointers: Pointers)
      requires |pointers| == NUM_LEVELS
      requires |base.files| == NUM_LEVELS && forall l :: 0 <= l < NUM_LEVELS ==> SortedFiles(base.files[l])
      ensures Valid() && this.base == base && this.pointers == pointers
      ensures forall l :: 0 <= l < NUM_LEVELS ==> levels[l] == LevelState({}, [])
    {
      this.base := base;
      this.pointers := pointers;
      levels := seq(NUM_LEVELS, _ => LevelState({}, []));
    }

    /** Moves the compaction pointers; then deletions, and then additions, which take a number off the deleted
        ones. */
    method Apply(edit: VersionEdit)
      requires Valid() && ValidEdit(edit)
      modifies this`levels, this`pointers
      ensures Valid()
      ensures pointers == AfterMoves(old(pointers), edit.pointers)
      ensures forall l :: 0 <= l < NUM_LEVELS ==> levels[l] == AfterEdit(old(levels[l]), edit, l)
    {
      for i := 0 to |edit.pointers|
        invariant Valid() && levels == old(levels)
        invariant pointers == AfterMoves(old(pointers), edit.pointers[..i])
      {
        var (level, key) := edit.pointers[i];
        assert edit.pointers[i] in edit.pointers;
        assert edit.pointers[..i + 1][..i] == edit.pointers[..i];
        pointers := pointers[level := Some(key)];
      }
      assert edit.pointers[..|edit.pointers|] == edit.pointers;
      ApplyFiles(edit);
    }

    method ApplyFiles(edit: VersionEdit)
      requires Valid() && ValidEdit(edit)
      modifies this`levels
      ensures Valid()
      ensures forall l :: 0 <= l < NUM_LEVELS ==> levels[l] == AfterEdit(old(levels[l]), edit, l)
    {
      var pending := edit.deleted;
      while pending != {}
        invariant Valid() && pending <= edit.deleted
        invariant forall l :: 0 <= l < NUM_LEVELS ==>
          levels[l] == AfterDeletes(old(levels[l]), VersionEdit([], edit.deleted - pending, []), l)
        decreases pending
      {
        var d :| d in pending;
        var (level, number) := d;
        levels := levels[level := levels[level].(deleted := levels[level].deleted + {number})];
        pending := pending - {d};
        assert edit.deleted - pending == (edit.deleted - (pending + {d})) + {d};
      }
      assert edit.deleted - {} == edit.deleted;
      assert forall l :: 0 <= l < NUM_LEVELS ==> levels[l] == AfterDeletes(old(levels[l]), edit, l);
      for i := 0 to |edit.added|
        invariant Valid()
        invariant forall l :: 0 <= l < NUM_LEVELS ==>
          levels[l] == AfterAdds(AfterDeletes(old(levels[l]), edit, l), edit.added[..i], l)
      {
        var (level, f) := edit.added[i];
        assert edit.added[i] in edit.added;
        assert edit.added[..i + 1][..i] == edit.added[..i];
        var s := levels[level];
        levels := levels[level := LevelState(s.deleted - {f.number}, InsertFile(s.added, f))];
      }
      assert edit.added[..|edit.added|] == edit.added;
    }

    /** Merges the kept files of the base version with the added ones. */
    method SaveLevel(level: nat) returns (out: seq<FileMetaData>)
      requires Valid() && level < NUM_LEVELS
      requires SortedFiles(levels[level].added)
      requires Numbers(base.files[level]) !! Numbers(levels[level].added)
      ensures SortedFiles(out)
      ensures forall f :: f in out <==> f in Content(base.files[level], levels[level])
    {
      var baseFiles, s := base.files[level], levels[level];
      var added := s.added;
      out := [];
      var b := 0;
      for a := 0 to |added|
        invariant b <= |baseFiles|
        invariant Merged(out, baseFiles, b, added, a, s.deleted)
      {
        while b < |baseFiles| && !FileLess(added[a], baseFiles[b])
          invariant b <= |baseFiles|
          invariant Merged(out, baseFiles, b, added, a, s.deleted)
        {
          assert baseFiles[b].number in Numbers(baseFiles) && added[a].number in Numbers(added);
          MergeBase(out, baseFiles, b, added, a, s.deleted);
          if baseFiles[b].number !in s.deleted {
            out := out + [baseFiles[b]];
          }
          b := b + 1;
        }
        MergeAdded(out, baseFiles, b, added, a, s.deleted);
        if added[a].number !in s.deleted {
          out := out + [added[a]];
        }
      }
      while b < |baseFiles|
        invariant b <= |baseFiles|
        invariant Merged(out, baseFiles, b, added, |added|, s.deleted)
      {
        MergeBase(out, baseFiles, b, added, |added|, s.deleted);
        if baseFiles[b].number !in s.deleted {
          out := out + [baseFiles[b]];
        }
        b := b + 1;
      }
    }

    /** The version the builder stands for. */
    method SaveTo() returns (v: Version)
      requires Valid()
      requires forall l :: 0 <= l < NUM_LEVELS ==>
        SortedFiles(levels[l].added) && Numbers(base.files[l]) !! Numbers(levels[l].added)
      ensures |v.files| == NUM_LEVELS
      ensures forall l :: 0 <= l < NUM_LEVELS ==> SortedFiles(v.files[l])
      ensures forall l, f :: 0 <= l < NUM_LEVELS ==> (f in v.files[l] <==> f in Content(base.files[l], levels[l]))
    {
      var files := [];
      for level := 0 to NUM_LEVELS
        invariant |files| == level
        invariant forall l :: 0 <= l < level ==> SortedFiles(files[l])
        invariant forall l, f :: 0 <= l < level ==> (f in files[l] <==> f in Content(base.files[l], levels[l]))
      {
        var out := SaveLevel(level);
        files := files + [out];
      }
      v := Version(files);
    }
  }

  /** The merge so far: sorted, made of the files passed over, and before all files to come. */
  ghost predicate Merged(out: seq<FileMetaData>, base: seq<FileMetaData>, b: nat, added: seq<FileMetaData>, a: nat,
                         deleted: set<nat>)
    requires b <= |base| && a <= |added|
  {
    && SortedFiles(out)
    && (forall f :: f in out <==> (f in base[..b] || f in added[..a]) && f.number !in deleted)
    && (forall f, i :: f in out && b <= i < |base| ==> FileLess(f, base[i]))
    && (forall f, i :: f in out && a <= i < |added| ==> FileLess(f, added[i]))
  }

  lemma MergeBase(out: seq<FileMetaData>, base: seq<FileMetaData>, b: nat, added: seq<FileMetaData>, a: nat,
                  deleted: set<nat>)
    requires b < |base| && a <= |added| && SortedFiles(base) && SortedFiles(added)
    requires Merged(out, base, b, added, a, deleted)
    requires a < |added| ==> !FileLess(added[a], base[b]) && base[b].number != added[a].number
    ensures Merged(if base[b].number in deleted then out else out + [base[b]], base, b + 1, added, a, deleted)
  {
    assert base[..b + 1] == base[..b] + [base[b]];
    var next := if base[b].number in deleted then out else out + [base[b]];
    assert a < |added| ==> FileLess(base[b], added[a]);
    forall i | a <= i < |added| ensures FileLess(base[b], added[i]) {
      if a < i {
        FileLessTransitive(base[b], added[a], added[i]);
      }
    }
    assert forall f :: f in next ==> f in out || f == base[b];
  }

  lemma MergeAdded(out: seq<FileMetaData>, base: seq<FileMetaData>, b: nat, added: seq<FileMetaData>, a: nat,
                   deleted: set<nat>)
    requires b <= |base| && a < |added| && SortedFiles(base) && SortedFiles(added)
    requires Merged(out, base, b, added, a, deleted)
    requires b < |base| ==> FileLess(added[a], base[b])
    ensures Merged(if added[a].number in deleted then out else out + [added[a]], base, b, added, a + 1, deleted)
  {
    assert added[..a + 1] == added[..a] + [added[a]];
    var next := if added[a].number in deleted then out else out + [added[a]];
    forall i | b <= i < |base| ensures FileLess(added[a], base[i]) {
      if b < i {
        FileLessTransitive(added[a], base[b], base[i]);
      }
    }
    assert forall f :: f in next ==> f in out || f == added[a];
  }

  // ---- installing an edit ----

  ghost predicate FreshEdit(v: Version, edit: VersionEdit)
    requires |v.files| == NUM_LEVELS
  {
    ValidEdit(edit) && forall l :: 0 <= l < NUM_LEVELS ==> Fresh(Numbers(v.files[l]), edit.added, l)
  }

  /** `next` is `v` with the edit made to every level. */
  ghost predicate Installs(v: Version, edit: VersionEdit, next: Version) {
    && |v.files| == NUM_LEVELS == |next.files|
    && (forall l :: 0 <= l < NUM_LEVELS ==> SortedFiles(next.files[l]))
    && (forall l, f :: 0 <= l < NUM_LEVELS ==> (f in next.files[l] <==> f in EditLevel(FileSet(v.files[l]), edit, l)))
  }

  ghost function FileSet(files: seq<FileMetaData>): set<FileMetaData> {
    set f | f in files
  }

  /** One builder per edit, as every change to a running database is installed. */
  method LogAndApply(v: Version, pointers: Pointers, edit: VersionEdit) returns (next: Version, moved: Pointers)
    requires |pointers| == NUM_LEVELS
    requires |v.files| == NUM_LEVELS && forall l :: 0 <= l < NUM_LEVELS ==> SortedFiles(v.files[l])
    requires FreshEdit(v, edit)
    ensures Installs(v, edit, next)
    ensures moved == AfterMoves(pointers, edit.pointers)
  {
    var builder := new Builder(v, pointers);
    builder.Apply(edit);
    forall l | 0 <= l < NUM_LEVELS
      ensures SortedFiles(builder.levels[l].added) && Numbers(v.files[l]) !! Numbers(builder.levels[l].added)
      ensures Content(v.files[l], builder.levels[l]) == EditLevel(FileSet(v.files[l]), edit, l)
    {
      OneEdit(v.files[l], edit, l);
    }
    next := builder.SaveTo();
    moved := builder.pointers;
  }

  lemma OneEdit(base: seq<FileMetaData>, edit: VersionEdit, level: nat)
    requires Fresh(Numbers(base), edit.added, level)
    ensures var t := AfterEdit(LevelState({}, []), edit, level);
      && SortedFiles(t.added) && Numbers(base) !! Numbers(t.added)
      && Content(base, t) == EditLevel(FileSet(base), edit, level)
  {
    var empty := LevelState({}, []);
    assert Known(base, empty) == Numbers(base);
    EditMeaning(base, empty, edit, level);
    assert Content(base, empty) == FileSet(base);
    NotReadded(Numbers(base), edit.added, level);
    AddedAreNew(base, empty, edit, level);
  }

  /** Keeps base numbers and added numbers apart. */
  lemma AddedAreNew(base: seq<FileMetaData>, s: LevelState, edit: VersionEdit, level: nat)
    requires SortedFiles(s.added) && Fresh(Known(base, s), edit.added, level)
    requires Numbers(base) !! Numbers(s.added)
    ensures Numbers(base) !! Numbers(AfterEdit(s, edit, level).added)
  {
    AddsMeaning(base, AfterDeletes(s, edit, level), edit.added, level);
    NotReadded(Known(base, s), edit.added, level);
    forall n | n in Numbers(AfterEdit(s, edit, level).added) ensures n !in Numbers(base) {
      var f :| f in AfterEdit(s, edit, level).added && f.number == n;
      if f in s.added {
        assert n in Numbers(s.added);
      } else {
        assert f.number in AddedNumbers(edit.added, level);
      }
    }
  }

  // ---- replaying a manifest ----

  /** The versions a run of installs goes through. */
  ghost predicate InstallRun(versions: seq<Version>, edits: seq<VersionEdit>) {
    && |versions| == |edits| + 1
    && forall i :: 0 <= i < |edits| ==> Installs(versions[i], edits[i], versions[i + 1])
  }

  function AfterEdits(s: LevelState, edits: seq<VersionEdit>, level: nat): LevelState {
    if edits == [] then s
    else AfterEdit(AfterEdits(s, edits[..|edits| - 1], level), edits[|edits| - 1], level)
  }

  /** No edit adds to a level a number the level has had before, in the base version or by an edit. */
  ghost predicate NeverReadded(base: seq<FileMetaData>, edits: seq<VersionEdit>, level: nat) {
    edits == [] ||
    var front, last := edits[..|edits| - 1], edits[|edits| - 1];
    && NeverReadded(base, front, level)
    && Fresh(Known(base, AfterEdits(LevelState({}, []), front, level)), last.added, level)
  }

  lemma {:induction false} BuilderFollowsRun(versions: seq<Version>, edits: seq<VersionEdit>, level: nat)
    requires InstallRun(versions, edits) && |versions[0].files| == NUM_LEVELS && level < NUM_LEVELS
    requires NeverReadded(versions[0].files[level], edits, level)
    ensures |versions[|edits|].files| == NUM_LEVELS
    ensures var s := AfterEdits(LevelState({}, []), edits, level);
      && SortedFiles(s.added)
      && Numbers(versions[0].files[level]) !! Numbers(s.added)
      && Content(versions[0].files[level], s) == FileSet(versions[|edits|].files[level])
  {
    var base := versions[0].files[level];
    if edits == [] {
      assert Content(base, LevelState({}, [])) == FileSet(base);
    } else {
      var n := |edits| - 1;
      BuilderFollowsRun(versions[..n + 1], edits[..n], level);
      var s := AfterEdits(LevelState({}, []), edits[..n], level);
      EditMeaning(base, s, edits[n], level);
      AddedAreNew(base, s, edits[n], level);
      assert Installs(versions[n], edits[n], versions[n + 1]);
    }
  }

  /** Recover: one builder takes every edit of the manifest and saves once. */
  method Recover(initial: Version, edits: seq<VersionEdit>, ghost versions: seq<Version>)
    returns (v: Version, pointers: Pointers)
    requires InstallRun(versions, edits) && versions[0] == initial
    requires |initial.files| == NUM_LEVELS && forall l :: 0 <= l < NUM_LEVELS ==> SortedFiles(initial.files[l])
    requires forall e :: e in edits ==> ValidEdit(e)
    requires forall l :: 0 <= l < NUM_LEVELS ==> NeverReadded(initial.files[l], edits, l)
    ensures v == versions[|edits|]
    ensures pointers == AfterAllMoves(NO_POINTERS, edits)
  {
    var builder := new Builder(initial, NO_POINTERS);
    for i := 0 to |edits|
      invariant builder.Valid()
      invariant builder.pointers == AfterAllMoves(NO_POINTERS, edits[..i])
      invariant forall l :: 0 <= l < NUM_LEVELS ==> builder.levels[l] == AfterEdits(LevelState({}, []), edits[..i], l)
    {
      assert edits[..i + 1][..i] == edits[..i];
      builder.Apply(edits[i]);
    }
    assert edits[..|edits|] == edits;
    forall l | 0 <= l < NUM_LEVELS
      ensures SortedFiles(builder.levels[l].added) && Numbers(initial.files[l]) !! Numbers(builder.levels[l].added)
      ensures |versions[|edits|].files| == NUM_LEVELS
      ensures Content(initial.files[l], builder.levels[l]) == FileSet(versions[|edits|].files[l])
    {
      BuilderFollowsRun(versions, edits, l);
    }
    v := builder.SaveTo();
    pointers := builder.pointers;
    var last := versions[|edits|];
    assert |last.files| == NUM_LEVELS by {
      BuilderFollowsRun(versions, edits, 0);
    }
    forall l | 0 <= l < NUM_LEVELS ensures v.files[l] == last.files[l] {
      assert SortedFiles(last.files[l]) by {
        if edits != [] {
          assert Installs(versions[|edits| - 1], edits[|edits| - 1], versions[|edits|]);
        }
      }
      SortedListsAgree(v.files[l], last.files[l]);
    }
  }
}
