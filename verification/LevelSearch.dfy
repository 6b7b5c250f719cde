/** Searches over the file list of one level (FindFile, SomeFileOverlapsRange and
    GetOverlappingInputs of db/version_set.cc). */
module LevelSearch {
  import opened Basics
  import opened InternalKeys
  import opened Versions

  /** The first file whose largest key is at or after `key`. */
  method FindFile(files: seq<FileMetaData>, key: InternalKey) returns (right: nat)
    requires DisjointSorted(files) && ValidFiles(files)
    ensures right <= |files|
    ensures forall i :: 0 <= i < right ==> Less(files[i].largest, key)
    ensures forall i :: right <= i < |files| ==> !Less(files[i].largest, key)
  {
    var left := 0;
    right := |files|;
    while left < right
      invariant left <= right <= |files|
      invariant forall i :: 0 <= i < left ==> Less(files[i].largest, key)
      invariant forall i :: right <= i < |files| ==> !Less(files[i].largest, key)
    {
      var mid := (left + right) / 2;
      forall i | 0 <= i < |files| && i != mid
        ensures i < mid ==> Less(files[i].largest, files[mid].largest)
        ensures mid < i ==> Less(files[mid].largest, files[i].largest)
      {
        ValidFileBounds(files[mid]);
        ValidFileBounds(files[i]);
      }
      if Less(files[mid].largest, key) {
        left := mid + 1;
      } else {
        right := mid;
      }
    }
  }

  /** Whether some file of a level holds part of the user-key range. */
  method SomeFileOverlapsRange(disjointSorted: bool, files: seq<FileMetaData>, lo: Option<UserKey>, hi: Option<UserKey>)
    returns (overlap: bool)
    requires ValidFiles(files)
    requires disjointSorted ==> DisjointSorted(files)
    ensures overlap <==> exists f :: f in files && Overlaps(f, lo, hi)
  {
    if !disjointSorted {
      for i := 0 to |files|
        invariant forall j :: 0 <= j < i ==> !Overlaps(files[j], lo, hi)
      {
        if AfterFile(lo, files[i]) || BeforeFile(hi, files[i]) {
        } else {
          assert files[i] in files && Overlaps(files[i], lo, hi);
          return true;
        }
      }
      return false;
    }
    var index := 0;
    if lo.Some? {
      index := FindFile(files, EarliestFor(lo.value));
    }
    forall j | 0 <= j < |files| ensures files[j].smallest.user <= files[j].largest.user {
      ValidFileBounds(files[j]);
    }
    assert forall j :: 0 <= j < index ==> AfterFile(lo, files[j]);
    assert forall j :: index <= j < |files| ==> !AfterFile(lo, files[j]);
    if index >= |files| {
      return false;
    }
    overlap := !BeforeFile(hi, files[index]);
    if overlap {
      assert files[index] in files && Overlaps(files[index], lo, hi);
    } else {
      forall j | index < j < |files| ensures BeforeFile(hi, files[j]) {
        assert Less(files[index].largest, files[j].smallest);
      }
    }
  }

  // ---- GetOverlappingInputs ----

  predicate Within(f: FileMetaData, lo: Option<UserKey>, hi: Option<UserKey>) {
    && (lo.Some? ==> lo.value <= f.smallest.user)
    && (hi.Some? ==> f.largest.user <= hi.value)
  }

  /** No file of the level sticks out of the range it overlaps. */
  ghost predicate ClosedRange(files: seq<FileMetaData>, lo: Option<UserKey>, hi: Option<UserKey>) {
    forall f :: f in files && Overlaps(f, lo, hi) ==> Within(f, lo, hi)
  }

  /** Range (lo, hi) contains range (innerLo, innerHi). */
  predicate Contains(lo: Option<UserKey>, hi: Option<UserKey>, innerLo: Option<UserKey>, innerHi: Option<UserKey>) {
    && (lo.Some? ==> innerLo.Some? && lo.value <= innerLo.value)
    && (hi.Some? ==> innerHi.Some? && innerHi.value <= hi.value)
  }

  function CountBelow(files: seq<FileMetaData>, lo: Option<UserKey>): nat {
    if files == [] then 0
    else CountBelow(files[1..], lo) + if lo.Some? && files[0].smallest.user < lo.value then 1 else 0
  }

  function CountAbove(files: seq<FileMetaData>, hi: Option<UserKey>): nat {
    if files == [] then 0
    else CountAbove(files[1..], hi) + if hi.Some? && files[0].largest.user > hi.value then 1 else 0
  }

  lemma {:induction false} CountBelowDrops(files: seq<FileMetaData>, lo: UserKey, lower: UserKey)
    requires lower < lo
    ensures CountBelow(files, Some(lower)) <= CountBelow(files, Some(lo))
    ensures (exists f :: f in files && lower == f.smallest.user) ==>
      CountBelow(files, Some(lower)) < CountBelow(files, Some(lo))
  {
    if files != [] {
      CountBelowDrops(files[1..], lo, lower);
      assert files == [files[0]] + files[1..];
    }
  }

  lemma {:induction false} CountAboveDrops(files: seq<FileMetaData>, hi: UserKey, higher: UserKey)
    requires hi < higher
    ensures CountAbove(files, Some(higher)) <= CountAbove(files, Some(hi))
    ensures (exists f :: f in files && higher == f.largest.user) ==>
      CountAbove(files, Some(higher)) < CountAbove(files, Some(hi))
  {
    if files != [] {
      CountAboveDrops(files[1..], hi, higher);
      assert files == [files[0]] + files[1..];
    }
  }

  /** `lo`..`hi` lies inside every closed range that contains `begin`..`end`. */
  ghost predicate Least(files: seq<FileMetaData>, begin: Option<UserKey>, end: Option<UserKey>, lo: Option<UserKey>,
                        hi: Option<UserKey>) {
    forall l, h :: ClosedRange(files, l, h) && Contains(l, h, begin, end) ==> Contains(l, h, lo, hi)
  }

  function UserOf(key: Option<InternalKey>): Option<UserKey> {
    if key.Some? then Some(key.value.user) else None
  }

  /** The range of a search of a level: as given or, at level 0, the least one that no file sticks out of. */
  ghost predicate SearchedRange(files: seq<FileMetaData>, level: nat, begin: Option<UserKey>, end: Option<UserKey>,
                                lo: Option<UserKey>, hi: Option<UserKey>) {
    if level > 0 then lo == begin && hi == end
    else ClosedRange(files, lo, hi) && Contains(lo, hi, begin, end) && Least(files, begin, end, lo, hi)
  }

  ghost predicate OverlappingInputs(files: seq<FileMetaData>, level: nat, begin: Option<UserKey>,
                                    end: Option<UserKey>, inputs: seq<FileMetaData>) {
    exists lo, hi :: SearchedRange(files, level, begin, end, lo, hi) && inputs == Overlapping(files, lo, hi)
  }

  /** All files of a level that overlap the range. At level 0, where files overlap each other, the
      range grows until no chosen file sticks out of it, and the scan starts over at each growth. */
  method GetOverlappingInputs(files: seq<FileMetaData>, level: nat, begin: Option<InternalKey>,
                              end: Option<InternalKey>)
    returns (inputs: seq<FileMetaData>, ghost lo: Option<UserKey>, ghost hi: Option<UserKey>)
    requires ValidFiles(files)
    ensures inputs == Overlapping(files, lo, hi)
    ensures level > 0 ==> lo == UserOf(begin) && hi == UserOf(end)
    ensures level == 0 ==> ClosedRange(files, lo, hi) && Contains(lo, hi, UserOf(begin), UserOf(end))
    ensures level == 0 ==> Least(files, UserOf(begin), UserOf(end), lo, hi)
  {
    inputs := [];
    var userBegin, userEnd := UserOf(begin), UserOf(end);
    var i := 0;
    while i < |files|
      invariant i <= |files|
      invariant inputs == Overlapping(files[..i], userBegin, userEnd)
      invariant level > 0 ==> userBegin == UserOf(begin) && userEnd == UserOf(end)
      invariant level == 0 ==> ClosedRange(files[..i], userBegin, userEnd)
      invariant level == 0 ==> Contains(userBegin, userEnd, UserOf(begin), UserOf(end))
      invariant level == 0 ==> Least(files, UserOf(begin), UserOf(end), userBegin, userEnd)
      decreases CountBelow(files, userBegin) + CountAbove(files, userEnd), |files| - i
    {
      var f := files[i];
      assert files[..i + 1] == files[..i] + [f];
      assert files[..i + 1][..i] == files[..i];
      i := i + 1;
      if AfterFile(userBegin, f) {
      } else if BeforeFile(userEnd, f) {
      } else {
        inputs := inputs + [f];
        if level == 0 {
          ValidFileBounds(f);
          if userBegin.Some? && f.smallest.user < userBegin.value {
            LeastGrows(files, f, UserOf(begin), UserOf(end), userBegin, userEnd);
            CountBelowDrops(files, userBegin.value, f.smallest.user);
            userBegin := Some(f.smallest.user);
            inputs := [];
            i := 0;
          } else if userEnd.Some? && f.largest.user > userEnd.value {
            LeastGrows(files, f, UserOf(begin), UserOf(end), userBegin, userEnd);
            CountAboveDrops(files, userEnd.value, f.largest.user);
            userEnd := Some(f.largest.user);
            inputs := [];
            i := 0;
          }
        }
      }
    }
    assert files[..i] == files;
    lo, hi := userBegin, userEnd;
  }

  /** A file that overlaps the range found so far belongs to every closed range around the request. */
  lemma LeastGrows(files: seq<FileMetaData>, f: FileMetaData, begin: Option<UserKey>, end: Option<UserKey>,
                   lo: Option<UserKey>, hi: Option<UserKey>)
    requires f in files && ValidFile(f) && Overlaps(f, lo, hi)
    requires Least(files, begin, end, lo, hi)
    ensures lo.Some? && f.smallest.user < lo.value ==> Least(files, begin, end, Some(f.smallest.user), hi)
    ensures hi.Some? && f.largest.user > hi.value ==> Least(files, begin, end, lo, Some(f.largest.user))
  {
    forall l, h | ClosedRange(files, l, h) && Contains(l, h, begin, end)
      ensures Contains(l, h, lo, hi) && Within(f, l, h)
    {
      assert Contains(l, h, lo, hi);
      assert Overlaps(f, l, h);
    }
  }
}
