/** The user-level iterator (db/db_iter.cc) over the merged entries of the store is a cursor on the sorted
    map that reads at its snapshot give. */
module DBIters {
  import opened Basics
  import opened InternalKeys
  import opened Cursors
  import opened Merging

  // ---- the map seen at a snapshot ----

  predicate Visible(es: seq<Entry>, snapshot: SequenceNumber, i: int)
    requires 0 <= i < |es|
  {
    es[i].key.sequence <= snapshot
  }

  /** Entry `i` is the newest visible one of its user key and holds a value. */
  ghost predicate Yields(es: seq<Entry>, snapshot: SequenceNumber, i: int)
    requires 0 <= i < |es|
  {
    && Visible(es, snapshot, i) && es[i].key.kind.Put?
    && forall j :: 0 <= j < i && Visible(es, snapshot, j) ==> es[j].key.user != es[i].key.user
  }

  datatype Pair = Pair(user: UserKey, value: Value)

  /** The live pairs among the first `n` entries. */
  ghost function LiveUpTo(es: seq<Entry>, snapshot: SequenceNumber, n: nat): seq<Pair>
    requires n <= |es|
  {
    if n == 0 then
      []
    else
      var live := LiveUpTo(es, snapshot, n - 1);
      if Yields(es, snapshot, n - 1) then live + [Pair(es[n - 1].key.user, es[n - 1].value)] else live
  }

  ghost function View(es: seq<Entry>, snapshot: SequenceNumber): seq<Pair> {
    LiveUpTo(es, snapshot, |es|)
  }

  lemma OrderedUsers(es: seq<Entry>, i: nat, j: nat)
    requires SortedKeys(es) && i <= j < |es|
    ensures es[i].key.user <= es[j].key.user
    ensures i < j && es[i].key.user == es[j].key.user ==> es[j].key.sequence <= es[i].key.sequence && es[j] != es[i]
  {
    assert i < j ==> Less(es[i].key, es[j].key);
  }

  /** What yields is what a read of its user key returns. */
  lemma YieldsIsLookup(es: seq<Entry>, snapshot: SequenceNumber, i: nat)
    requires SortedKeys(es) && UniqueSequences(SetOf(es)) && i < |es| && Yields(es, snapshot, i)
    ensures Lookup(SetOf(es), es[i].key.user, snapshot) == Some(es[i].value)
  {
    var user := es[i].key.user;
    assert es[i] in es;
    forall o | o in SetOf(es) && VisibleTo(o, user, snapshot) ensures o.key.sequence <= es[i].key.sequence {
      var j :| 0 <= j < |es| && es[j] == o;
      if i <= j {
        OrderedUsers(es, i, j);
      }
    }
    LookupIsNewest(SetOf(es), user, snapshot, es[i]);
  }

  /** A user key a read finds is one that some entry yields. */
  lemma LookupYields(es: seq<Entry>, user: UserKey, snapshot: SequenceNumber) returns (i: nat)
    requires SortedKeys(es) && UniqueSequences(SetOf(es)) && Lookup(SetOf(es), user, snapshot).Some?
    ensures i < |es| && Yields(es, snapshot, i) && es[i].key.user == user
  {
    var newest :| Newest(SetOf(es), user, snapshot, newest);
    LookupIsNewest(SetOf(es), user, snapshot, newest);
    i :| 0 <= i < |es| && es[i] == newest;
    forall j | 0 <= j < i && Visible(es, snapshot, j) ensures es[j].key.user != user {
      assert es[j] in SetOf(es);
      OrderedUsers(es, j, i);
    }
  }

  ghost predicate SortedUsers(view: seq<Pair>) {
    forall i, j :: 0 <= i < j < |view| ==> view[i].user < view[j].user
  }

  lemma {:induction false} LiveUpToMembers(es: seq<Entry>, snapshot: SequenceNumber, n: nat)
    requires SortedKeys(es) && n <= |es|
    ensures SortedUsers(LiveUpTo(es, snapshot, n))
    ensures forall p :: p in LiveUpTo(es, snapshot, n) <==>
      exists i :: 0 <= i < n && Yields(es, snapshot, i) && p == Pair(es[i].key.user, es[i].value)
  {
    if n > 0 {
      LiveUpToMembers(es, snapshot, n - 1);
      var live, m := LiveUpTo(es, snapshot, n - 1), n - 1;
      if Yields(es, snapshot, m) {
        forall k | 0 <= k < |live| ensures live[k].user < es[m].key.user {
          assert live[k] in live;
          var i :| 0 <= i < m && Yields(es, snapshot, i) && live[k] == Pair(es[i].key.user, es[i].value);
          OrderedUsers(es, i, m);
        }
      }
    }
  }

  /** The view is the map of all reads at the snapshot, in key order. */
  lemma ViewIsReads(es: seq<Entry>, snapshot: SequenceNumber)
    requires SortedKeys(es) && UniqueSequences(SetOf(es))
    ensures SortedUsers(View(es, snapshot))
    ensures forall u, v :: Pair(u, v) in View(es, snapshot) <==> Lookup(SetOf(es), u, snapshot) == Some(v)
  {
    LiveUpToMembers(es, snapshot, |es|);
    forall u, v ensures Pair(u, v) in View(es, snapshot) <==> Lookup(SetOf(es), u, snapshot) == Some(v) {
      if Pair(u, v) in View(es, snapshot) {
        var i :| 0 <= i < |es| && Yields(es, snapshot, i) && Pair(u, v) == Pair(es[i].key.user, es[i].value);
        YieldsIsLookup(es, snapshot, i);
      }
      if Lookup(SetOf(es), u, snapshot) == Some(v) {
        var i := LookupYields(es, u, snapshot);
        YieldsIsLookup(es, snapshot, i);
      }
    }
  }

  // ---- positions in the entries and in the view ----

  ghost predicate NoneYields(es: seq<Entry>, snapshot: SequenceNumber, from: int, to: int) {
    0 <= from && to <= |es| && forall i :: from <= i < to ==> !Yields(es, snapshot, i)
  }

  ghost predicate NoneVisible(es: seq<Entry>, snapshot: SequenceNumber, from: int, to: int) {
    0 <= from && to <= |es| && forall i :: from <= i < to ==> !Visible(es, snapshot, i)
  }

  /** How many pairs of the view lie before entry `i`. */
  ghost function Index(es: seq<Entry>, snapshot: SequenceNumber, i: nat): nat
    requires i <= |es|
  {
    |LiveUpTo(es, snapshot, i)|
  }

  lemma {:induction false} IndexSkips(es: seq<Entry>, snapshot: SequenceNumber, from: nat, to: nat)
    requires from <= to <= |es| && NoneYields(es, snapshot, from, to)
    ensures LiveUpTo(es, snapshot, from) == LiveUpTo(es, snapshot, to)
  {
    if from < to {
      IndexSkips(es, snapshot, from, to - 1);
    }
  }

  lemma {:induction false} LiveGrows(es: seq<Entry>, snapshot: SequenceNumber, from: nat, to: nat)
    requires from <= to <= |es|
    ensures LiveUpTo(es, snapshot, from) <= LiveUpTo(es, snapshot, to)
  {
    if from < to {
      LiveGrows(es, snapshot, from, to - 1);
    }
  }

  /** A yielding entry is the pair of the view its index says. */
  lemma YieldsAtIndex(es: seq<Entry>, snapshot: SequenceNumber, i: nat)
    requires i < |es| && Yields(es, snapshot, i)
    ensures Index(es, snapshot, i) < |View(es, snapshot)|
    ensures View(es, snapshot)[Index(es, snapshot, i)] == Pair(es[i].key.user, es[i].value)
    ensures Index(es, snapshot, i + 1) == Index(es, snapshot, i) + 1
  {
    LiveGrows(es, snapshot, i + 1, |es|);
  }

  lemma {:induction false} EntryAtIndex(es: seq<Entry>, snapshot: SequenceNumber, n: nat, k: nat) returns (i: nat)
    requires n <= |es| && k < Index(es, snapshot, n)
    ensures i < n && Yields(es, snapshot, i) && Index(es, snapshot, i) == k
    ensures LiveUpTo(es, snapshot, n)[k] == Pair(es[i].key.user, es[i].value)
  {
    if k < Index(es, snapshot, n - 1) {
      i := EntryAtIndex(es, snapshot, n - 1, k);
    } else {
      i := n - 1;
    }
  }

  ghost predicate ViewSplits(view: seq<Pair>, p: nat, target: UserKey) {
    && p <= |view|
    && (forall j :: 0 <= j < p ==> view[j].user < target)
    && (forall j :: p <= j < |view| ==> target <= view[j].user)
  }

  /** The internal seek position for a user key splits the view at that user key. */
  lemma SeekSplitsView(es: seq<Entry>, snapshot: SequenceNumber, target: UserKey, p: nat)
    requires SortedKeys(es) && Splits(es, p, SeekKey(target, snapshot))
    ensures ViewSplits(View(es, snapshot), Index(es, snapshot, p), target)
  {
    var view, at := View(es, snapshot), Index(es, snapshot, p);
    LiveGrows(es, snapshot, p, |es|);
    forall k | 0 <= k < |view| ensures k < at <==> view[k].user < target {
      var i := EntryAtIndex(es, snapshot, |es|, k);
      assert Less(es[i].key, SeekKey(target, snapshot)) <==> i < p;
      if i < p {
        YieldsAtIndex(es, snapshot, i);
        LiveGrows(es, snapshot, i + 1, p);
      } else {
        LiveGrows(es, snapshot, p, i);
      }
    }
  }

  // ---- one scan forward, one scan backward ----

  /** A forward scan that starts at entry `from`, perhaps told to pass over user keys up to `skip`, sees every
      entry of the user keys it may still yield. */
  ghost predicate CleanStart(es: seq<Entry>, snapshot: SequenceNumber, from: int, skip: Option<UserKey>) {
    && 0 <= from <= |es|
    && (forall j, k :: 0 <= j < from <= k < |es| && Visible(es, snapshot, j) && Visible(es, snapshot, k)
          ==> es[j].key.user < es[k].key.user || skip == Some(es[k].key.user))
    && (skip.Some? ==> forall k :: from <= k < |es| && Visible(es, snapshot, k) ==> skip.value <= es[k].key.user)
  }

  /** The entry a forward scan stops at. */
  ghost predicate FirstYield(es: seq<Entry>, snapshot: SequenceNumber, from: int, skip: Option<UserKey>, here: int) {
    && 0 <= from <= here <= |es|
    && (here < |es| ==> Yields(es, snapshot, here) && skip != Some(es[here].key.user))
    && (forall i :: from <= i < here && Yields(es, snapshot, i) ==> skip == Some(es[i].key.user))
  }

  /** What a forward scan knows at entry `at`: every visible entry it passed is hidden by `skipped`, the user
      key it started with or that of the deletion `hider`. */
  ghost predicate Scanned(es: seq<Entry>, snapshot: SequenceNumber, from: int, skip: Option<UserKey>, at: int,
                          skipped: Option<UserKey>, hider: Option<nat>) {
    && 0 <= from <= at <= |es|
    && (forall j :: from <= j < at && Visible(es, snapshot, j) ==> skipped.Some? && es[j].key.user <= skipped.value)
    && (skipped.Some? ==> forall k :: at <= k < |es| && Visible(es, snapshot, k) ==> skipped.value <= es[k].key.user)
    && (hider.None? ==> skipped == skip)
    && (hider.Some? ==> skipped.Some? && HidesAt(es, snapshot, from, at, skipped.value, hider.value))
    && (skip.Some? ==> skipped.Some? && skip.value <= skipped.value)
    && (forall i :: from <= i < at && Yields(es, snapshot, i) ==> skip == Some(es[i].key.user))
  }

  ghost predicate HidesAt(es: seq<Entry>, snapshot: SequenceNumber, from: int, at: int, user: UserKey, d: int) {
    0 <= from <= d < at <= |es| && Visible(es, snapshot, d) && es[d].key.user == user && es[d].key.kind.Deletion?
  }

  predicate Accepts(e: Entry, snapshot: SequenceNumber, skipped: Option<UserKey>) {
    e.key.sequence <= snapshot && e.key.kind.Put? && !(skipped.Some? && e.key.user <= skipped.value)
  }

  function SkipAfter(e: Entry, snapshot: SequenceNumber, skipped: Option<UserKey>): Option<UserKey> {
    if e.key.sequence <= snapshot && e.key.kind.Deletion? then Some(e.key.user) else skipped
  }

  /** Where a forward scan stops. */
  ghost function Scan(es: seq<Entry>, snapshot: SequenceNumber, at: nat, skipped: Option<UserKey>): (here: nat)
    requires at <= |es|
    ensures at <= here <= |es|
    decreases |es| - at
  {
    if at == |es| || Accepts(es[at], snapshot, skipped) then at
    else Scan(es, snapshot, at + 1, SkipAfter(es[at], snapshot, skipped))
  }

  /** An entry the scan does not accept leaves the scan's knowledge intact. */
  lemma ScanStep(es: seq<Entry>, snapshot: SequenceNumber, from: nat, skip: Option<UserKey>, at: nat,
                 skipped: Option<UserKey>, hider: Option<nat>)
    requires SortedKeys(es) && at < |es| && Scanned(es, snapshot, from, skip, at, skipped, hider)
    requires !Accepts(es[at], snapshot, skipped)
    ensures
      Scanned(es, snapshot, from, skip, at + 1, SkipAfter(es[at], snapshot, skipped),
        if Visible(es, snapshot, at) && es[at].key.kind.Deletion? then Some(at) else hider)
  {
    forall k | at <= k < |es| ensures es[at].key.user <= es[k].key.user {
      OrderedUsers(es, at, k);
    }
  }

  /** An entry the scan accepts is the one it looks for. */
  lemma ScanStops(es: seq<Entry>, snapshot: SequenceNumber, from: nat, skip: Option<UserKey>, at: nat,
                  skipped: Option<UserKey>, hider: Option<nat>)
    requires SortedKeys(es) && at < |es| && CleanStart(es, snapshot, from, skip)
    requires Scanned(es, snapshot, from, skip, at, skipped, hider)
    requires Accepts(es[at], snapshot, skipped)
    ensures FirstYield(es, snapshot, from, skip, at)
  {
    forall j | 0 <= j < at && Visible(es, snapshot, j) ensures es[j].key.user != es[at].key.user {
    }
  }

  lemma {:induction false} ScanFinds(es: seq<Entry>, snapshot: SequenceNumber, from: nat, skip: Option<UserKey>,
                                     at: nat, skipped: Option<UserKey>, hider: Option<nat>)
    requires SortedKeys(es) && CleanStart(es, snapshot, from, skip)
    requires Scanned(es, snapshot, from, skip, at, skipped, hider)
    ensures FirstYield(es, snapshot, from, skip, Scan(es, snapshot, at, skipped))
    decreases |es| - at
  {
    if at == |es| {
    } else if Accepts(es[at], snapshot, skipped) {
      ScanStops(es, snapshot, from, skip, at, skipped, hider);
    } else {
      ScanStep(es, snapshot, from, skip, at, skipped, hider);
      ScanFinds(es, snapshot, from, skip, at + 1, SkipAfter(es[at], snapshot, skipped),
        if Visible(es, snapshot, at) && es[at].key.kind.Deletion? then Some(at) else hider);
    }
  }

  /** What a backward scan knows with `at` entries left: the entry that would yield if nothing older were
      visible, or that nothing from `at` on yields. */
  ghost predicate ScannedBack(es: seq<Entry>, snapshot: SequenceNumber, before: int, at: int, candidate: Option<nat>) {
    && 0 <= at <= before <= |es|
    && match candidate
       case None => NoneYields(es, snapshot, at, before)
       case Some(h) =>
         && at <= h < before && Visible(es, snapshot, h) && es[h].key.kind.Put?
         && NoneVisible(es, snapshot, at, h) && NoneYields(es, snapshot, h + 1, before)
  }

  /** The previous entry belongs to a user key before that of the candidate: the candidate is found. */
  predicate EndsBack(es: seq<Entry>, snapshot: SequenceNumber, at: nat, candidate: Option<nat>)
    requires 0 < at <= |es| && (candidate.Some? ==> candidate.value < |es|)
  {
    candidate.Some? && Visible(es, snapshot, at - 1) && es[at - 1].key.user < es[candidate.value].key.user
  }

  function CandidateAfter(es: seq<Entry>, snapshot: SequenceNumber, at: nat, candidate: Option<nat>): Option<nat>
    requires 0 < at <= |es|
  {
    if !Visible(es, snapshot, at - 1) then candidate else if es[at - 1].key.kind.Put? then Some(at - 1) else None
  }

  datatype Back = Back(left: nat, candidate: Option<nat>)

  /** Where a backward scan stops, and what it found. */
  ghost function ScanBack(es: seq<Entry>, snapshot: SequenceNumber, at: nat, candidate: Option<nat>): (back: Back)
    requires at <= |es| && (candidate.Some? ==> candidate.value < |es|)
    ensures back.left <= at && (back.candidate.Some? ==> back.candidate.value < |es|)
  {
    if at == 0 || EndsBack(es, snapshot, at, candidate) then Back(at, candidate)
    else ScanBack(es, snapshot, at - 1, CandidateAfter(es, snapshot, at, candidate))
  }

  lemma ScanBackStep(es: seq<Entry>, snapshot: SequenceNumber, before: nat, at: nat, candidate: Option<nat>)
    requires SortedKeys(es) && 0 < at && ScannedBack(es, snapshot, before, at, candidate)
    requires !EndsBack(es, snapshot, at, candidate)
    ensures ScannedBack(es, snapshot, before, at - 1, CandidateAfter(es, snapshot, at, candidate))
  {
    if candidate.Some? {
      OrderedUsers(es, at - 1, candidate.value);
    }
  }

  /** The last yielding entry before `before`. */
  ghost predicate LastYield(es: seq<Entry>, snapshot: SequenceNumber, before: int, here: int) {
    0 <= here < before <= |es| && Yields(es, snapshot, here) && NoneYields(es, snapshot, here + 1, before)
  }

  lemma ScanBackStops(es: seq<Entry>, snapshot: SequenceNumber, before: nat, at: nat, h: nat)
    requires SortedKeys(es) && ScannedBack(es, snapshot, before, at, Some(h))
    requires at > 0 ==> es[at - 1].key.user < es[h].key.user
    ensures LastYield(es, snapshot, before, h)
  {
    forall j | 0 <= j < h && Visible(es, snapshot, j) ensures es[j].key.user != es[h].key.user {
      if j < at {
        OrderedUsers(es, j, at - 1);
      }
    }
  }

  lemma {:induction false} ScanBackFinds(es: seq<Entry>, snapshot: SequenceNumber, before: nat, at: nat,
                                         candidate: Option<nat>)
    requires SortedKeys(es) && ScannedBack(es, snapshot, before, at, candidate)
    ensures var back := ScanBack(es, snapshot, at, candidate);
      match back.candidate
      case None => NoneYields(es, snapshot, 0, before)
      case Some(h) => LastYield(es, snapshot, before, h) && back.left <= h && NoneVisible(es, snapshot, back.left, h)
  {
    if at == 0 || EndsBack(es, snapshot, at, candidate) {
      if candidate.Some? {
        ScanBackStops(es, snapshot, before, at, candidate.value);
      }
    } else {
      ScanBackStep(es, snapshot, before, at, candidate);
      ScanBackFinds(es, snapshot, before, at - 1, CandidateAfter(es, snapshot, at, candidate));
    }
  }

  /** Scans find the neighbouring pair of the view. */
  lemma FirstYieldIsIndex(es: seq<Entry>, snapshot: SequenceNumber, from: nat, here: nat)
    requires FirstYield(es, snapshot, from, None, here)
    ensures Index(es, snapshot, here) == Index(es, snapshot, from)
  {
    IndexSkips(es, snapshot, from, here);
  }

  lemma NextYieldIsIndex(es: seq<Entry>, snapshot: SequenceNumber, start: nat, from: nat, here: nat)
    requires SortedKeys(es) && start < |es| && from <= start && Yields(es, snapshot, start)
    requires NoneVisible(es, snapshot, from, start)
    requires FirstYield(es, snapshot, from, Some(es[start].key.user), here)
    ensures Index(es, snapshot, here) == Index(es, snapshot, start) + 1
  {
    assert start < here;
    forall i | start < i < here ensures !Yields(es, snapshot, i) {
    }
    YieldsAtIndex(es, snapshot, start);
    IndexSkips(es, snapshot, start + 1, here);
  }

  lemma LastYieldIsIndex(es: seq<Entry>, snapshot: SequenceNumber, before: nat, here: nat)
    requires LastYield(es, snapshot, before, here)
    ensures Index(es, snapshot, before) == Index(es, snapshot, here) + 1
  {
    YieldsAtIndex(es, snapshot, here);
    IndexSkips(es, snapshot, here + 1, before);
  }

  lemma BackIsIndex(es: seq<Entry>, snapshot: SequenceNumber, before: nat, found: Option<nat>)
    requires before <= |es|
    requires if found.Some? then LastYield(es, snapshot, before, found.value) else NoneYields(es, snapshot, 0, before)
    ensures Index(es, snapshot, before) == if found.Some? then Index(es, snapshot, found.value) + 1 else 0
  {
    if found.Some? {
      LastYieldIsIndex(es, snapshot, before, found.value);
    } else {
      IndexSkips(es, snapshot, 0, before);
    }
  }

  // ---- the iterator ----

  class DBIter {
    const iter: MergingIterator
    const snapshot: SequenceNumber
    var savedKey: Option<UserKey>
    var savedValue: Value
    var direction: Direction
    var valid: bool
    /** The entry this iterator stands at. */
    ghost var here: nat

    ghost function Es(): seq<Entry> {
      iter.merged
    }

    /** How many entries lie before the inner iterator or at it, when it moves backward. */
    ghost function Left(): nat
      reads iter
    {
      if iter.at < |Es()| then iter.at + 1 else 0
    }

    ghost predicate Valid()
      reads this, iter
    {
      && iter.Valid()
      && here <= |Es()|
      && (!valid ==> here == |Es()|)
      && (valid ==> here < |Es()| && Yields(Es(), snapshot, here))
      && (valid && direction == Forward ==> iter.at == here)
      && (valid && direction == Reverse ==> Left() <= here && NoneVisible(Es(), snapshot, Left(), here))
      && (valid && direction == Reverse ==> savedKey == Some(Es()[here].key.user) && savedValue == Es()[here].value)
    }

    /** The position of this iterator in the view. */
    ghost function At(): nat
      requires Valid()
      reads this, iter
    {
      Index(Es(), snapshot, here)
    }

    ghost function Map(): seq<Pair> {
      View(Es(), snapshot)
    }

    constructor (iter: MergingIterator, snapshot: SequenceNumber)
      requires iter.Valid()
      ensures Valid() && this.iter == iter && this.snapshot == snapshot && !valid
    {
      this.iter, this.snapshot := iter, snapshot;
      savedKey, savedValue, direction, valid := None, "", Forward, false;
      here := |iter.merged|;
    }

    function Key(): (key: UserKey)
      requires Valid() && valid
      reads this, iter
      ensures At() < |Map()| && key == Map()[At()].user
    {
      YieldsAtIndex(Es(), snapshot, here);
      if direction == Forward then iter.Current().key.user else savedKey.value
    }

    function Value(): (value: Value)
      requires Valid() && valid
      reads this, iter
      ensures At() < |Map()| && value == Map()[At()].value
    {
      YieldsAtIndex(Es(), snapshot, here);
      if direction == Forward then iter.Current().value else savedValue
    }

    method FindNextUserEntry(skipping: bool)
      requires iter.Valid() && iter.HasCurrent() && direction == Forward && (skipping ==> savedKey.Some?)
      modifies this`savedKey, this`valid, this`here, iter
      ensures iter.Valid() && here == iter.at
      ensures here == Scan(Es(), snapshot, old(iter.at), if skipping then old(savedKey) else None)
      ensures valid <==> here < |Es()|
    {
      ghost var goal := Scan(Es(), snapshot, iter.at, if skipping then savedKey else None);
      var skip := skipping;
      while iter.HasCurrent()
        invariant iter.Valid() && (skip ==> savedKey.Some?)
        invariant Scan(Es(), snapshot, iter.at, if skip then savedKey else None) == goal
        decreases |Es()| - iter.at
      {
        var e := iter.Current();
        if e.key.sequence <= snapshot {
          match e.key.kind
          case Deletion =>
            // What follows for this user key is hidden by the deletion.
            savedKey := Some(e.key.user);
            skip := true;
          case Put =>
            if skip && e.key.user <= savedKey.value {
              // Hidden.
            } else {
              valid := true;
              savedKey := None;
              here := iter.at;
              return;
            }
        }
        iter.Next();
      }
      savedKey := None;
      valid := false;
      here := iter.at;
    }

    method FindPrevUserEntry()
      requires iter.Valid() && direction == Reverse
      modifies this`savedKey, this`savedValue, this`valid, this`direction, this`here, iter
      ensures var back := ScanBack(Es(), snapshot, old(Left()), None);
        && iter.Valid() && Left() == back.left
        && (back.candidate.None? ==> !valid && here == |Es()|)
        && (back.candidate.Some? ==>
              valid && direction == Reverse && here == back.candidate.value
              && savedKey == Some(Es()[here].key.user) && savedValue == Es()[here].value)
    {
      ghost var back := ScanBack(Es(), snapshot, Left(), None);
      ghost var candidate: Option<nat> := None;
      var valueType := Deletion;
      while iter.HasCurrent()
        invariant iter.Valid() && direction == Reverse
        invariant candidate.None? <==> valueType.Deletion?
        invariant candidate.Some? ==>
          candidate.value < |Es()| && savedKey == Some(Es()[candidate.value].key.user) &&
            savedValue == Es()[candidate.value].value
        invariant ScanBack(Es(), snapshot, Left(), candidate) == back
        decreases Left()
      {
        var e := iter.Current();
        if e.key.sequence <= snapshot {
          if valueType.Put? && e.key.user < savedKey.value {
            break;
          }
          valueType := e.key.kind;
          candidate := CandidateAfter(Es(), snapshot, Left(), candidate);
          if valueType.Deletion? {
            savedKey, savedValue := None, "";
          } else {
            savedKey, savedValue := Some(e.key.user), e.value;
          }
        }
        iter.Prev();
      }
      if valueType.Deletion? {
        valid, savedKey, savedValue, direction := false, None, "", Forward;
        here := |Es()|;
      } else {
        valid := true;
        here := candidate.value;
      }
    }

    /** The live pair after the current one. */
    method Next()
      requires Valid() && valid
      modifies this, iter
      ensures Valid() && At() == old(At()) + 1 && (valid <==> At() < |Map()|)
    {
      ghost var es, start := Es(), here;
      ghost var from := if direction == Reverse then Left() else here;
      if direction == Reverse {
        // The entry after those before the current key: the current key is still ahead, so there is one.
        direction := Forward;
        if !iter.HasCurrent() {
          iter.SeekToFirst();
        } else {
          iter.Next();
        }
        assert iter.HasCurrent();
      } else {
        savedKey := Some(iter.Current().key.user);
      }
      NextOnView(es, snapshot, from, start);
      FindNextUserEntry(true);
    }

    /** The live pair before the current one. */
    method Prev()
      requires Valid() && valid
      modifies this, iter
      ensures Valid() && (valid <==> old(At()) > 0)
      ensures At() == if valid then old(At()) - 1 else |Map()|
    {
      ghost var es, start := Es(), here;
      if direction == Forward {
        savedKey := Some(iter.Current().key.user);
        while true
          invariant iter.Valid() && iter.at <= start
          invariant forall j :: iter.at <= j <= start ==> es[j].key.user == es[start].key.user
          invariant direction == Forward && savedKey == Some(es[start].key.user)
          decreases iter.at
        {
          iter.Prev();
          if !iter.HasCurrent() {
            valid, savedKey, savedValue, here := false, None, "", |es|;
            IndexSkips(es, snapshot, 0, start);
            return;
          }
          if iter.Current().key.user < savedKey.value {
            break;
          }
          OrderedUsers(es, iter.at, start);
        }
        direction := Reverse;
      }
      ghost var before := Left();
      assert before <= start && NoneVisible(es, snapshot, before, start);
      ScanBackFinds(es, snapshot, before, before, None);
      FindPrevUserEntry();
      IndexSkips(es, snapshot, before, start);
      BackIsIndex(es, snapshot, before, if valid then Some(here) else None);
    }

    /** The first live pair at or after the user key. */
    method Seek(target: UserKey)
      requires Valid()
      modifies this, iter
      ensures Valid() && ViewSplits(Map(), At(), target) && (valid <==> At() < |Map()|)
    {
      direction, savedValue, savedKey := Forward, "", None;
      iter.Seek(SeekKey(target, snapshot));
      SeekSplits(Es(), SeekKey(target, snapshot));
      SeekSplitsView(Es(), snapshot, target, iter.at);
      CleanSeek(Es(), snapshot, target, iter.at);
      ForwardFrom();
    }

    method SeekToFirst()
      requires Valid()
      modifies this, iter
      ensures Valid() && At() == 0 && (valid <==> At() < |Map()|)
    {
      direction, savedValue := Forward, "";
      iter.SeekToFirst();
      ForwardFrom();
    }

    /** The common end of Seek and SeekToFirst. */
    method ForwardFrom()
      requires iter.Valid() && direction == Forward
      requires CleanStart(Es(), snapshot, iter.at, None)
      modifies this, iter
      ensures Valid() && At() == Index(Es(), snapshot, old(iter.at)) && (valid <==> At() < |Map()|)
    {
      ghost var from := iter.at;
      ScanFinds(Es(), snapshot, from, None, from, None, None);
      if iter.HasCurrent() {
        FindNextUserEntry(false);
      } else {
        valid := false;
        here := iter.at;
      }
      FirstYieldIsIndex(Es(), snapshot, from, here);
      IndexInView(Es(), snapshot, here);
    }

    method SeekToLast()
      requires Valid()
      modifies this, iter
      ensures Valid() && (valid <==> Map() != [])
      ensures At() == if valid then |Map()| - 1 else |Map()|
    {
      ghost var es := Es();
      direction, savedValue := Reverse, "";
      iter.SeekToLast();
      assert Left() == |es|;
      ScanBackFinds(es, snapshot, |es|, |es|, None);
      FindPrevUserEntry();
      BackIsIndex(es, snapshot, |es|, if valid then Some(here) else None);
    }
  }

  lemma CleanSeek(es: seq<Entry>, snapshot: SequenceNumber, target: UserKey, p: nat)
    requires SortedKeys(es) && Splits(es, p, SeekKey(target, snapshot))
    ensures CleanStart(es, snapshot, p, None)
  {
    forall j, k | 0 <= j < p <= k < |es| && Visible(es, snapshot, j) && Visible(es, snapshot, k)
      ensures es[j].key.user < es[k].key.user
    {
      assert Less(es[j].key, SeekKey(target, snapshot)) && !Less(es[k].key, SeekKey(target, snapshot));
    }
  }

  lemma CleanAfter(es: seq<Entry>, snapshot: SequenceNumber, from: nat, start: nat)
    requires SortedKeys(es) && from <= start < |es| && Yields(es, snapshot, start)
    requires NoneVisible(es, snapshot, from, start)
    ensures CleanStart(es, snapshot, from, Some(es[start].key.user))
  {
    forall j, k | 0 <= j < from <= k < |es| && Visible(es, snapshot, j) && Visible(es, snapshot, k)
      ensures es[j].key.user < es[k].key.user || es[k].key.user == es[start].key.user
    {
      OrderedUsers(es, j, start);
      OrderedUsers(es, start, k);
    }
    forall k | from <= k < |es| && Visible(es, snapshot, k) ensures es[start].key.user <= es[k].key.user {
      OrderedUsers(es, start, k);
    }
  }

  /** Scanning on from the entries of a yielding entry's user key leads to the next pair of the view. */
  lemma NextOnView(es: seq<Entry>, snapshot: SequenceNumber, from: nat, start: nat)
    requires SortedKeys(es) && from <= start < |es| && Yields(es, snapshot, start)
    requires NoneVisible(es, snapshot, from, start)
    ensures var next := Scan(es, snapshot, from, Some(es[start].key.user));
      && (next < |es| ==> Yields(es, snapshot, next))
      && (next < |es| <==> Index(es, snapshot, next) < |View(es, snapshot)|)
      && Index(es, snapshot, next) == Index(es, snapshot, start) + 1
  {
    var user := Some(es[start].key.user);
    var next := Scan(es, snapshot, from, user);
    CleanAfter(es, snapshot, from, start);
    ScanFinds(es, snapshot, from, user, from, user, None);
    NextYieldIsIndex(es, snapshot, start, from, next);
    IndexInView(es, snapshot, next);
  }

  /** The view ends where no later entry yields. */
  lemma IndexInView(es: seq<Entry>, snapshot: SequenceNumber, here: nat)
    requires here <= |es| && (here < |es| ==> Yields(es, snapshot, here))
    ensures here < |es| <==> Index(es, snapshot, here) < |View(es, snapshot)|
  {
    if here < |es| {
      YieldsAtIndex(es, snapshot, here);
    }
  }
}
