/** Looking one key up in a table (table/table.cc): the index leads to the only block that can hold the key's user,
    and the block's filter can spare reading it. */
module TableGet {
  import opened Basics
  import opened Coding
  import opened Checksums
  import opened Flattening
  import opened Bloom
  import opened FilterBlock
  import opened BlockFormat
  import opened BlockReader
  import opened BlockIterators
  import opened Separators
  import opened TableFormat
  import opened Tables

  // ---- no user between a block and its index key ----

  ghost predicate EndsWith(es: seq<Pair>, key: Key) {
    es != [] && es[|es| - 1].key == key
  }

  ghost predicate UsersBehind(parts: seq<seq<Pair>>, b: nat, key: Key) {
    forall c, i :: b < c < |parts| && 0 <= i < |parts[c]| ==> BytesLess(UserOf(key), UserOf(parts[c][i].key))
  }

  lemma UserBehind(parts: seq<seq<Pair>>, b: nat, key: Key, c: nat, i: nat)
    requires UsersBehind(parts, b, key) && b < c < |parts| && i < |parts[c]|
    ensures BytesLess(UserOf(key), UserOf(parts[c][i].key))
  {
  }

  /** An index key is the last key of its block, or its user is before all users behind the block. */
  ghost predicate UsersApart(index: seq<Pair>, parts: seq<seq<Pair>>) {
    && |index| == |parts|
    && forall b :: 0 <= b < |parts| ==> EndsWith(parts[b], index[b].key) || UsersBehind(parts, b, index[b].key)
  }

  lemma NotTheLast(es: seq<Pair>, key: Key, k: Key)
    requires IsSeekPos(InternalLess, es, k, |es|) && !InternalLess(key, k)
    ensures !EndsWith(es, key)
  {
  }

  lemma OtherUser(index: Key, k: Key, behind: Key)
    requires |index| >= 8 && |k| >= 8 && !InternalLess(index, k) && BytesLess(UserOf(index), UserOf(behind))
    ensures UserOf(behind) != UserOf(k)
  {
  }

  /** When the block has nothing at or after the key, what comes next in the table is of another user. */
  lemma NextIsOther(parts: seq<seq<Pair>>, index: Key, k: Key, b: nat, next: Pair)
    requires |k| >= 8 && |index| >= 8 && !InternalLess(index, k)
    requires b < |parts| && UsersBehind(parts, b, index)
    requires StartOf(parts, b) + |parts[b]| < |Flatten(parts)|
    requires next == Flatten(parts)[StartOf(parts, b) + |parts[b]|]
    ensures UserOf(next.key) != UserOf(k)
  {
    var c, i := LocateBehind(parts, b);
    UserBehind(parts, b, index, c, i);
    OtherUser(index, k, next.key);
  }

  // ---- filters on user keys ----

  /** InternalFilterPolicy: only the user's part of a key is hashed. */
  ghost predicate HashesUsers(hash: KeyHash) {
    forall a, b :: UserOf(a) == UserOf(b) ==> hash(a) == hash(b)
  }

  lemma SameAnswer(hash: KeyHash, data: seq<Byte>, offset: nat, a: Key, b: Key)
    requires hash(a) == hash(b)
    ensures MayMatch(hash, data, offset, a) <==> MayMatch(hash, data, offset, b)
  {
    forall filter: seq<Byte> ensures Matches(hash, a, filter) <==> Matches(hash, b, filter) {
      SameMatch(hash, filter, a, b);
    }
  }

  lemma SameMatch(hash: KeyHash, filter: seq<Byte>, a: Key, b: Key)
    requires hash(a) == hash(b)
    ensures Matches(hash, a, filter) <==> Matches(hash, b, filter)
  {
    if |filter| >= 2 {
      var bits := 8 * (|filter| - 1);
      assert forall j: nat :: BitPos(hash, a, j, bits) == BitPos(hash, b, j, bits);
    }
  }

  ghost predicate Admits(hash: KeyHash, data: seq<Byte>, handle: seq<Byte>, es: seq<Pair>) {
    match ParseHandle(handle)
    case Malformed => true
    case Parsed(h, _) => forall i :: 0 <= i < |es| ==> MayMatch(hash, data, h.0, es[i].key)
  }

  /** The filters deny no key of any block at the block's offset. */
  ghost predicate AdmitsAll(hash: KeyHash, data: seq<Byte>, t: Table) {
    |t.index.entries| == |t.blocks| &&
    forall b :: 0 <= b < |t.blocks| ==> Admits(hash, data, t.index.entries[b].value, t.blocks[b].entries)
  }

  // ---- the lookup ----

  lemma {:induction false} SeekPosExists(less: Order, es: seq<Pair>, target: Key) returns (i: nat)
    requires StrictOrder(less) && Ascending(less, es)
    ensures IsSeekPos(less, es, target, i)
    decreases |es|
  {
    if es == [] || less(es[|es| - 1].key, target) {
      i := |es|;
      if i > 0 {
        SeekPosIs(less, es, target, i);
      }
    } else {
      i := SeekPosExists(less, es[..|es| - 1], target);
    }
  }

  /** What the lookup of a key may answer: nothing but the first entry at or after it, and that one for certain if
      it is of the key's user. */
  ghost predicate Answered(es: seq<Pair>, k: Key, r: Option<Pair>) {
    exists g :: IsSeekPos(InternalLess, es, k, g) && AnsweredAt(es, k, g, r)
  }

  ghost predicate AnsweredAt(es: seq<Pair>, k: Key, g: nat, r: Option<Pair>) {
    if g < |es| && UserOf(es[g].key) == UserOf(k) then r == Some(es[g])
    else r == None || (g < |es| && r == Some(es[g]))
  }

  ghost predicate WellIndexed(t: Table) {
    && Separated(InternalLess, t.index.entries, Parts(t)) && UsersApart(t.index.entries, Parts(t))
    && forall b :: 0 <= b < |t.index.entries| ==> |t.index.entries[b].key| >= 8
  }

  /** The index separates the blocks, as keys and as users; only looked into for opened tables. */
  ghost predicate Searchable(t: Table) {
    |t.index.entries| == |t.blocks| && forall x: Table {:trigger Opened(x)} :: Opened(x) && x == t ==> WellIndexed(x)
  }

  lemma SeekLands(t: Table, k: Key, b: nat, i: nat)
    requires Searchable(t) && IsSeekPos(InternalLess, t.index.entries, k, b)
    requires SeekIn(InternalLess, Parts(t), k, b, i)
    ensures IsSeekPos(InternalLess, Entries(t), k, StartOf(Parts(t), b) + i)
  {
    assert Opened(t) && WellIndexed(t);
    InternalOrder();
    TwoLevelSeek(InternalLess, t.index.entries, Parts(t), k, b, i);
  }

  lemma BlockEnds(t: Table, k: Key, b: nat)
    requires Searchable(t) && b < |t.blocks| && !InternalLess(t.index.entries[b].key, k)
    requires IsSeekPos(InternalLess, t.blocks[b].entries, k, |t.blocks[b].entries|)
    ensures |t.index.entries[b].key| >= 8 && UsersBehind(Parts(t), b, t.index.entries[b].key)
  {
    assert Opened(t) && WellIndexed(t);
    NotTheLast(t.blocks[b].entries, t.index.entries[b].key, k);
  }

  lemma BlocksAscend(t: Table, b: nat)
    requires Searchable(t)
    ensures Ascending(InternalLess, t.index.entries)
    ensures b < |t.blocks| ==> Ascending(InternalLess, t.blocks[b].entries)
  {
    assert Opened(t) && WellIndexed(t);
    assert b < |t.blocks| ==> Parts(t)[b] == t.blocks[b].entries;
  }

  /** Where the lookup lands in the table when it lands at the i-th entry of block b, or past its last one. */
  lemma Lands(t: Table, k: Key, b: nat, i: nat) returns (g: nat)
    requires |k| >= 8 && Searchable(t) && IsSeekPos(InternalLess, t.index.entries, k, b)
    requires b < |t.blocks| && IsSeekPos(InternalLess, t.blocks[b].entries, k, i)
    ensures IsSeekPos(InternalLess, Entries(t), k, g)
    ensures i < |t.blocks[b].entries| ==> g < |Entries(t)| && Entries(t)[g] == t.blocks[b].entries[i]
    ensures i == |t.blocks[b].entries| && g < |Entries(t)| ==> UserOf(Entries(t)[g].key) != UserOf(k)
  {
    g := StartOf(Parts(t), b) + i;
    SeekLands(t, k, b, i);
    if i < |t.blocks[b].entries| {
      ElementAt(Parts(t), b, i);
    } else if g < |Entries(t)| {
      BlockEnds(t, k, b);
      NextIsOther(Parts(t), t.index.entries[b].key, k, b, Entries(t)[g]);
    }
  }

  lemma FoundInBlock(t: Table, k: Key, b: nat, i: nat)
    requires |k| >= 8 && Searchable(t) && IsSeekPos(InternalLess, t.index.entries, k, b)
    requires b < |t.blocks| && IsSeekPos(InternalLess, t.blocks[b].entries, k, i)
    ensures Answered(Entries(t), k, if i < |t.blocks[b].entries| then Some(t.blocks[b].entries[i]) else None)
    ensures NoneOf(t.blocks[b].entries, UserOf(k)) ==> Answered(Entries(t), k, None)
  {
    var g := Lands(t, k, b, i);
    AnswerStands(Entries(t), k, g, t.blocks[b].entries, i);
  }

  ghost predicate NoneOf(es: seq<Pair>, user: Key) {
    forall j :: 0 <= j < |es| ==> UserOf(es[j].key) != user
  }

  lemma AnswerStands(all: seq<Pair>, k: Key, g: nat, es: seq<Pair>, i: nat)
    requires IsSeekPos(InternalLess, all, k, g) && i <= |es|
    requires if i < |es| then g < |all| && all[g] == es[i] else g < |all| ==> UserOf(all[g].key) != UserOf(k)
    ensures Answered(all, k, if i < |es| then Some(es[i]) else None)
    ensures NoneOf(es, UserOf(k)) ==> Answered(all, k, None)
  {
    assert AnsweredAt(all, k, g, if i < |es| then Some(es[i]) else None);
    if NoneOf(es, UserOf(k)) {
      assert AnsweredAt(all, k, g, None);
    }
  }

  lemma FoundNowhere(t: Table, k: Key)
    requires Searchable(t) && IsSeekPos(InternalLess, t.index.entries, k, |t.blocks|)
    ensures Answered(Entries(t), k, None)
  {
    SeekLands(t, k, |t.blocks|, 0);
    NothingBehind(Parts(t));
    assert AnsweredAt(Entries(t), k, |Entries(t)|, None);
  }

  lemma DeniedRightly(t: Table, k: Key, b: nat, hash: KeyHash, data: seq<Byte>, offset: nat, size: nat, rest: seq<Byte>)
    requires |k| >= 8 && Searchable(t) && IsSeekPos(InternalLess, t.index.entries, k, b) && b < |t.blocks|
    requires HashesUsers(hash) && AdmitsAll(hash, data, t)
    requires ParseHandle(t.index.entries[b].value) == Parsed((offset, size), rest)
    requires !MayMatch(hash, data, offset, k)
    ensures Answered(Entries(t), k, None)
  {
    InternalOrder();
    var es := t.blocks[b].entries;
    assert Admits(hash, data, t.index.entries[b].value, es);
    forall j | 0 <= j < |es| ensures UserOf(es[j].key) != UserOf(k) {
      if UserOf(es[j].key) == UserOf(k) {
        SameAnswer(hash, data, offset, es[j].key, k);
      }
    }
    BlocksAscend(t, b);
    var i := SeekPosExists(InternalLess, es, k);
    FoundInBlock(t, k, b, i);
  }

  method InternalGet(file: seq<Byte>, verify: bool, crc: Checksum, indexContents: seq<Byte>, filter: FilterBlockReader?,
                     k: Key, ghost t: Table)
    returns (r: Option<Pair>)
    requires IsTable(t) && file == t.file && verify == t.verify && crc == t.crc && IsBlock(indexContents, t.index)
    requires Searchable(t) && |k| >= 8
    requires filter != null ==>
      filter.Valid() && HashesUsers(filter.policy.hash) && AdmitsAll(filter.policy.hash, filter.data, t)
    ensures Answered(Entries(t), k, r)
  {
    InternalOrder();
    var iiter := NewIterator(indexContents, InternalLess, t.index);
    BlocksAscend(t, 0);
    ghost var b := iiter.Seek(k);
    iiter.Shows(b);
    if !iiter.Valid() {
      FoundNowhere(t, k);
      return None;
    }
    var handleValue := iiter.Value();
    if filter != null {
      var h := DecodeHandle(handleValue);
      if h.Parsed? {
        var may := filter.KeyMayMatch(h.value.0, k);
        if !may {
          DeniedRightly(t, k, b, filter.policy.hash, filter.data, h.value.0, h.value.1, h.rest);
          return None;
        }
      }
    }
    var blockIter := ReadDataBlock(file, verify, crc, InternalLess, handleValue, t, b);
    BlocksAscend(t, b);
    ghost var i := blockIter.Seek(k);
    blockIter.Shows(i);
    FoundInBlock(t, k, b, i);
    r := if blockIter.Valid() then Some(Pair(blockIter.key, blockIter.Value())) else None;
  }
}
