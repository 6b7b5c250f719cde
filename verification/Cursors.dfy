/** Positions of an iterator over a sorted run of entries (include/leveldb/iterator.h): an index, or the length of the
    run when the iterator is not valid. */
module Cursors {
  import opened InternalKeys

  /** Where Seek lands: the first entry at or after the target. */
  function SeekPos(entries: seq<Entry>, target: InternalKey): (p: nat)
    ensures p <= |entries|
  {
    if entries == [] || !Less(entries[0].key, target) then 0 else 1 + SeekPos(entries[1..], target)
  }

  function LastPos(entries: seq<Entry>): nat {
    if entries == [] then 0 else |entries| - 1
  }

  function PrevPos(entries: seq<Entry>, p: nat): nat
    requires p < |entries|
  {
    if p == 0 then |entries| else p - 1
  }

  /** The entries before `p`, and no others, lie before the target. */
  ghost predicate Splits(entries: seq<Entry>, p: nat, target: InternalKey) {
    && p <= |entries|
    && (forall j :: 0 <= j < p ==> Less(entries[j].key, target))
    && (forall j :: p <= j < |entries| ==> !Less(entries[j].key, target))
  }

  lemma {:induction false} SeekSplits(entries: seq<Entry>, target: InternalKey)
    requires SortedKeys(entries)
    ensures Splits(entries, SeekPos(entries, target), target)
  {
    if entries != [] && Less(entries[0].key, target) {
      var tail := entries[1..];
      forall i, j | 0 <= i < j < |tail| ensures Less(tail[i].key, tail[j].key) {
        assert Less(entries[i + 1].key, entries[j + 1].key);
      }
      SeekSplits(tail, target);
      forall j | 0 < j < |entries| ensures entries[j] == tail[j - 1] {
      }
    }
  }

  lemma SplitIsUnique(entries: seq<Entry>, p: nat, q: nat, target: InternalKey)
    requires Splits(entries, p, target) && Splits(entries, q, target)
    ensures p == q
  {
    var j := if p < q then p else q;
    if j < |entries| {
      var before := Less(entries[j].key, target);
    }
  }
}
