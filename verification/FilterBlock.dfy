/** The filters of a table in one block (table/filter_block.cc): one filter for every 2 kilobytes of table file,
    found through the offset of the block that holds the key. */
module FilterBlock {
  import opened Basics
  import opened Coding
  import opened Flattening
  import opened Bloom

  const FILTER_BASE_LG := 11
  const FILTER_BASE := 2048

  // ---- what the builder writes ----

  /** Keys one behind the other, and where each starts. */
  ghost predicate Flattened(keys: seq<Byte>, start: seq<nat>, pending: seq<Key>) {
    && keys == Flatten(pending)
    && |start| == |pending|
    && forall i :: 0 <= i < |start| ==> start[i] == StartOf(pending, i)
  }

  /** Filters one behind the other, and the low 32 bits of where each starts. */
  ghost predicate Written(result: seq<Byte>, offsets: seq<Word>, filters: seq<seq<Byte>>) {
    && result == Flatten(filters)
    && |offsets| == |filters|
    && forall i :: 0 <= i < |offsets| ==> offsets[i] == StartOf(filters, i) % 0x1_0000_0000
  }

  /** No keys, no bytes; otherwise the bits of the keys, which all match. */
  ghost predicate FilterOf(hash: KeyHash, k: nat, group: seq<Key>, filter: seq<Byte>) {
    if group == [] then filter == []
    else
      && |filter| >= 2 && filter[|filter| - 1] == k
      && Records(hash, group, k, filter[..|filter| - 1])
      && forall i :: 0 <= i < |group| ==> Matches(hash, group[i], filter)
  }

  ghost predicate FiltersOf(hash: KeyHash, k: nat, groups: seq<seq<Key>>, filters: seq<seq<Byte>>) {
    && |groups| == |filters|
    && forall i :: 0 <= i < |groups| ==> FilterOf(hash, k, groups[i], filters[i])
  }

  /** What the filters say of a key at an offset; past the last one there is no filter to say no. */
  predicate Answers(hash: KeyHash, filters: seq<seq<Byte>>, blockOffset: nat, key: Key) {
    blockOffset / FILTER_BASE < |filters| ==> Matches(hash, key, filters[blockOffset / FILTER_BASE])
  }

  function Contents(result: seq<Byte>, offsets: seq<Word>): (contents: seq<Byte>) {
    result + Fixed32s(offsets) + Fixed32(|result| % 0x1_0000_0000) + [FILTER_BASE_LG]
  }

  // ---- what the reader reads ----

  /** Where the array of offsets begins, how many there are, and the shift from block offset to filter. */
  datatype FilterParts = FilterParts(offset: nat, num: nat, baseLg: nat)

  /** A block too short, or with an array past its end, has no filters. */
  function PartsOf(contents: seq<Byte>): (p: FilterParts)
    ensures Fits(p, contents)
  {
    var n := |contents|;
    if n < 5 then FilterParts(0, 0, 0)
    else
      var lastWord := DecodeFixed32(contents[n - 5..]);
      if lastWord > n - 5 then FilterParts(0, 0, contents[n - 1])
      else FilterParts(lastWord, (n - 5 - lastWord) / 4, contents[n - 1])
  }

  predicate Fits(parts: FilterParts, contents: seq<Byte>) {
    parts.num > 0 ==> parts.offset + 4 * parts.num + 5 <= |contents|
  }

  function WordAt(contents: seq<Byte>, at: nat): Word
    requires at + 4 <= |contents|
  {
    DecodeFixed32(contents[at..])
  }

  /** The answer of the filter between two places before the array; errors are treated as potential matches. */
  predicate MatchesBetween(hash: KeyHash, contents: seq<Byte>, offset: nat, start: nat, limit: nat, key: Key)
    requires offset <= |contents|
  {
    if start <= limit <= offset then Matches(hash, key, contents[start..limit]) else start != limit
  }

  predicate MatchesAt(hash: KeyHash, contents: seq<Byte>, parts: FilterParts, index: nat, key: Key)
    requires Fits(parts, contents)
  {
    index < parts.num ==>
      MatchesBetween(hash, contents, parts.offset, WordAt(contents, parts.offset + 4 * index),
                     WordAt(contents, parts.offset + 4 * index + 4), key)
  }

  function Shr(n: nat, k: nat): nat
    decreases k
  {
    if k == 0 then n else Shr(n / 2, k - 1)
  }

  /** The answer for a key of the data block at the offset. */
  predicate MayMatch(hash: KeyHash, contents: seq<Byte>, blockOffset: nat, key: Key) {
    var parts := PartsOf(contents);
    MatchesAt(hash, contents, parts, Shr(blockOffset, parts.baseLg), key)
  }

  // ---- the reader on what the builder writes ----

  lemma OffsetAt(result: seq<Byte>, offsets: seq<Word>, i: nat)
    requires i <= |offsets|
    ensures |Contents(result, offsets)| == |result| + 4 * |offsets| + 5
    ensures WordAt(Contents(result, offsets), |result| + 4 * i) ==
            if i < |offsets| then offsets[i] else |result| % 0x1_0000_0000
  {
    var total: Word := |result| % 0x1_0000_0000;
    var words, tail := offsets + [total], [FILTER_BASE_LG as Byte];
    assert words[..|words| - 1] == offsets;
    Fixed32At(words, i, tail);
    assert Contents(result, offsets)[|result| + 4 * i..] == (Fixed32s(words) + tail)[4 * i..];
  }

  lemma PartsOfContents(result: seq<Byte>, offsets: seq<Word>)
    requires |Contents(result, offsets)| < 0x1_0000_0000
    ensures PartsOf(Contents(result, offsets)) == FilterParts(|result|, |offsets|, FILTER_BASE_LG)
  {
    OffsetAt(result, offsets, |offsets|);
  }

  lemma NibbleShift(n: nat, k: nat)
    ensures Shr(n, k + 4) == Shr(n / 16, k)
  {
    assert Shr(n, k + 4) == Shr(n / 2, k + 3) == Shr(n / 4, k + 2) == Shr(n / 8, k + 1) == Shr(n / 16, k);
  }

  lemma ShiftIsBase(n: nat)
    ensures Shr(n, FILTER_BASE_LG) == n / FILTER_BASE
  {
    NibbleShift(n, 7);
    NibbleShift(n / 16, 3);
    var m := n / 16 / 16;
    assert Shr(m, 3) == Shr(m / 2, 2) == Shr(m / 4, 1) == Shr(m / 8, 0);
  }

  lemma FilterAt(result: seq<Byte>, offsets: seq<Word>, filters: seq<seq<Byte>>, i: nat)
    requires Written(result, offsets, filters) && |Contents(result, offsets)| < 0x1_0000_0000
    requires i < |filters|
    ensures var contents := Contents(result, offsets);
      && |contents| == |result| + 4 * |offsets| + 5
      && WordAt(contents, |result| + 4 * i) == StartOf(filters, i)
      && WordAt(contents, |result| + 4 * i + 4) == StartOf(filters, i + 1)
      && StartOf(filters, i) <= StartOf(filters, i + 1) <= |result|
      && contents[StartOf(filters, i)..StartOf(filters, i + 1)] == filters[i]
  {
    var contents := Contents(result, offsets);
    OffsetAt(result, offsets, i);
    OffsetAt(result, offsets, i + 1);
    PartAt(filters, i);
    assert filters[..|filters|] == filters;
    var start, limit := StartOf(filters, i), StartOf(filters, i + 1);
    Small(start, 0x1_0000_0000);
    Small(limit, 0x1_0000_0000);
    assert contents[start..limit] == result[start..limit];
    assert |result| + 4 * i + 4 == |result| + 4 * (i + 1);
  }

  lemma AnswerBetween(hash: KeyHash, contents: seq<Byte>, parts: FilterParts, i: nat, start: nat, limit: nat, key: Key)
    requires Fits(parts, contents) && i < parts.num && start <= limit <= parts.offset
    requires WordAt(contents, parts.offset + 4 * i) == start && WordAt(contents, parts.offset + 4 * i + 4) == limit
    ensures MatchesAt(hash, contents, parts, i, key) <==> Matches(hash, key, contents[start..limit])
  {
  }

  lemma AnswerAt(hash: KeyHash, result: seq<Byte>, offsets: seq<Word>, filters: seq<seq<Byte>>, i: nat, key: Key)
    requires Written(result, offsets, filters) && |Contents(result, offsets)| < 0x1_0000_0000
    requires i < |filters|
    ensures Fits(FilterParts(|result|, |offsets|, FILTER_BASE_LG), Contents(result, offsets))
    ensures MatchesAt(hash, Contents(result, offsets), FilterParts(|result|, |offsets|, FILTER_BASE_LG), i, key) <==>
            Matches(hash, key, filters[i])
  {
    FilterAt(result, offsets, filters, i);
    AnswerBetween(hash, Contents(result, offsets), FilterParts(|result|, |offsets|, FILTER_BASE_LG), i,
                  StartOf(filters, i), StartOf(filters, i + 1), key);
  }

  /** The reader asks the filter that was written for the block, exactly. */
  lemma ReaderFindsFilter(hash: KeyHash, result: seq<Byte>, offsets: seq<Word>, filters: seq<seq<Byte>>,
                          blockOffset: nat, key: Key)
    requires Written(result, offsets, filters) && |Contents(result, offsets)| < 0x1_0000_0000
    ensures MayMatch(hash, Contents(result, offsets), blockOffset, key) <==> Answers(hash, filters, blockOffset, key)
  {
    PartsOfContents(result, offsets);
    ShiftIsBase(blockOffset);
    var i := blockOffset / FILTER_BASE;
    if i < |filters| {
      AnswerAt(hash, result, offsets, filters, i, key);
    }
  }

  class FilterBlockBuilder {
    const policy: BloomFilterPolicy
    var keys: seq<Byte>
    var start: seq<nat>
    var result: seq<Byte>
    var filterOffsets: seq<Word>
    /** The keys since the last filter, the keys of every filter, and the filters. */
    ghost var pending: seq<Key>
    ghost var groups: seq<seq<Key>>
    ghost var filters: seq<seq<Byte>>

    ghost predicate Valid()
      reads this
    {
      && policy.Valid()
      && Flattened(keys, start, pending)
      && Written(result, filterOffsets, filters)
      && FiltersOf(policy.hash, policy.k, groups, filters)
    }

    constructor (policy: BloomFilterPolicy)
      requires policy.Valid()
      ensures Valid() && this.policy == policy && pending == [] && groups == []
    {
      this.policy := policy;
      keys, start, result, filterOffsets, pending, groups, filters := [], [], [], [], [], [], [];
    }

    /** Closes filters until the next one is the filter of the block. */
    method StartBlock(blockOffset: nat)
      requires Valid() && blockOffset / FILTER_BASE >= |groups|
      modifies this
      ensures Valid() && |groups| == blockOffset / FILTER_BASE
      ensures |groups| == |old(groups)| ==> groups == old(groups) && pending == old(pending)
      ensures |groups| > |old(groups)| ==> pending == [] && old(groups) + [old(pending)] <= groups
      ensures forall i :: |old(groups)| < i < |groups| ==> groups[i] == []
    {
      var filterIndex := blockOffset / FILTER_BASE;
      while filterIndex > |filterOffsets|
        invariant Valid() && |old(groups)| <= |groups| <= filterIndex
        invariant |groups| == |old(groups)| ==> groups == old(groups) && pending == old(pending)
        invariant |groups| > |old(groups)| ==> pending == [] && old(groups) + [old(pending)] <= groups
        invariant forall i :: |old(groups)| < i < |groups| ==> groups[i] == []
        decreases filterIndex - |filterOffsets|
      {
        GenerateFilter();
      }
    }

    method AddKey(key: Key)
      requires Valid()
      modifies this`keys, this`start, this`pending
      ensures Valid() && pending == old(pending) + [key]
    {
      FlattenOneMore(pending, key);
      start := start + [|keys|];
      keys := keys + key;
      pending := pending + [key];
    }

    /** The keys cut out of the flattened string again. */
    method Keys() returns (tmpKeys: seq<Key>)
      requires Valid()
      ensures tmpKeys == pending
    {
      var ends := start + [|keys|];
      tmpKeys := [];
      for i := 0 to |start|
        invariant tmpKeys == pending[..i]
      {
        PartAt(pending, i);
        assert pending[..|pending|] == pending;
        tmpKeys := tmpKeys + [keys[ends[i]..ends[i + 1]]];
      }
    }

    method GenerateFilter()
      requires Valid()
      modifies this
      ensures Valid() && pending == [] && groups == old(groups) + [old(pending)]
    {
      var offset := |result| % 0x1_0000_0000;
      ghost var filter := [];
      if |start| == 0 {
        filterOffsets := filterOffsets + [offset];
      } else {
        var tmpKeys := Keys();
        filterOffsets := filterOffsets + [offset];
        result, filter := policy.CreateFilter(tmpKeys, result);
        keys, start := [], [];
      }
      FlattenOneMore(filters, filter);
      filters, groups, pending := filters + [filter], groups + [pending], [];
    }

    /** Closes the last filter and appends the offsets. Every key that was added matches at every offset of its
        filter's two kilobytes, and the reader's answer is the answer of that filter alone. */
    method Finish() returns (r: seq<Byte>)
      requires Valid()
      modifies this
      ensures groups == old(groups) + if old(pending) == [] then [] else [old(pending)]
      ensures FiltersOf(policy.hash, policy.k, groups, filters)
      ensures |r| < 0x1_0000_0000 ==> forall offset: nat, key ::
        MayMatch(policy.hash, r, offset, key) <==> Answers(policy.hash, filters, offset, key)
      ensures |r| < 0x1_0000_0000 ==> forall offset: nat, key ::
        offset / FILTER_BASE < |groups| && key in groups[offset / FILTER_BASE] ==> MayMatch(policy.hash, r, offset, key)
    {
      if start != [] {
        GenerateFilter();
      }
      var arrayOffset := |result| % 0x1_0000_0000;
      ghost var was := result;
      result := PutFixed32s(result, filterOffsets);
      result := result + Fixed32(arrayOffset);
      result := result + [FILTER_BASE_LG];
      r := result;
      if |r| < 0x1_0000_0000 {
        forall offset: nat, key
          ensures MayMatch(policy.hash, r, offset, key) <==> Answers(policy.hash, filters, offset, key)
        {
          ReaderFindsFilter(policy.hash, was, filterOffsets, filters, offset, key);
        }
      }
    }
  }

  class FilterBlockReader {
    const policy: BloomFilterPolicy
    const data: seq<Byte>
    const parts: FilterParts

    ghost predicate Valid() {
      parts == PartsOf(data)
    }

    constructor (policy: BloomFilterPolicy, contents: seq<Byte>)
      ensures Valid() && this.policy == policy && data == contents
    {
      this.policy := policy;
      data := contents;
      var n := |contents|;
      var offset, num, baseLg := 0, 0, 0;
      if n >= 5 {
        baseLg := contents[n - 1];
        var lastWord := DecodeFixed32(contents[n - 5..]);
        if lastWord <= n - 5 {
          offset, num := lastWord, (n - 5 - lastWord) / 4;
        }
      }
      parts := FilterParts(offset, num, baseLg);
    }

    method KeyMayMatch(blockOffset: nat, key: Key) returns (b: bool)
      requires Valid()
      ensures b == MayMatch(policy.hash, data, blockOffset, key)
    {
      var index := Shr(blockOffset, parts.baseLg);
      if index < parts.num {
        var start := DecodeFixed32(data[parts.offset + index * 4..]);
        var limit := DecodeFixed32(data[parts.offset + index * 4 + 4..]);
        b := Between(start, limit, key);
      } else {
        b := true;
      }
    }

    method Between(start: nat, limit: nat, key: Key) returns (b: bool)
      requires Valid() && parts.offset <= |data|
      ensures b == MatchesBetween(policy.hash, data, parts.offset, start, limit, key)
    {
      if start <= limit && limit <= parts.offset {
        b := policy.KeyMayMatch(key, data[start..limit]);
      } else if start == limit {
        b := false;
      } else {
        b := true;
      }
    }
  }
}
