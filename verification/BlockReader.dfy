/** The parts of a finished block as table/block.cc reads them: the restart array, and the entry at an offset. */
module BlockReader {
  import opened Basics
  import opened Coding
  import opened BlockFormat

  /** What the start of an entry says, and the bytes from its key on. */
  datatype Header = Header(shared: nat, nonShared: nat, valueLength: nat, rest: seq<Byte>)

  /** A comparison of 32-bit words. */
  predicate TooShort(bytesLeft: nat, nonShared: nat, valueLength: nat) {
    bytesLeft % 0x1_0000_0000 < (nonShared + valueLength) % 0x1_0000_0000
  }

  function ParseHeader(s: seq<Byte>): Option<Header> {
    match ReadVarint(s, 32, 0, 0)
    case Malformed => None
    case Parsed(shared, s1) =>
      match ReadVarint(s1, 32, 0, 0)
      case Malformed => None
      case Parsed(nonShared, s2) =>
        match ReadVarint(s2, 32, 0, 0)
        case Malformed => None
        case Parsed(valueLength, rest) =>
          if TooShort(|rest|, nonShared, valueLength) then None
          else Some(Header(shared, nonShared, valueLength, rest))
  }

  lemma OneByte(s: seq<Byte>)
    requires s != [] && s[0] < 128
    ensures ReadVarint(s, 32, 0, 0) == Parsed(s[0], s[1..])
  {
    Varint32ReadsBack(s[0], s[1..]);
    assert Varint(s[0]) + s[1..] == s;
  }

  lemma ThreeBytes(s: seq<Byte>)
    requires |s| >= 3 && s[0] < 128 && s[1] < 128 && s[2] < 128
    ensures ReadVarint(s, 32, 0, 0) == Parsed(s[0], s[1..])
    ensures ReadVarint(s[1..], 32, 0, 0) == Parsed(s[1], s[2..])
    ensures ReadVarint(s[2..], 32, 0, 0) == Parsed(s[2], s[3..])
  {
    OneByte(s);
    OneByte(s[1..]);
    OneByte(s[2..]);
    assert s[1..][1..] == s[2..] && s[2..][1..] == s[3..];
  }

  /** DecodeEntry, with its fast path for three values of one byte each. */
  method DecodeEntry(s: seq<Byte>) returns (r: Option<Header>)
    ensures r == ParseHeader(s)
  {
    if |s| < 3 {
      return None;
    }
    var shared: nat, nonShared: nat, valueLength: nat, rest := s[0], s[1], s[2], s[3..];
    if shared < 128 && nonShared < 128 && valueLength < 128 {
      ThreeBytes(s);
    } else {
      var v := GetVarint(s, 32);
      if v.Malformed? {
        return None;
      }
      shared := v.value;
      v := GetVarint(v.rest, 32);
      if v.Malformed? {
        return None;
      }
      nonShared := v.value;
      v := GetVarint(v.rest, 32);
      if v.Malformed? {
        return None;
      }
      valueLength, rest := v.value, v.rest;
    }
    if TooShort(|rest|, nonShared, valueLength) {
      return None;
    }
    return Some(Header(shared, nonShared, valueLength, rest));
  }

  lemma LongEnough(n: nat, b: nat, c: nat)
    requires b + c <= n < 0x1_0000_0000
    ensures !TooShort(n, b, c)
  {
  }

  lemma ParsedHeader(s: seq<Byte>, s1: seq<Byte>, s2: seq<Byte>, rest: seq<Byte>, a: nat, b: nat, c: nat)
    requires ReadVarint(s, 32, 0, 0) == Parsed(a, s1) && ReadVarint(s1, 32, 0, 0) == Parsed(b, s2)
    requires ReadVarint(s2, 32, 0, 0) == Parsed(c, rest) && !TooShort(|rest|, b, c)
    ensures ParseHeader(s) == Some(Header(a, b, c, rest))
  {
  }

  lemma ThreeVarints(a: Word, b: Word, c: Word, rest: seq<Byte>)
    requires b + c <= |rest| < 0x1_0000_0000
    ensures ParseHeader(Varint(a) + (Varint(b) + (Varint(c) + rest))) == Some(Header(a, b, c, rest))
  {
    var s2 := Varint(c) + rest;
    var s1 := Varint(b) + s2;
    Varint32ReadsBack(a, s1);
    Varint32ReadsBack(b, s2);
    Varint32ReadsBack(c, rest);
    LongEnough(|rest|, b, c);
    ParsedHeader(Varint(a) + s1, s1, s2, rest, a, b, c);
  }

  /** Below 2^32 an entry is refused exactly when the block ends before its key and value do. */
  lemma ShortEntryIsRefused(a: Word, b: Word, c: Word, rest: seq<Byte>)
    requires b + c < 0x1_0000_0000 && |rest| < 0x1_0000_0000
    ensures ParseHeader(Varint(a) + (Varint(b) + (Varint(c) + rest))) ==
            if b + c <= |rest| then Some(Header(a, b, c, rest)) else None
  {
    if b + c <= |rest| {
      ThreeVarints(a, b, c, rest);
    } else {
      var s2 := Varint(c) + rest;
      var s1 := Varint(b) + s2;
      Varint32ReadsBack(a, s1);
      Varint32ReadsBack(b, s2);
      Varint32ReadsBack(c, rest);
      RefusedHeader(Varint(a) + s1, s1, s2, rest, a, b, c);
    }
  }

  lemma RefusedHeader(s: seq<Byte>, s1: seq<Byte>, s2: seq<Byte>, rest: seq<Byte>, a: nat, b: nat, c: nat)
    requires ReadVarint(s, 32, 0, 0) == Parsed(a, s1) && ReadVarint(s1, 32, 0, 0) == Parsed(b, s2)
    requires ReadVarint(s2, 32, 0, 0) == Parsed(c, rest) && |rest| < b + c < 0x1_0000_0000
    ensures ParseHeader(s) == None
  {
  }

  lemma HeaderReadsBack(shared: nat, e: Pair, rest: seq<Byte>)
    requires shared <= |e.key| && |EntryBytes(shared, e)| + |rest| < 0x1_0000_0000 && |e.key| < 0x1_0000_0000
    ensures ParseHeader(EntryBytes(shared, e) + rest)
      == Some(Header(shared, |e.key| - shared, |e.value|, e.key[shared..] + e.value + rest))
  {
    var n, body := |e.key| - shared, e.key[shared..] + e.value;
    var a, b, c := Varint(shared), Varint(n), Varint(|e.value|);
    assert |body + rest| < 0x1_0000_0000;
    Nested(a, b, c, body, rest);
    ThreeVarints(shared, n, |e.value|, body + rest);
  }

  lemma Nested(a: seq<Byte>, b: seq<Byte>, c: seq<Byte>, d: seq<Byte>, e: seq<Byte>)
    ensures (a + (b + (c + d))) + e == a + (b + (c + (d + e)))
  {
    Associate(c, d, e);
    Associate(b, c + d, e);
    Associate(a, b + (c + d), e);
  }

  // ---- a block and its layout ----

  /** A finished block; only looked into for an opened layout. */
  ghost predicate IsBlock(contents: seq<Byte>, l: Layout) {
    forall x: Layout {:trigger Opened(x)} :: Opened(x) && x == l ==> HasBytes(contents, x)
  }

  /** The bytes of a finished block that fit 32-bit offsets. */
  ghost predicate HasBytes(contents: seq<Byte>, l: Layout) {
    && WellLaid(l) && Small32(l) && contents == BlockBytes(l) && |contents| < 0x1_0000_0000
    && (forall i :: 0 <= i < |l.entries| ==> |l.entries[i].key| < 0x1_0000_0000)
  }

  lemma LayoutIsOpen(contents: seq<Byte>, l: Layout)
    requires IsBlock(contents, l)
    ensures HasBytes(contents, l)
  {
    assert Opened(l);
  }

  lemma RestartPointRead(contents: seq<Byte>, l: Layout, r: nat)
    requires IsBlock(contents, l) && r < |l.starts|
    ensures |WholeData(l)| + 4 * r + 4 <= |contents| && l.starts[r] <= |l.entries|
    ensures DecodeFixed32(contents[|WholeData(l)| + 4 * r..]) == Offset(l, l.starts[r])
  {
    LayoutIsOpen(contents, l);
    var data, table, tail := WholeData(l), Fixed32s(Restarts(l)), Fixed32(|l.starts|);
    Associate(data, table, tail);
    assert contents[|data| + 4 * r..] == (table + tail)[4 * r..];
    Fixed32At(Restarts(l), r, tail);
    RestartAt(l, r);
  }

  lemma NumRestartsRead(contents: seq<Byte>, l: Layout)
    requires IsBlock(contents, l)
    ensures |contents| == |WholeData(l)| + 4 * |l.starts| + 4
    ensures DecodeFixed32(contents[|contents| - 4..]) == |l.starts|
  {
    LayoutIsOpen(contents, l);
    var front, tail := WholeData(l) + Fixed32s(Restarts(l)), Fixed32(|l.starts|);
    assert contents[|contents| - 4..] == tail + [];
    Fixed32RoundTrip(|l.starts|, []);
  }

  lemma PrefixOf(p: seq<Byte>, q: seq<Byte>, rest: seq<Byte>)
    requires p <= q
    ensures (q + rest)[..|p|] == p
  {
  }

  lemma SliceAfter(whole: seq<Byte>, n: nat, a: seq<Byte>, b: seq<Byte>)
    requires |a| + |b| <= n <= |whole| && whole[..|a| + |b|] == a + b
    ensures whole[|a|..n] == b + whole[|a| + |b|..n]
  {
    assert whole[|a|..|a| + |b|] == whole[..|a| + |b|][|a|..] == b;
  }

  lemma ContentsStart(contents: seq<Byte>, l: Layout, i: nat)
    requires IsBlock(contents, l) && i <= |l.entries|
    ensures Offset(l, i) <= |WholeData(l)| <= |contents| && contents[..Offset(l, i)] == Data(l, i)
  {
    LayoutIsOpen(contents, l);
    DataIsPrefix(l, i, |l.entries|);
    Associate(WholeData(l), Fixed32s(Restarts(l)), Fixed32(|l.starts|));
    PrefixOf(Data(l, i), WholeData(l), Fixed32s(Restarts(l)) + Fixed32(|l.starts|));
  }

  /** The i-th entry is where its offset says, up to the offset of the next one. */
  lemma EntryRead(contents: seq<Byte>, l: Layout, i: nat)
    requires IsBlock(contents, l) && i < |l.entries|
    ensures Offset(l, i) + |EntryBytes(Shared(l, i), l.entries[i])| == Offset(l, i + 1) <= |WholeData(l)| <= |contents|
    ensures contents[Offset(l, i)..|WholeData(l)|]
      == EntryBytes(Shared(l, i), l.entries[i]) + contents[Offset(l, i + 1)..|WholeData(l)|]
  {
    ContentsStart(contents, l, i + 1);
    SliceAfter(contents, |WholeData(l)|, Data(l, i), EntryBytes(Shared(l, i), l.entries[i]));
  }

  /** What parsing the i-th entry gives, from a key that has what the entry shares. */
  lemma NextKeyRead(contents: seq<Byte>, l: Layout, key: Key, i: nat) returns (h: Header)
    requires IsBlock(contents, l) && i < |l.entries|
    requires Shared(l, i) <= |key| && key[..Shared(l, i)] == l.entries[i].key[..Shared(l, i)]
    ensures Offset(l, i) < |WholeData(l)| <= |contents|
    ensures ParseHeader(contents[Offset(l, i)..|WholeData(l)|]) == Some(h)
    ensures h.shared == Shared(l, i) <= |key| && h.nonShared + h.valueLength <= |h.rest| <= |WholeData(l)|
    ensures key[..h.shared] + h.rest[..h.nonShared] == l.entries[i].key
    ensures h.valueLength == |l.entries[i].value|
    ensures |WholeData(l)| - |h.rest| + h.nonShared + h.valueLength == Offset(l, i + 1)
  {
    h := HeaderAt(contents, l, i);
    SplicedKeyIs(key, l.entries[i].key, h.shared);
  }

  lemma HeaderAt(contents: seq<Byte>, l: Layout, i: nat) returns (h: Header)
    requires IsBlock(contents, l) && i < |l.entries|
    ensures Offset(l, i) < |WholeData(l)| <= |contents|
    ensures ParseHeader(contents[Offset(l, i)..|WholeData(l)|]) == Some(h)
    ensures h.shared == Shared(l, i) && h.nonShared == |l.entries[i].key| - h.shared
    ensures h.valueLength == |l.entries[i].value|
    ensures |h.rest| == h.nonShared + h.valueLength + (|WholeData(l)| - Offset(l, i + 1))
    ensures Offset(l, i + 1) <= |WholeData(l)|
    ensures h.rest[..h.nonShared] == l.entries[i].key[h.shared..]
  {
    var e, shared, n := l.entries[i], Shared(l, i), |WholeData(l)|;
    EntryRead(contents, l, i);
    var rest := contents[Offset(l, i + 1)..n];
    LayoutIsOpen(contents, l);
    HeaderReadsBack(shared, e, rest);
    h := Header(shared, |e.key| - shared, |e.value|, e.key[shared..] + e.value + rest);
    HeadOf(e.key[shared..], e.value + rest);
    Associate(e.key[shared..], e.value, rest);
  }

  /** The value of an entry ends where the entry does. */
  lemma ValueInBlock(contents: seq<Byte>, l: Layout, i: nat)
    requires IsBlock(contents, l) && i < |l.entries|
    ensures |l.entries[i].value| <= Offset(l, i + 1) <= |contents|
    ensures contents[Offset(l, i + 1) - |l.entries[i].value|..Offset(l, i + 1)] == l.entries[i].value
  {
    var e, shared, n := l.entries[i], Shared(l, i), |WholeData(l)|;
    EntryRead(contents, l, i);
    EntryEnds(shared, e);
    EndsWithValue(contents, Offset(l, i), Offset(l, i + 1), n, EntryFront(shared, e), e.value);
  }

  ghost function EntryFront(shared: nat, e: Pair): seq<Byte>
    requires shared <= |e.key|
  {
    Varint(shared) + (Varint(|e.key| - shared) + (Varint(|e.value|) + e.key[shared..]))
  }

  lemma EntryEnds(shared: nat, e: Pair)
    requires shared <= |e.key|
    ensures EntryBytes(shared, e) == EntryFront(shared, e) + e.value
  {
    Nested(Varint(shared), Varint(|e.key| - shared), Varint(|e.value|), e.key[shared..], e.value);
  }

  lemma HeadOf(a: seq<Byte>, b: seq<Byte>)
    ensures (a + b)[..|a|] == a
  {
  }

  lemma SplicedKeyIs(before: Key, key: Key, shared: nat)
    requires shared <= |key| && shared <= |before| && before[..shared] == key[..shared]
    ensures before[..shared] + key[shared..] == key
  {
  }

  lemma EndsWithValue(contents: seq<Byte>, at: nat, next: nat, n: nat, front: seq<Byte>, value: seq<Byte>)
    requires at <= next <= n <= |contents| && at + |front + value| == next
    requires contents[at..n] == (front + value) + contents[next..n]
    ensures |value| <= next && contents[next - |value|..next] == value
  {
    var slice, begin := contents[at..n], next - |value|;
    forall k | 0 <= k < |value| ensures contents[begin + k] == value[k] {
      assert slice[|front| + k] == contents[at + (|front| + k)];
    }
  }
}
