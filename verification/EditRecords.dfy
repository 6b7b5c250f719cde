/** Manifest records (db/version_edit.cc): a version edit as bytes, and back. Internal keys are byte strings
    here, as the record holds them. */
module EditRecords {
  import opened Basics
  import opened Coding
  import Versions

  const COMPARATOR: nat := 1
  const LOG_NUMBER: nat := 2
  const NEXT_FILE_NUMBER: nat := 3
  const LAST_SEQUENCE: nat := 4
  const COMPACT_POINTER: nat := 5
  const DELETED_FILE: nat := 6
  const NEW_FILE: nat := 7
  const PREV_LOG_NUMBER: nat := 9

  type Word64 = w: nat | w < 0x1_0000_0000_0000_0000
  type Level = l: nat | l < Versions.NUM_LEVELS

  type Text = s: seq<Byte> | |s| < 0x1_0000_0000

  datatype FileRecord = FileRecord(number: Word64, fileSize: Word64, smallest: Text, largest: Text)

  /** The fields of an edit; None where the source has a flag that is not set. The deleted files are an ordered
      set, kept as a sorted list. */
  datatype EditRecord = EditRecord(
    comparator: Option<Text>, logNumber: Option<Word64>, prevLogNumber: Option<Word64>,
    nextFileNumber: Option<Word64>, lastSequence: Option<Word64>,
    compactPointers: seq<(Level, Text)>, deletedFiles: seq<(Level, Word64)>, newFiles: seq<(Level, FileRecord)>)

  // ---- deleted files ----

  predicate PairLess(a: (Level, Word64), b: (Level, Word64)) {
    a.0 < b.0 || (a.0 == b.0 && a.1 < b.1)
  }

  ghost predicate SortedPairs(ps: seq<(Level, Word64)>) {
    forall i, j :: 0 <= i < j < |ps| ==> PairLess(ps[i], ps[j])
  }

  function InsertPair(ps: seq<(Level, Word64)>, p: (Level, Word64)): seq<(Level, Word64)> {
    if ps == [] || PairLess(p, ps[0]) then [p] + ps
    else if ps[0] == p then ps
    else [ps[0]] + InsertPair(ps[1..], p)
  }

  lemma {:induction false} InsertLast(ps: seq<(Level, Word64)>, p: (Level, Word64))
    requires forall q :: q in ps ==> PairLess(q, p)
    ensures InsertPair(ps, p) == ps + [p]
  {
    if ps != [] {
      assert ps[0] in ps && !PairLess(p, ps[0]) && ps[0] != p;
      InsertLast(ps[1..], p);
      assert [ps[0]] + (ps[1..] + [p]) == ps + [p];
    }
  }

  lemma {:induction false} InsertMembers(ps: seq<(Level, Word64)>, p: (Level, Word64), q: (Level, Word64))
    ensures q in InsertPair(ps, p) <==> q == p || q in ps
  {
    if ps != [] && !PairLess(p, ps[0]) && ps[0] != p {
      InsertMembers(ps[1..], p, q);
      assert ps == [ps[0]] + ps[1..];
    }
  }

  // ---- the bytes of an edit ----

  function Slice(s: Text): seq<Byte> {
    Varint(|s|) + s
  }

  function Tagged(tag: nat, payload: seq<Byte>): seq<Byte> {
    Varint(tag) + payload
  }

  function NumberBytes(tag: nat, n: Option<Word64>): seq<Byte> {
    if n.None? then [] else Tagged(tag, Varint(n.value))
  }

  function PointerBytes(p: (Level, Text)): seq<Byte> {
    Tagged(COMPACT_POINTER, Varint(p.0) + Slice(p.1))
  }

  function DeletedBytes(p: (Level, Word64)): seq<Byte> {
    Tagged(DELETED_FILE, Varint(p.0) + Varint(p.1))
  }

  function NewFileFields(p: (Level, FileRecord)): seq<Byte> {
    var f := p.1;
    Varint(p.0) + (Varint(f.number) + (Varint(f.fileSize) + (Slice(f.smallest) + Slice(f.largest))))
  }

  function NewFileBytes(p: (Level, FileRecord)): seq<Byte> {
    Tagged(NEW_FILE, NewFileFields(p))
  }

  function Pointers(ps: seq<(Level, Text)>): seq<Byte> {
    if ps == [] then [] else PointerBytes(ps[0]) + Pointers(ps[1..])
  }

  function Deleted(ps: seq<(Level, Word64)>): seq<Byte> {
    if ps == [] then [] else DeletedBytes(ps[0]) + Deleted(ps[1..])
  }

  function NewFiles(ps: seq<(Level, FileRecord)>): seq<Byte> {
    if ps == [] then [] else NewFileBytes(ps[0]) + NewFiles(ps[1..])
  }

  function ComparatorBytes(c: Option<Text>): seq<Byte> {
    if c.None? then [] else Tagged(COMPARATOR, Slice(c.value))
  }

  function Encode(r: EditRecord): seq<Byte> {
    ComparatorBytes(r.comparator)
    + (NumberBytes(LOG_NUMBER, r.logNumber)
    + (NumberBytes(PREV_LOG_NUMBER, r.prevLogNumber)
    + (NumberBytes(NEXT_FILE_NUMBER, r.nextFileNumber)
    + (NumberBytes(LAST_SEQUENCE, r.lastSequence)
    + (Pointers(r.compactPointers)
    + (Deleted(r.deletedFiles) + NewFiles(r.newFiles)))))))
  }

  // ---- parsing ----

  function Read32(s: seq<Byte>): (r: Parsed<nat>)
    ensures r.Parsed? ==> |r.rest| < |s|
  {
    ReadVarint(s, 32, 0, 0)
  }

  /** The septets of a 64-bit varint cannot carry more than 64 bits. */
  function Read64(s: seq<Byte>): (r: Parsed<Word64>)
    ensures r.Parsed? ==> |r.rest| < |s|
  {
    match ReadVarint(s, 64, 0, 0)
    case Malformed => Malformed
    case Parsed(n, rest) => Parsed(n % 0x1_0000_0000_0000_0000, rest)
  }

  /** A length of 32 bits and so many bytes. */
  function ReadSlice(s: seq<Byte>): (r: Parsed<Text>)
    ensures r.Parsed? ==> |r.rest| < |s|
  {
    match Read32(s)
    case Malformed => Malformed
    case Parsed(n, rest) =>
      if |rest| < n || n >= 0x1_0000_0000 then Malformed else Parsed(rest[..n], rest[n..])
  }

  function ReadLevel(s: seq<Byte>): (r: Parsed<Level>)
    ensures r.Parsed? ==> |r.rest| < |s|
  {
    match Read32(s)
    case Malformed => Malformed
    case Parsed(n, rest) => if n < Versions.NUM_LEVELS then Parsed(n, rest) else Malformed
  }

  function ReadPointer(s: seq<Byte>): (r: Parsed<(Level, Text)>)
    ensures r.Parsed? ==> |r.rest| < |s|
  {
    match ReadLevel(s)
    case Malformed => Malformed
    case Parsed(level, s1) =>
      match ReadSlice(s1)
      case Malformed => Malformed
      case Parsed(key, rest) => Parsed((level, key), rest)
  }

  function ReadDeleted(s: seq<Byte>): (r: Parsed<(Level, Word64)>)
    ensures r.Parsed? ==> |r.rest| < |s|
  {
    match ReadLevel(s)
    case Malformed => Malformed
    case Parsed(level, s1) =>
      match Read64(s1)
      case Malformed => Malformed
      case Parsed(number, rest) => Parsed((level, number), rest)
  }

  function ReadNewFile(s: seq<Byte>): (r: Parsed<(Level, FileRecord)>)
    ensures r.Parsed? ==> |r.rest| < |s|
  {
    match ReadLevel(s)
    case Malformed => Malformed
    case Parsed(level, s1) =>
      match Read64(s1)
      case Malformed => Malformed
      case Parsed(number, s2) =>
        match Read64(s2)
        case Malformed => Malformed
        case Parsed(fileSize, s3) =>
          match ReadSlice(s3)
          case Malformed => Malformed
          case Parsed(smallest, s4) =>
            match ReadSlice(s4)
            case Malformed => Malformed
            case Parsed(largest, rest) => Parsed((level, FileRecord(number, fileSize, smallest, largest)), rest)
  }

  function Into<T>(p: Parsed<T>, set': T -> EditRecord): (r: Parsed<EditRecord>)
    ensures r.Parsed? <==> p.Parsed?
    ensures r.Parsed? ==> r.rest == p.rest && r.value == set'(p.value)
  {
    match p
    case Malformed => Malformed
    case Parsed(v, rest) => Parsed(set'(v), rest)
  }

  function DecodeField(tag: nat, s: seq<Byte>, r: EditRecord): (p: Parsed<EditRecord>)
    ensures p.Parsed? ==> |p.rest| < |s|
  {
    if tag == COMPARATOR then Into(ReadSlice(s), v => r.(comparator := Some(v)))
    else if tag == LOG_NUMBER then Into(Read64(s), v => r.(logNumber := Some(v)))
    else if tag == PREV_LOG_NUMBER then Into(Read64(s), v => r.(prevLogNumber := Some(v)))
    else if tag == NEXT_FILE_NUMBER then Into(Read64(s), v => r.(nextFileNumber := Some(v)))
    else if tag == LAST_SEQUENCE then Into(Read64(s), v => r.(lastSequence := Some(v)))
    else if tag == COMPACT_POINTER then Into(ReadPointer(s), v => r.(compactPointers := r.compactPointers + [v]))
    else if tag == DELETED_FILE then Into(ReadDeleted(s), v => r.(deletedFiles := InsertPair(r.deletedFiles, v)))
    else if tag == NEW_FILE then Into(ReadNewFile(s), v => r.(newFiles := r.newFiles + [v]))
    else Malformed
  }

  /** Fields in any order, until no further tag can be read; then nothing may be left. */
  function DecodeFields(s: seq<Byte>, r: EditRecord): Option<EditRecord>
    decreases |s|
  {
    match Read32(s)
    case Malformed => if s == [] then Some(r) else None
    case Parsed(tag, rest) =>
      match DecodeField(tag, rest, r)
      case Malformed => None
      case Parsed(next, rest') => DecodeFields(rest', next)
  }

  // ---- every edit survives ----

  lemma FieldReadsBack(tag: Word, payload: seq<Byte>, rest: seq<Byte>, r: EditRecord, next: EditRecord)
    requires DecodeField(tag, payload + rest, r) == Parsed(next, rest)
    ensures DecodeFields(Tagged(tag, payload) + rest, r) == DecodeFields(rest, next)
  {
    Associate(Varint(tag), payload, rest);
    Varint32ReadsBack(tag, payload + rest);
  }

  lemma Word64ReadsBack(n: Word64, rest: seq<Byte>)
    ensures Read64(Varint(n) + rest) == Parsed(n, rest)
  {
    Varint64ReadsBack(n, rest);
    Small(n, 0x1_0000_0000_0000_0000);
  }

  lemma SliceReadsBack(s: Text, rest: seq<Byte>)
    ensures ReadSlice(Slice(s) + rest) == Parsed(s, rest)
  {
    Associate(Varint(|s|), s, rest);
    Varint32ReadsBack(|s|, s + rest);
    assert (s + rest)[..|s|] == s && (s + rest)[|s|..] == rest;
  }

  lemma LevelReadsBack(level: Level, rest: seq<Byte>)
    ensures ReadLevel(Varint(level) + rest) == Parsed(level, rest)
  {
    Varint32ReadsBack(level, rest);
  }

  lemma HeadAndTail<T>(done: seq<T>, ps: seq<T>)
    requires ps != []
    ensures (done + [ps[0]]) + ps[1..] == done + ps
  {
  }

  lemma NothingReadsBack(rest: seq<Byte>)
    ensures [] + rest == rest
  {
  }

  lemma ComparatorReadsBack(c: Option<Text>, rest: seq<Byte>, r: EditRecord)
    requires r.comparator == None
    ensures DecodeFields(ComparatorBytes(c) + rest, r) == DecodeFields(rest, r.(comparator := c))
  {
    NothingReadsBack(rest);
    if c.Some? {
      SliceReadsBack(c.value, rest);
      FieldReadsBack(COMPARATOR, Slice(c.value), rest, r, r.(comparator := c));
    }
  }

  predicate IsNumberTag(tag: nat) {
    tag == LOG_NUMBER || tag == PREV_LOG_NUMBER || tag == NEXT_FILE_NUMBER || tag == LAST_SEQUENCE
  }

  function WithNumber(tag: nat, r: EditRecord, n: Option<Word64>): EditRecord
    requires IsNumberTag(tag)
  {
    if tag == LOG_NUMBER then r.(logNumber := n)
    else if tag == PREV_LOG_NUMBER then r.(prevLogNumber := n)
    else if tag == NEXT_FILE_NUMBER then r.(nextFileNumber := n)
    else r.(lastSequence := n)
  }

  lemma NumberReadsBack(tag: nat, n: Option<Word64>, rest: seq<Byte>, r: EditRecord)
    requires IsNumberTag(tag) && WithNumber(tag, r, None) == r
    ensures DecodeFields(NumberBytes(tag, n) + rest, r) == DecodeFields(rest, WithNumber(tag, r, n))
  {
    NothingReadsBack(rest);
    if n.Some? {
      Word64ReadsBack(n.value, rest);
      FieldReadsBack(tag, Varint(n.value), rest, r, WithNumber(tag, r, n));
    }
  }

  lemma PointerReadsBack(p: (Level, Text), rest: seq<Byte>, r: EditRecord)
    ensures DecodeFields(PointerBytes(p) + rest, r) ==
      DecodeFields(rest, r.(compactPointers := r.compactPointers + [p]))
  {
    var payload := Varint(p.0) + Slice(p.1);
    Associate(Varint(p.0), Slice(p.1), rest);
    LevelReadsBack(p.0, Slice(p.1) + rest);
    SliceReadsBack(p.1, rest);
    FieldReadsBack(COMPACT_POINTER, payload, rest, r, r.(compactPointers := r.compactPointers + [p]));
  }

  lemma {:induction false} PointersReadBack(ps: seq<(Level, Text)>, rest: seq<Byte>, r: EditRecord)
    ensures DecodeFields(Pointers(ps) + rest, r) == DecodeFields(rest, r.(compactPointers := r.compactPointers + ps))
    decreases |ps|
  {
    if ps == [] {
      NothingReadsBack(rest);
      assert r.compactPointers + ps == r.compactPointers;
    } else {
      var next := r.(compactPointers := r.compactPointers + [ps[0]]);
      Associate(PointerBytes(ps[0]), Pointers(ps[1..]), rest);
      PointerReadsBack(ps[0], Pointers(ps[1..]) + rest, r);
      PointersReadBack(ps[1..], rest, next);
      HeadAndTail(r.compactPointers, ps);
    }
  }

  lemma DeletedPairReadsBack(p: (Level, Word64), rest: seq<Byte>, r: EditRecord)
    ensures DecodeFields(DeletedBytes(p) + rest, r)
      == DecodeFields(rest, r.(deletedFiles := InsertPair(r.deletedFiles, p)))
  {
    var payload := Varint(p.0) + Varint(p.1);
    Associate(Varint(p.0), Varint(p.1), rest);
    LevelReadsBack(p.0, Varint(p.1) + rest);
    Word64ReadsBack(p.1, rest);
    FieldReadsBack(DELETED_FILE, payload, rest, r, r.(deletedFiles := InsertPair(r.deletedFiles, p)));
  }

  /** The ordered set is written in order, so every insertion goes to its end. */
  lemma {:induction false} DeletedReadsBack(ps: seq<(Level, Word64)>, rest: seq<Byte>, r: EditRecord)
    requires SortedPairs(r.deletedFiles + ps)
    ensures DecodeFields(Deleted(ps) + rest, r) == DecodeFields(rest, r.(deletedFiles := r.deletedFiles + ps))
    decreases |ps|
  {
    var done := r.deletedFiles;
    if ps == [] {
      NothingReadsBack(rest);
      assert done + ps == done;
    } else {
      var next := r.(deletedFiles := done + [ps[0]]);
      LastOfSorted(done, ps);
      InsertLast(done, ps[0]);
      Associate(DeletedBytes(ps[0]), Deleted(ps[1..]), rest);
      DeletedPairReadsBack(ps[0], Deleted(ps[1..]) + rest, r);
      DeletedReadsBack(ps[1..], rest, next);
    }
  }

  lemma LastOfSorted(done: seq<(Level, Word64)>, ps: seq<(Level, Word64)>)
    requires ps != [] && SortedPairs(done + ps)
    ensures (done + [ps[0]]) + ps[1..] == done + ps
    ensures forall q :: q in done ==> PairLess(q, ps[0])
  {
    var all := done + ps;
    forall q | q in done ensures PairLess(q, ps[0]) {
      var i :| 0 <= i < |done| && done[i] == q;
      assert PairLess(all[i], all[|done|]);
    }
  }

  lemma NewFileParsed(s: seq<Byte>, s1: seq<Byte>, s2: seq<Byte>, s3: seq<Byte>, s4: seq<Byte>, rest: seq<Byte>,
                      p: (Level, FileRecord))
    requires ReadLevel(s) == Parsed(p.0, s1) && Read64(s1) == Parsed(p.1.number, s2)
    requires Read64(s2) == Parsed(p.1.fileSize, s3)
    requires ReadSlice(s3) == Parsed(p.1.smallest, s4) && ReadSlice(s4) == Parsed(p.1.largest, rest)
    ensures ReadNewFile(s) == Parsed(p, rest)
  {
  }

  lemma NewFilePayload(p: (Level, FileRecord), rest: seq<Byte>)
    ensures ReadNewFile(NewFileFields(p) + rest) == Parsed(p, rest)
  {
    var f := p.1;
    Regroup(Varint(p.0), Varint(f.number), Varint(f.fileSize), Slice(f.smallest), Slice(f.largest), rest);
    var s4 := Slice(f.largest) + rest;
    var s3 := Slice(f.smallest) + s4;
    var s2 := Varint(f.fileSize) + s3;
    var s1 := Varint(f.number) + s2;
    LevelReadsBack(p.0, s1);
    Word64ReadsBack(f.number, s2);
    Word64ReadsBack(f.fileSize, s3);
    SliceReadsBack(f.smallest, s4);
    SliceReadsBack(f.largest, rest);
    NewFileParsed(Varint(p.0) + s1, s1, s2, s3, s4, rest, p);
  }

  lemma Regroup(a: seq<Byte>, b: seq<Byte>, c: seq<Byte>, d: seq<Byte>, e: seq<Byte>, rest: seq<Byte>)
    ensures (a + (b + (c + (d + e)))) + rest == a + (b + (c + (d + (e + rest))))
  {
    Associate(d, e, rest);
    Associate(c, d + e, rest);
    Associate(b, c + (d + e), rest);
    Associate(a, b + (c + (d + e)), rest);
  }

  lemma NewFileDecoded(s: seq<Byte>, p: (Level, FileRecord), rest: seq<Byte>, r: EditRecord)
    requires ReadNewFile(s) == Parsed(p, rest)
    ensures DecodeField(NEW_FILE, s, r) == Parsed(r.(newFiles := r.newFiles + [p]), rest)
  {
  }

  lemma NewFileReadsBack(p: (Level, FileRecord), rest: seq<Byte>, r: EditRecord)
    ensures DecodeFields(NewFileBytes(p) + rest, r) == DecodeFields(rest, r.(newFiles := r.newFiles + [p]))
  {
    NewFilePayload(p, rest);
    NewFileDecoded(NewFileFields(p) + rest, p, rest, r);
    FieldReadsBack(NEW_FILE, NewFileFields(p), rest, r, r.(newFiles := r.newFiles + [p]));
  }

  lemma {:induction false} NewFilesReadBack(ps: seq<(Level, FileRecord)>, rest: seq<Byte>, r: EditRecord)
    ensures DecodeFields(NewFiles(ps) + rest, r) == DecodeFields(rest, r.(newFiles := r.newFiles + ps))
    decreases |ps|
  {
    if ps == [] {
      NothingReadsBack(rest);
      assert r.newFiles + ps == r.newFiles;
    } else {
      var next := r.(newFiles := r.newFiles + [ps[0]]);
      Associate(NewFileBytes(ps[0]), NewFiles(ps[1..]), rest);
      NewFileReadsBack(ps[0], NewFiles(ps[1..]) + rest, r);
      NewFilesReadBack(ps[1..], rest, next);
      HeadAndTail(r.newFiles, ps);
    }
  }

  /** A cleared edit. Clearing keeps the compaction pointers that are there. */
  function Cleared(pointers: seq<(Level, Text)>): EditRecord {
    EditRecord(None, None, None, None, None, pointers, [], [])
  }

  function BehindNumbers(r: EditRecord, rest: seq<Byte>): seq<Byte> {
    Pointers(r.compactPointers) + (Deleted(r.deletedFiles) + (NewFiles(r.newFiles) + rest))
  }

  function BehindComparator(r: EditRecord, rest: seq<Byte>): seq<Byte> {
    NumberBytes(LOG_NUMBER, r.logNumber)
    + (NumberBytes(PREV_LOG_NUMBER, r.prevLogNumber)
    + (NumberBytes(NEXT_FILE_NUMBER, r.nextFileNumber)
    + (NumberBytes(LAST_SEQUENCE, r.lastSequence) + BehindNumbers(r, rest))))
  }

  lemma EncodeWith(r: EditRecord, rest: seq<Byte>)
    ensures Encode(r) + rest == ComparatorBytes(r.comparator) + BehindComparator(r, rest)
  {
    Associate(Deleted(r.deletedFiles), NewFiles(r.newFiles), rest);
    var files := Deleted(r.deletedFiles) + NewFiles(r.newFiles);
    Associate(Pointers(r.compactPointers), files, rest);
    var t6 := Pointers(r.compactPointers) + files;
    Associate(NumberBytes(LAST_SEQUENCE, r.lastSequence), t6, rest);
    var t5 := NumberBytes(LAST_SEQUENCE, r.lastSequence) + t6;
    Associate(NumberBytes(NEXT_FILE_NUMBER, r.nextFileNumber), t5, rest);
    var t4 := NumberBytes(NEXT_FILE_NUMBER, r.nextFileNumber) + t5;
    Associate(NumberBytes(PREV_LOG_NUMBER, r.prevLogNumber), t4, rest);
    var t3 := NumberBytes(PREV_LOG_NUMBER, r.prevLogNumber) + t4;
    Associate(NumberBytes(LOG_NUMBER, r.logNumber), t3, rest);
    Associate(ComparatorBytes(r.comparator), NumberBytes(LOG_NUMBER, r.logNumber) + t3, rest);
  }

  /** Decoding goes through an encoded edit and on with what is behind it. */
  lemma EditReadsOn(r: EditRecord, before: seq<(Level, Text)>, rest: seq<Byte>)
    requires SortedPairs(r.deletedFiles)
    ensures DecodeFields(Encode(r) + rest, Cleared(before))
      == DecodeFields(rest, r.(compactPointers := before + r.compactPointers))
  {
    EncodeWith(r, rest);
    var t6 := BehindNumbers(r, rest);
    var t5 := NumberBytes(LAST_SEQUENCE, r.lastSequence) + t6;
    var t4 := NumberBytes(NEXT_FILE_NUMBER, r.nextFileNumber) + t5;
    var t3 := NumberBytes(PREV_LOG_NUMBER, r.prevLogNumber) + t4;
    var r1 := Cleared(before).(comparator := r.comparator);
    ComparatorReadsBack(r.comparator, BehindComparator(r, rest), Cleared(before));
    NumberReadsBack(LOG_NUMBER, r.logNumber, t3, r1);
    var r2 := r1.(logNumber := r.logNumber);
    NumberReadsBack(PREV_LOG_NUMBER, r.prevLogNumber, t4, r2);
    var r3 := r2.(prevLogNumber := r.prevLogNumber);
    NumberReadsBack(NEXT_FILE_NUMBER, r.nextFileNumber, t5, r3);
    var r4 := r3.(nextFileNumber := r.nextFileNumber);
    NumberReadsBack(LAST_SEQUENCE, r.lastSequence, t6, r4);
    ListsReadOn(r, r4.(lastSequence := r.lastSequence), before, rest);
  }

  lemma ListsReadOn(r: EditRecord, r5: EditRecord, before: seq<(Level, Text)>, rest: seq<Byte>)
    requires SortedPairs(r.deletedFiles) && r5 == r.(compactPointers := before, deletedFiles := [], newFiles := [])
    ensures DecodeFields(BehindNumbers(r, rest), r5)
      == DecodeFields(rest, r.(compactPointers := before + r.compactPointers))
  {
    var t8 := NewFiles(r.newFiles) + rest;
    PointersReadBack(r.compactPointers, Deleted(r.deletedFiles) + t8, r5);
    var r6 := r5.(compactPointers := before + r.compactPointers);
    assert [] + r.deletedFiles == r.deletedFiles && [] + r.newFiles == r.newFiles;
    DeletedReadsBack(r.deletedFiles, t8, r6);
    NewFilesReadBack(r.newFiles, rest, r6.(deletedFiles := r.deletedFiles));
  }

  /** What an edit decodes to in an object that had so many compaction pointers: itself when there were none. */
  lemma EditReadsBack(r: EditRecord, before: seq<(Level, Text)>)
    requires SortedPairs(r.deletedFiles)
    ensures DecodeFields(Encode(r), Cleared(before)) == Some(r.(compactPointers := before + r.compactPointers))
  {
    EditReadsOn(r, before, []);
    assert Encode(r) + [] == Encode(r);
  }

  /** A tag that none of the fields has. */
  predicate UnknownTag(tag: nat) {
    tag == 0 || tag == 8 || tag > 9
  }

  /** A manifest record with a field of another kind, wherever it comes, is refused, not skipped. */
  lemma UnknownFieldIsRefused(r: EditRecord, before: seq<(Level, Text)>, tag: Word, rest: seq<Byte>)
    requires SortedPairs(r.deletedFiles) && UnknownTag(tag)
    ensures DecodeFields(Encode(r) + (Varint(tag) + rest), Cleared(before)) == None
  {
    EditReadsOn(r, before, Varint(tag) + rest);
    Varint32ReadsBack(tag, rest);
  }

  /** And so is one that ends inside a tag. */
  lemma CutTagIsRefused(r: EditRecord, before: seq<(Level, Text)>, junk: seq<Byte>)
    requires SortedPairs(r.deletedFiles) && junk != [] && forall i :: 0 <= i < |junk| ==> junk[i] >= 128
    ensures DecodeFields(Encode(r) + junk, Cleared(before)) == None
  {
    EditReadsOn(r, before, junk);
    EndlessIsRefused(junk, 32, 0, 0);
  }

  lemma FreshReadsBack(r: EditRecord)
    requires SortedPairs(r.deletedFiles)
    ensures DecodeFields(Encode(r), Cleared([])) == Some(r)
  {
    EditReadsBack(r, []);
    assert [] + r.compactPointers == r.compactPointers;
  }

  // ---- the object ----

  method PutSlice(dst: seq<Byte>, s: Text) returns (r: seq<Byte>)
    ensures r == dst + Slice(s)
  {
    r := PutVarint32(dst, |s|);
    Associate(dst, Varint(|s|), s);
    r := r + s;
  }

  method PutNumber(dst: seq<Byte>, tag: Word, n: Option<Word64>) returns (r: seq<Byte>)
    ensures r == dst + NumberBytes(tag, n)
  {
    r := dst;
    if n.Some? {
      r := PutVarint32(r, tag);
      r := PutVarint64(r, n.value);
      Associate(dst, Varint(tag), Varint(n.value));
    }
  }

  method PutPointers(dst: seq<Byte>, ps: seq<(Level, Text)>) returns (r: seq<Byte>)
    ensures r == dst + Pointers(ps)
  {
    r := dst;
    for i := 0 to |ps|
      invariant r + Pointers(ps[i..]) == dst + Pointers(ps)
    {
      assert ps[i..][0] == ps[i] && ps[i..][1..] == ps[i + 1..];
      Five(r, Varint(COMPACT_POINTER), Varint(ps[i].0), Slice(ps[i].1), [], Pointers(ps[i + 1..]));
      r := PutVarint32(r, COMPACT_POINTER);
      r := PutVarint32(r, ps[i].0);
      r := PutSlice(r, ps[i].1);
    }
  }

  method PutDeleted(dst: seq<Byte>, ps: seq<(Level, Word64)>) returns (r: seq<Byte>)
    ensures r == dst + Deleted(ps)
  {
    r := dst;
    for i := 0 to |ps|
      invariant r + Deleted(ps[i..]) == dst + Deleted(ps)
    {
      assert ps[i..][0] == ps[i] && ps[i..][1..] == ps[i + 1..];
      Five(r, Varint(DELETED_FILE), Varint(ps[i].0), Varint(ps[i].1), [], Deleted(ps[i + 1..]));
      r := PutVarint32(r, DELETED_FILE);
      r := PutVarint32(r, ps[i].0);
      r := PutVarint64(r, ps[i].1);
    }
  }

  /** What is put behind a string piece by piece, in front of what is still to come. */
  lemma Five(r: seq<Byte>, a: seq<Byte>, b: seq<Byte>, c: seq<Byte>, d: seq<Byte>, rest: seq<Byte>)
    ensures r + ((a + (b + (c + d))) + rest) == (((r + a) + b) + (c + d)) + rest
  {
    Associate(r + a, b, c + d);
    Associate(r, a, b + (c + d));
    Associate(r, a + (b + (c + d)), rest);
  }

  method PutNewFile(dst: seq<Byte>, p: (Level, FileRecord)) returns (r: seq<Byte>)
    ensures r == dst + NewFileBytes(p)
  {
    var f := p.1;
    var a, b, c, d, e := Varint(p.0), Varint(f.number), Varint(f.fileSize), Slice(f.smallest), Slice(f.largest);
    r := PutVarint32(dst, NEW_FILE);
    Associate(dst, Varint(NEW_FILE), NewFileFields(p));
    Regroup(a, b, c, d, e, []);
    ghost var start := r;
    r := PutVarint32(r, p.0);
    r := PutVarint64(r, f.number);
    r := PutVarint64(r, f.fileSize);
    r := PutSlice(r, f.smallest);
    r := PutSlice(r, f.largest);
    Behind(start, a, b, c, d, e);
  }

  lemma Behind(r: seq<Byte>, a: seq<Byte>, b: seq<Byte>, c: seq<Byte>, d: seq<Byte>, e: seq<Byte>)
    ensures ((((r + a) + b) + c) + d) + e == r + (a + (b + (c + (d + e))))
  {
    Associate(((r + a) + b) + c, d, e);
    Associate((r + a) + b, c, d + e);
    Associate(r + a, b, c + (d + e));
    Associate(r, a, b + (c + (d + e)));
  }

  method PutNewFiles(dst: seq<Byte>, ps: seq<(Level, FileRecord)>) returns (r: seq<Byte>)
    ensures r == dst + NewFiles(ps)
  {
    r := dst;
    for i := 0 to |ps|
      invariant r + NewFiles(ps[i..]) == dst + NewFiles(ps)
    {
      assert ps[i..][0] == ps[i] && ps[i..][1..] == ps[i + 1..];
      Associate(r, NewFileBytes(ps[i]), NewFiles(ps[i + 1..]));
      r := PutNewFile(r, ps[i]);
    }
  }

  method PutComparator(dst: seq<Byte>, c: Option<Text>) returns (r: seq<Byte>)
    ensures r == dst + ComparatorBytes(c)
  {
    r := dst;
    if c.Some? {
      r := PutVarint32(r, COMPARATOR);
      r := PutSlice(r, c.value);
      Associate(dst, Varint(COMPARATOR), Slice(c.value));
    }
  }

  class EditObject {
    var record: EditRecord

    constructor ()
      ensures record == Cleared([])
    {
      record := Cleared([]);
    }

    /** Leaves the compaction pointers, as the source does. */
    method Clear()
      modifies this
      ensures record == Cleared(old(record.compactPointers))
    {
      record := Cleared(record.compactPointers);
    }

    method DeleteFile(level: Level, number: Word64)
      modifies this
      ensures record == old(record).(deletedFiles := InsertPair(old(record.deletedFiles), (level, number)))
    {
      record := record.(deletedFiles := InsertPair(record.deletedFiles, (level, number)));
    }

    method AddFile(level: Level, file: FileRecord)
      modifies this
      ensures record == old(record).(newFiles := old(record.newFiles) + [(level, file)])
    {
      record := record.(newFiles := record.newFiles + [(level, file)]);
    }

    method EncodeTo(dst: seq<Byte>) returns (r: seq<Byte>)
      ensures r == dst + Encode(record)
    {
      r := PutComparator(dst, record.comparator);
      r := PutNumber(r, LOG_NUMBER, record.logNumber);
      r := PutNumber(r, PREV_LOG_NUMBER, record.prevLogNumber);
      r := PutNumber(r, NEXT_FILE_NUMBER, record.nextFileNumber);
      r := PutNumber(r, LAST_SEQUENCE, record.lastSequence);
      r := PutPointers(r, record.compactPointers);
      r := PutDeleted(r, record.deletedFiles);
      r := PutNewFiles(r, record.newFiles);
      InOneRow(dst, record);
    }

    /** Some(message) when the bytes are not an edit. */
    method DecodeFrom(src: seq<Byte>) returns (error: Option<string>)
      modifies this
      ensures error.None? <==> DecodeFields(src, Cleared(old(record.compactPointers))).Some?
      ensures error.None? ==> Some(record) == DecodeFields(src, Cleared(old(record.compactPointers)))
    {
      Clear();
      var input := src;
      ghost var outcome := DecodeFields(src, record);
      var tag := GetVarint(input, 32);
      while tag.Parsed?
        invariant tag == Read32(input) && outcome == DecodeFields(input, record)
        decreases |input|
      {
        var message;
        message, input := DecodeOneField(tag.value, tag.rest);
        if message.Some? {
          return message;
        }
        tag := GetVarint(input, 32);
      }
      return if input == [] then None else Some("invalid tag");
    }

    method DecodeOneField(tag: nat, s: seq<Byte>) returns (error: Option<string>, rest: seq<Byte>)
      modifies this
      ensures error.None? <==> DecodeField(tag, s, old(record)).Parsed?
      ensures error.None? ==> Parsed(record, rest) == DecodeField(tag, s, old(record))
    {
      error, rest := None, s;
      if tag == COMPARATOR {
        var v := GetSlice(s);
        if v.Parsed? {
          record, rest := record.(comparator := Some(v.value)), v.rest;
        } else {
          error := Some("comparator name");
        }
      } else if tag == LOG_NUMBER || tag == PREV_LOG_NUMBER || tag == NEXT_FILE_NUMBER || tag == LAST_SEQUENCE {
        var v := GetNumber(s);
        if v.Parsed? {
          record, rest := WithNumber(tag, record, Some(v.value)), v.rest;
        } else {
          error := Some(if tag == LOG_NUMBER then "log number" else if tag == PREV_LOG_NUMBER then "previous log number"
                        else if tag == NEXT_FILE_NUMBER then "next file number" else "last sequence number");
        }
      } else if tag == COMPACT_POINTER {
        var v := GetPointer(s);
        if v.Parsed? {
          record, rest := record.(compactPointers := record.compactPointers + [v.value]), v.rest;
        } else {
          error := Some("compaction pointer");
        }
      } else if tag == DELETED_FILE {
        var v := GetDeleted(s);
        if v.Parsed? {
          record, rest := record.(deletedFiles := InsertPair(record.deletedFiles, v.value)), v.rest;
        } else {
          error := Some("deleted file");
        }
      } else if tag == NEW_FILE {
        var v := GetNewFile(s);
        if v.Parsed? {
          record, rest := record.(newFiles := record.newFiles + [v.value]), v.rest;
        } else {
          error := Some("new-file entry");
        }
      } else {
        error := Some("unknown tag");
      }
    }
  }

  method GetNumber(s: seq<Byte>) returns (r: Parsed<Word64>)
    ensures r == Read64(s)
  {
    var v := GetVarint(s, 64);
    r := if v.Malformed? then Malformed else Parsed(v.value % 0x1_0000_0000_0000_0000, v.rest);
  }

  method GetSlice(s: seq<Byte>) returns (r: Parsed<Text>)
    ensures r == ReadSlice(s)
  {
    var length := GetVarint(s, 32);
    if length.Malformed? || |length.rest| < length.value || length.value >= 0x1_0000_0000 {
      return Malformed;
    }
    return Parsed(length.rest[..length.value], length.rest[length.value..]);
  }

  method GetLevel(s: seq<Byte>) returns (r: Parsed<Level>)
    ensures r == ReadLevel(s)
  {
    var level := GetVarint(s, 32);
    r := if level.Parsed? && level.value < Versions.NUM_LEVELS then Parsed(level.value, level.rest) else Malformed;
  }

  method GetPointer(s: seq<Byte>) returns (r: Parsed<(Level, Text)>)
    ensures r == ReadPointer(s)
  {
    var level := GetLevel(s);
    if level.Malformed? {
      return Malformed;
    }
    var key := GetSlice(level.rest);
    r := if key.Malformed? then Malformed else Parsed((level.value, key.value), key.rest);
  }

  method GetDeleted(s: seq<Byte>) returns (r: Parsed<(Level, Word64)>)
    ensures r == ReadDeleted(s)
  {
    var level := GetLevel(s);
    if level.Malformed? {
      return Malformed;
    }
    var number := GetNumber(level.rest);
    r := if number.Malformed? then Malformed else Parsed((level.value, number.value), number.rest);
  }

  method GetNewFile(s: seq<Byte>) returns (r: Parsed<(Level, FileRecord)>)
    ensures r == ReadNewFile(s)
  {
    var level := GetLevel(s);
    if level.Malformed? {
      return Malformed;
    }
    var number := GetNumber(level.rest);
    if number.Malformed? {
      return Malformed;
    }
    var fileSize := GetNumber(number.rest);
    if fileSize.Malformed? {
      return Malformed;
    }
    var smallest := GetSlice(fileSize.rest);
    if smallest.Malformed? {
      return Malformed;
    }
    var largest := GetSlice(smallest.rest);
    r := if largest.Malformed? then Malformed
         else Parsed((level.value, FileRecord(number.value, fileSize.value, smallest.value, largest.value)),
           largest.rest);
  }

  lemma InOneRow(dst: seq<Byte>, r: EditRecord)
    ensures dst + ComparatorBytes(r.comparator) + NumberBytes(LOG_NUMBER, r.logNumber)
        + NumberBytes(PREV_LOG_NUMBER, r.prevLogNumber) + NumberBytes(NEXT_FILE_NUMBER, r.nextFileNumber)
        + NumberBytes(LAST_SEQUENCE, r.lastSequence) + Pointers(r.compactPointers) + Deleted(r.deletedFiles)
        + NewFiles(r.newFiles)
      == dst + Encode(r)
  {
    var a, b, c := ComparatorBytes(r.comparator), NumberBytes(LOG_NUMBER, r.logNumber),
      NumberBytes(PREV_LOG_NUMBER, r.prevLogNumber);
    var d, e := NumberBytes(NEXT_FILE_NUMBER, r.nextFileNumber), NumberBytes(LAST_SEQUENCE, r.lastSequence);
    var f, g, h := Pointers(r.compactPointers), Deleted(r.deletedFiles), NewFiles(r.newFiles);
    Associate(dst + a + b + c + d + e + f, g, h);
    Associate(dst + a + b + c + d + e, f, g + h);
    Behind(dst, a, b, c, d, e + (f + (g + h)));
    Associate(dst + a + b + c + d, e, f + (g + h));
  }
}
