/** A manifest file from end to end: edits written as log records, the file cut off at any byte by a crash, and
    the version that recovery makes of what is left (LogAndApply and Recover of db/version_set.cc). */
module ManifestFile {
  import opened Basics
  import opened Checksums
  import opened InternalKeys
  import opened Versions
  import opened VersionBuilder
  import opened Install
  import opened ManifestReplay
  import opened LogReader
  import opened LogRoundTrip
  import Records = EditRecords

  /** How the bytes of a record are understood: the key that a byte string stands for, and the entries of the
      table with a number. */
  datatype Reading = Reading(key: seq<Byte> -> InternalKey, entries: nat -> seq<Entry>)

  function FileFrom(reading: Reading, f: Records.FileRecord): FileMetaData {
    FileMetaData(f.number, f.fileSize, reading.key(f.smallest), reading.key(f.largest), reading.entries(f.number))
  }

  function NewFileFrom(reading: Reading, p: (Records.Level, Records.FileRecord)): (nat, FileMetaData) {
    (p.0, FileFrom(reading, p.1))
  }

  function PointerFrom(reading: Reading, p: (Records.Level, Records.Text)): (nat, InternalKey) {
    (p.0, reading.key(p.1))
  }

  function EditFrom(reading: Reading, r: Records.EditRecord): VersionEdit {
    VersionEdit(
      seq(|r.compactPointers|, i requires 0 <= i < |r.compactPointers| => PointerFrom(reading, r.compactPointers[i])),
      (set p | p in r.deletedFiles :: (p.0 as nat, p.1 as nat)),
      seq(|r.newFiles|, i requires 0 <= i < |r.newFiles| => NewFileFrom(reading, r.newFiles[i])))
  }

  function EditsFrom(reading: Reading, rs: seq<Records.EditRecord>): seq<VersionEdit> {
    seq(|rs|, i requires 0 <= i < |rs| => EditFrom(reading, rs[i]))
  }

  function Encodings(rs: seq<Records.EditRecord>): seq<seq<Byte>> {
    seq(|rs|, i requires 0 <= i < |rs| => Records.Encode(rs[i]))
  }

  lemma EncodingsPrefix(rs: seq<Records.EditRecord>, count: nat)
    requires count <= |rs|
    ensures Encodings(rs)[..count] == Encodings(rs[..count])
  {
  }

  // ---- the numbers in the records ----

  /** What the records so far have said of each number. */
  datatype ManifestNumbers = ManifestNumbers(
    logNumber: Option<Records.Word64>, prevLogNumber: Option<Records.Word64>, nextFile: Option<Records.Word64>,
    lastSequence: Option<Records.Word64>)

  const NO_NUMBERS := ManifestNumbers(None, None, None, None)

  function Latest(before: Option<Records.Word64>, now: Option<Records.Word64>): Option<Records.Word64> {
    if now.Some? then now else before
  }

  function AfterRecord(n: ManifestNumbers, r: Records.EditRecord): ManifestNumbers {
    ManifestNumbers(Latest(n.logNumber, r.logNumber), Latest(n.prevLogNumber, r.prevLogNumber),
            Latest(n.nextFile, r.nextFileNumber), Latest(n.lastSequence, r.lastSequence))
  }

  function AfterRecords(rs: seq<Records.EditRecord>): ManifestNumbers {
    if rs == [] then NO_NUMBERS else AfterRecord(AfterRecords(rs[..|rs| - 1]), rs[|rs| - 1])
  }

  /** Recovery does without the number of the previous log. */
  predicate Complete(n: ManifestNumbers) {
    n.logNumber.Some? && n.nextFile.Some? && n.lastSequence.Some?
  }

  // ---- decoding records ----

  predicate SameComparator(comparator: Records.Text, r: Records.EditRecord) {
    r.comparator.Some? ==> r.comparator.value == comparator
  }

  /** Every record is an edit, made with the same comparator. */
  function DecodeAll(comparator: Records.Text, bytes: seq<seq<Byte>>): Option<seq<Records.EditRecord>> {
    if bytes == [] then Some([])
    else
      var front, last := DecodeAll(comparator, bytes[..|bytes| - 1]),
        Records.DecodeFields(bytes[|bytes| - 1], Records.Cleared([]));
      if front.Some? && last.Some? && SameComparator(comparator, last.value) then Some(front.value + [last.value])
      else None
  }

  lemma {:induction false} OneBadRecord(comparator: Records.Text, bytes: seq<seq<Byte>>, n: nat)
    requires n <= |bytes| && DecodeAll(comparator, bytes[..n]).None?
    ensures DecodeAll(comparator, bytes).None?
  {
    if n == |bytes| {
      assert bytes[..n] == bytes;
    } else {
      assert bytes[..|bytes| - 1][..n] == bytes[..n];
      OneBadRecord(comparator, bytes[..|bytes| - 1], n);
    }
  }

  /** What a record is decoded as; None if it is not an edit made with the comparator. */
  function DecodeOne(comparator: Records.Text, bytes: seq<Byte>): Option<Records.EditRecord> {
    match Records.DecodeFields(bytes, Records.Cleared([]))
    case None => None
    case Some(r) => if SameComparator(comparator, r) then Some(r) else None
  }

  /** One record, decoded into a new edit. */
  method DecodeRecord(comparator: Records.Text, bytes: seq<Byte>)
    returns (error: Option<string>, r: Option<Records.EditRecord>)
    ensures r == DecodeOne(comparator, bytes) && (error.None? <==> r.Some?)
  {
    var edit := new Records.EditObject();
    error := edit.DecodeFrom(bytes);
    if error.None? && !SameComparator(comparator, edit.record) {
      error := Some("does not match existing comparator");
    }
    r := if error.None? then Some(edit.record) else None;
  }

  lemma OneMoreDecoded(comparator: Records.Text, bytes: seq<seq<Byte>>, i: nat, rs: seq<Records.EditRecord>)
    requires i < |bytes| && DecodeAll(comparator, bytes[..i]) == Some(rs)
    ensures DecodeAll(comparator, bytes[..i + 1]) ==
            match DecodeOne(comparator, bytes[i])
            case None => None
            case Some(r) => Some(rs + [r])
    ensures forall r :: AfterRecords(rs + [r]) == AfterRecord(AfterRecords(rs), r)
  {
    assert bytes[..i + 1][..i] == bytes[..i];
    forall r ensures AfterRecords(rs + [r]) == AfterRecord(AfterRecords(rs), r) {
      assert (rs + [r])[..|rs|] == rs;
    }
  }

  /** Decodes record by record, with a new edit each, and gives up at the first that is not an edit or was made with
      another comparator. */
  method DecodeRecords(comparator: Records.Text, bytes: seq<seq<Byte>>)
    returns (error: Option<string>, rs: seq<Records.EditRecord>, numbers: ManifestNumbers)
    ensures error.None? <==> DecodeAll(comparator, bytes).Some?
    ensures error.None? ==> DecodeAll(comparator, bytes) == Some(rs) && numbers == AfterRecords(rs)
  {
    error, rs, numbers := None, [], NO_NUMBERS;
    for i := 0 to |bytes|
      invariant error.None? && DecodeAll(comparator, bytes[..i]) == Some(rs) && numbers == AfterRecords(rs)
    {
      OneMoreDecoded(comparator, bytes, i, rs);
      var r;
      error, r := DecodeRecord(comparator, bytes[i]);
      if error.Some? {
        OneBadRecord(comparator, bytes, i + 1);
        return;
      }
      rs, numbers := rs + [r.value], AfterRecord(numbers, r.value);
    }
    assert bytes[..|bytes|] == bytes;
  }

  predicate AcceptedAs(decoded: Option<seq<Records.EditRecord>>) {
    decoded.Some? && Complete(AfterRecords(decoded.value))
  }

  datatype ManifestRead = Refused(message: string) | Read(records: seq<Records.EditRecord>, numbers: ManifestNumbers)

  /** Reads any file as a manifest: it is refused if the log reader reports something, if a record is not an edit
      made with the same comparator, or if one of three numbers is in no record. */
  method ReadManifest(crc: Checksum, comparator: Records.Text, file: seq<Byte>) returns (r: ManifestRead)
    ensures var (bytes, state) := AllRecords(crc, file, Start());
      && (r.Read? <==> state.reports == 0 && AcceptedAs(DecodeAll(comparator, bytes)))
      && (r.Read? ==> DecodeAll(comparator, bytes) == Some(r.records) && r.numbers == AfterRecords(r.records))
  {
    var bytes, reports := ReadAll(crc, file);
    if reports > 0 {
      return Refused("corruption");
    }
    var error, rs, numbers := DecodeRecords(comparator, bytes);
    if error.Some? {
      return Refused(error.value);
    }
    if numbers.nextFile.None? {
      return Refused("no meta-nextfile entry in descriptor");
    } else if numbers.logNumber.None? {
      return Refused("no meta-lognumber entry in descriptor");
    } else if numbers.lastSequence.None? {
      return Refused("no last-sequence-number entry in descriptor");
    }
    return Read(rs, numbers);
  }

  // ---- what LogAndApply has written ----

  /** The records stand for the edits. */
  ghost predicate Describe(reading: Reading, comparator: Records.Text, rs: seq<Records.EditRecord>,
                           edits: seq<VersionEdit>) {
    EditsFrom(reading, rs) == edits && AllFit(comparator, rs)
  }

  ghost predicate AllFit(comparator: Records.Text, rs: seq<Records.EditRecord>) {
    forall r :: r in rs ==> Records.SortedPairs(r.deletedFiles) && SameComparator(comparator, r)
  }

  /** LogAndApply puts all four numbers into its record; the snapshot in front may be without. The next file number
      is the counter's at the time. */
  ghost predicate Numbered(rs: seq<Records.EditRecord>, counters: seq<nat>, k: nat) {
    && k + |rs| <= |counters|
    && (forall i :: 0 < i < |rs| ==> HasNumbers(rs[i]) && rs[i].prevLogNumber.Some?)
    && forall i :: 0 <= i < |rs| && rs[i].nextFileNumber.Some? ==> rs[i].nextFileNumber.value == counters[k + i]
  }

  predicate HasNumbers(r: Records.EditRecord) {
    r.logNumber.Some? && r.nextFileNumber.Some? && r.lastSequence.Some?
  }

  function NumbersOf(r: Records.EditRecord): ManifestNumbers {
    ManifestNumbers(r.logNumber, r.prevLogNumber, r.nextFileNumber, r.lastSequence)
  }

  /** The numbers that stand are those of the last record. */
  lemma LastNumbersStand(rs: seq<Records.EditRecord>, counters: seq<nat>, k: nat, count: nat)
    requires Numbered(rs, counters, k) && 0 < count <= |rs|
    ensures AfterRecords(rs[..count]) == NumbersOf(rs[count - 1])
  {
    assert rs[..count][..count - 1] == rs[..count - 1];
    if count == 1 {
      assert rs[..1][..0] == [];
    }
  }

  /** The encoded records decode to the records, for an opened list. */
  ghost predicate ReadsBack(comparator: Records.Text, rs: seq<Records.EditRecord>) {
    forall x: seq<Records.EditRecord> {:trigger Opened(x)} ::
      Opened(x) && x == rs ==> DecodeAll(comparator, Encodings(x)) == Some(x)
  }

  lemma OneMoreReadsBack(comparator: Records.Text, rs: seq<Records.EditRecord>, r: Records.EditRecord)
    requires ReadsBack(comparator, rs)
    requires Records.SortedPairs(r.deletedFiles) && SameComparator(comparator, r)
    ensures ReadsBack(comparator, rs + [r])
  {
    assert Opened(rs);
    Records.FreshReadsBack(r);
    EncodingsPrefix(rs + [r], |rs|);
    assert (rs + [r])[..|rs|] == rs;
  }

  lemma {:induction false} RecordsReadBack(comparator: Records.Text, rs: seq<Records.EditRecord>)
    requires AllFit(comparator, rs)
    ensures ReadsBack(comparator, rs)
  {
    if rs == [] {
      assert Encodings(rs) == [];
    } else {
      var front, last := rs[..|rs| - 1], rs[|rs| - 1];
      RecordsReadBack(comparator, front);
      OneMoreReadsBack(comparator, front, last);
      assert rs == front + [last];
    }
  }

  /** What a manifest has come from: its records, and the versions, file number counters and steps of the database,
      of which it holds those from the k-th version on. */
  datatype Past = Past(
    rs: seq<Records.EditRecord>, versions: seq<Version>, counters: seq<nat>, steps: seq<InstallStep>, k: nat)

  /** The records of a run of installs, which is only looked into for an opened past. */
  ghost predicate Recorded(reading: Reading, comparator: Records.Text, p: Past) {
    forall x: Past {:trigger Opened(x)} :: Opened(x) && x == p ==> RecordsItsRun(reading, comparator, x)
  }

  ghost predicate RecordsItsRun(reading: Reading, comparator: Records.Text, p: Past) {
    && History(p.versions, p.counters, p.steps) && p.k <= |p.steps|
    && Describe(reading, comparator, p.rs, Manifest(p.versions, p.steps, p.k, |p.steps|))
    && Numbered(p.rs, p.counters, p.k)
  }

  /** So many records are wholly in the file. */
  ghost predicate WholeRecords(crc: Checksum, rs: seq<Records.EditRecord>, file: seq<Byte>, count: nat) {
    && count <= |rs| && |Written(crc, Encodings(rs)[..count])| <= |file|
    && (count < |rs| ==> |file| < |Written(crc, Encodings(rs)[..count + 1])|)
  }

  /** Their number is determined by the file. */
  lemma OneCount(crc: Checksum, rs: seq<Records.EditRecord>, file: seq<Byte>, a: nat, b: nat)
    requires WholeRecords(crc, rs, file, a) && WholeRecords(crc, rs, file, b)
    ensures a == b
  {
    if a != b {
      var less, more := if a < b then a else b, if a < b then b else a;
      assert Encodings(rs)[..more][..less + 1] == Encodings(rs)[..less + 1];
      WrittenGrows(crc, Encodings(rs)[..more], less + 1);
    }
  }

  lemma PrefixReadsBack(reading: Reading, comparator: Records.Text, p: Past, count: nat)
    requires Recorded(reading, comparator, p) && count <= |p.rs|
    ensures DecodeAll(comparator, Encodings(p.rs)[..count]) == Some(p.rs[..count])
  {
    assert Opened(p) && RecordsItsRun(reading, comparator, p);
    EncodingsPrefix(p.rs, count);
    RecordsReadBack(comparator, p.rs[..count]);
    assert Opened(p.rs[..count]);
  }

  /** A file cut off anywhere reads as the records wholly inside it. */
  lemma CutManifestReads(crc: Checksum, reading: Reading, comparator: Records.Text, file: seq<Byte>, p: Past)
    returns (count: nat)
    requires Recorded(reading, comparator, p) && file <= Written(crc, Encodings(p.rs))
    ensures WholeRecords(crc, p.rs, file, count)
    ensures AllRecords(crc, file, Start()).1.reports == 0
    ensures DecodeAll(comparator, AllRecords(crc, file, Start()).0) == Some(p.rs[..count])
  {
    assert file == Written(crc, Encodings(p.rs))[..|file|];
    count := CutLogReadsBack(crc, Encodings(p.rs), |file|);
    PrefixReadsBack(reading, comparator, p, count);
  }

  /** They are refused only for want of numbers. */
  lemma WhatIsLeft(reading: Reading, comparator: Records.Text, p: Past, count: nat)
    requires Recorded(reading, comparator, p) && count <= |p.rs|
    ensures AcceptedAs(Some(p.rs[..count])) <==> count > 0 && HasNumbers(p.rs[count - 1])
    ensures count > 0 ==> AfterRecords(p.rs[..count]) == NumbersOf(p.rs[count - 1])
  {
    assert Opened(p) && RecordsItsRun(reading, comparator, p);
    if count > 0 {
      LastNumbersStand(p.rs, p.counters, p.k, count);
    }
  }

  // ---- recovery ----

  datatype Recovered = Recovered(
    version: Version, pointers: Pointers, logNumber: nat, prevLogNumber: nat, manifestFile: nat, nextFile: nat,
    lastSequence: nat)

  datatype Recovery = Failed(message: string) | Ready(db: Recovered)

  /** The numbers are those of the record. */
  ghost predicate NumberedBy(db: Recovered, r: Records.EditRecord) {
    && HasNumbers(r) && db.logNumber == r.logNumber.value && db.lastSequence == r.lastSequence.value
    && db.manifestFile == r.nextFileNumber.value && db.nextFile == db.manifestFile + 1
    && db.prevLogNumber == if r.prevLogNumber.Some? then r.prevLogNumber.value else 0
  }

  /** Version and compaction pointers are those after n steps, and all file numbers in use come before the new
      manifest's. */
  ghost predicate StandsAt(db: Recovered, p: Past, n: nat) {
    && n <= |p.steps| < |p.versions| && db.version == p.versions[n] && db.pointers == PointersAt(p.steps, n)
    && LiveBelow(db.version, db.manifestFile)
  }

  /** What comes of the first `count` records. */
  ghost predicate RecoveredAs(recovery: Recovery, p: Past, count: nat)
    requires count <= |p.rs|
  {
    && (recovery.Ready? <==> count > 0 && HasNumbers(p.rs[count - 1]))
    && (recovery.Ready? ==>
         NumberedBy(recovery.db, p.rs[count - 1]) && StandsAt(recovery.db, p, p.k + count - 1))
  }

  /** Recovery of a manifest that was cut off after any byte: the version, the compaction pointers and the numbers
      as the last edit that is wholly in the file has left them. It fails only if no edit is, or just a snapshot
      without numbers. */
  method RecoverFile(crc: Checksum, reading: Reading, comparator: Records.Text, file: seq<Byte>, ghost p: Past)
    returns (recovery: Recovery)
    requires Recorded(reading, comparator, p) && file <= Written(crc, Encodings(p.rs))
    ensures exists count :: WholeRecords(crc, p.rs, file, count) && RecoveredAs(recovery, p, count)
  {
    ghost var count := CutManifestReads(crc, reading, comparator, file, p);
    recovery := RecoverRecords(crc, reading, comparator, file, p, count);
    assert WholeRecords(crc, p.rs, file, count) && RecoveredAs(recovery, p, count);
  }

  method RecoverRecords(crc: Checksum, reading: Reading, comparator: Records.Text, file: seq<Byte>, ghost p: Past,
                        ghost count: nat)
    returns (recovery: Recovery)
    requires Recorded(reading, comparator, p) && count <= |p.rs|
    requires AllRecords(crc, file, Start()).1.reports == 0
    requires DecodeAll(comparator, AllRecords(crc, file, Start()).0) == Some(p.rs[..count])
    ensures RecoveredAs(recovery, p, count)
  {
    WhatIsLeft(reading, comparator, p, count);
    var read := ReadManifest(crc, comparator, file);
    match read
    case Refused(message) =>
      recovery := Failed(message);
    case Read(records, numbers) =>
      var v, pointers := ReplayRecords(reading, comparator, records, p, count);
      var prevLogNumber := if numbers.prevLogNumber.Some? then numbers.prevLogNumber.value else 0;
      recovery := Ready(Recovered(v, pointers, numbers.logNumber.value, prevLogNumber, numbers.nextFile.value,
        numbers.nextFile.value + 1, numbers.lastSequence.value));
      ReplayNumber(reading, comparator, p, count);
  }

  /** Replays as many records as are left of a manifest. */
  method ReplayRecords(reading: Reading, comparator: Records.Text, records: seq<Records.EditRecord>, ghost p: Past,
                       ghost count: nat)
    returns (v: Version, pointers: Pointers)
    requires Recorded(reading, comparator, p) && 0 < count <= |p.rs| && records == p.rs[..count]
    ensures p.k + count - 1 <= |p.steps| < |p.versions|
    ensures v == p.versions[p.k + count - 1] && pointers == PointersAt(p.steps, p.k + count - 1)
  {
    ghost var n := ReplayEdits(reading, comparator, p, count);
    v, pointers := RecoverPast(EditsFrom(reading, records), p, n);
  }

  /** A manifest of a past run is replayed up to one of its versions. */
  ghost predicate LeadsTo(edits: seq<VersionEdit>, p: Past, n: nat) {
    && History(p.versions, p.counters, p.steps)
    && p.k <= n <= |p.steps| < |p.versions| && edits == Manifest(p.versions, p.steps, p.k, n)
  }

  method RecoverPast(edits: seq<VersionEdit>, ghost p: Past, ghost n: nat) returns (v: Version, pointers: Pointers)
    requires LeadsTo(edits, p, n)
    ensures n <= |p.steps| < |p.versions| && v == p.versions[n] && pointers == PointersAt(p.steps, n)
  {
    v, pointers := RecoverManifest(edits, p.versions, p.counters, p.steps, p.k, n);
  }

  lemma ReplayEdits(reading: Reading, comparator: Records.Text, p: Past, count: nat) returns (n: nat)
    requires Recorded(reading, comparator, p) && 0 < count <= |p.rs|
    ensures n == p.k + count - 1 && LeadsTo(EditsFrom(reading, p.rs[..count]), p, n)
  {
    n := p.k + count - 1;
    assert Opened(p) && RecordsItsRun(reading, comparator, p);
    EditsPrefix(reading, p.rs, count);
    ManifestPrefix(p.versions, p.steps, p.k, count);
  }

  lemma ReplayNumber(reading: Reading, comparator: Records.Text, p: Past, count: nat)
    requires Recorded(reading, comparator, p) && 0 < count <= |p.rs| && p.k + count - 1 < |p.versions|
    ensures p.rs[count - 1].nextFileNumber.Some? ==>
      LiveBelow(p.versions[p.k + count - 1], p.rs[count - 1].nextFileNumber.value)
  {
    assert Opened(p) && RecordsItsRun(reading, comparator, p);
    NumbersAreNew(p.rs, p.versions, p.counters, p.steps, p.k, count - 1);
  }

  lemma EditsPrefix(reading: Reading, rs: seq<Records.EditRecord>, count: nat)
    requires count <= |rs|
    ensures EditsFrom(reading, rs[..count]) == EditsFrom(reading, rs)[..count]
  {
  }

  lemma NumbersAreNew(rs: seq<Records.EditRecord>, versions: seq<Version>, counters: seq<nat>,
                      steps: seq<InstallStep>, k: nat, i: nat)
    requires History(versions, counters, steps) && Numbered(rs, counters, k) && i < |rs|
    ensures rs[i].nextFileNumber.Some? ==> LiveBelow(versions[k + i], rs[i].nextFileNumber.value)
  {
    RunLiveBelow(versions, counters, steps, k + i);
  }

  lemma ManifestPrefix(versions: seq<Version>, steps: seq<InstallStep>, k: nat, count: nat)
    requires k <= |steps| < |versions| && 0 < count <= |steps| - k + 1
    ensures Manifest(versions, steps, k, |steps|)[..count] == Manifest(versions, steps, k, k + count - 1)
  {
    assert Edits(steps[k..])[..count - 1] == Edits(steps[k..k + count - 1]);
    assert steps[k..|steps|] == steps[k..];
  }
}
