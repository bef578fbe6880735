/** Rebuilding the current version from the manifest (VersionSet::Recover and
    WriteSnapshot in contrib/leveldb/db/version_set.cc). */
module ManifestRecovery {
  import opened Options
  import opened Bytes
  import opened VersionFiles
  import opened VersionBuilder
  import opened LogReader
  import opened LogRoundTrip
  import M = ManifestFormat
  import opened VersionEdits

  type Bytestring = seq<Byte>

  /** The change to the files that an edit makes. */
  function ToEdit(e: EditData, table: M.FileMeta -> File): Edit {
    Edit(set d | d in e.deletedFiles, seq(|e.newFiles|, i requires 0 <= i < |e.newFiles| => (e.newFiles[i].0, table(e.newFiles[i].1))))
  }

  function ToEdits(es: seq<EditData>, table: M.FileMeta -> File): (r: seq<Edit>)
    ensures |r| == |es|
  {
    seq(|es|, i requires 0 <= i < |es| => ToEdit(es[i], table))
  }

  function Records(es: seq<EditData>): (r: seq<Bytestring>)
    ensures |r| == |es|
  {
    seq(|es|, i requires 0 <= i < |es| => EncodeEdit(es[i]))
  }

  // The last value some edit gives.
  function Last(values: seq<Option<nat>>): Option<nat> {
    if values == [] then None
    else if values[|values| - 1].Some? then values[|values| - 1]
    else Last(values[..|values| - 1])
  }

  function LogNumbers(es: seq<EditData>): (r: seq<Option<nat>>)
    ensures |r| == |es|
  {
    seq(|es|, i requires 0 <= i < |es| => es[i].logNumber)
  }

  function PrevLogNumbers(es: seq<EditData>): (r: seq<Option<nat>>)
    ensures |r| == |es|
  {
    seq(|es|, i requires 0 <= i < |es| => es[i].prevLogNumber)
  }

  function NextFiles(es: seq<EditData>): (r: seq<Option<nat>>)
    ensures |r| == |es|
  {
    seq(|es|, i requires 0 <= i < |es| => es[i].nextFileNumber)
  }

  function LastSequences(es: seq<EditData>): (r: seq<Option<nat>>)
    ensures |r| == |es|
  {
    seq(|es|, i requires 0 <= i < |es| => es[i].lastSequence)
  }

  /** The numbers recorded so far. */
  datatype RecordedNumbers = RecordedNumbers(
    logNumber: Option<nat>, prevLogNumber: Option<nat>, nextFile: Option<nat>, lastSequence: Option<nat>)

  function NumbersOf(es: seq<EditData>): RecordedNumbers {
    RecordedNumbers(Last(LogNumbers(es)), Last(PrevLogNumbers(es)), Last(NextFiles(es)), Last(LastSequences(es)))
  }

  function Update(n: RecordedNumbers, e: EditData): RecordedNumbers {
    RecordedNumbers(if e.logNumber.Some? then e.logNumber else n.logNumber,
            if e.prevLogNumber.Some? then e.prevLogNumber else n.prevLogNumber,
            if e.nextFileNumber.Some? then e.nextFileNumber else n.nextFile,
            if e.lastSequence.Some? then e.lastSequence else n.lastSequence)
  }

  lemma NumbersOneMore(es: seq<EditData>, k: nat)
    requires k < |es|
    ensures NumbersOf(es[..k + 1]) == Update(NumbersOf(es[..k]), es[k])
  {
    var a, b := es[..k], es[..k + 1];
    assert LogNumbers(b)[..k] == LogNumbers(a) && PrevLogNumbers(b)[..k] == PrevLogNumbers(a);
    assert NextFiles(b)[..k] == NextFiles(a) && LastSequences(b)[..k] == LastSequences(a);
  }

  lemma NumbersOfNone()
    ensures NumbersOf([]) == RecordedNumbers(None, None, None, None)
  {
  }

  /** No edit names another comparator. */
  predicate SameComparator(es: seq<EditData>, name: Bytestring) {
    forall i :: 0 <= i < |es| ==> es[i].comparator.None? || es[i].comparator == Some(name)
  }

  // Levels of decoded edits are levels of a version.
  ghost predicate LevelsOk(e: EditData) {
    (forall d :: d in e.deletedFiles ==> d.0 < NUM_LEVELS) && (forall n :: n in e.newFiles ==> n.0 < NUM_LEVELS)
  }

  lemma {:induction false} DecodedLevels(b: Bytestring, e: EditData)
    requires LevelsOk(e) && DecodeFields(b, e).Some?
    ensures LevelsOk(DecodeFields(b, e).value)
    decreases |b|
  {
    hide M.ReadField;
    if b != [] {
      var f := M.ReadField(b).value;
      FieldLevels(b);
      DecodedLevels(b[f.size..], Set(e, f.value));
    }
  }

  lemma FieldLevels(b: Bytestring)
    requires M.ReadField(b).Some?
    ensures
      var f := M.ReadField(b).value.value;
      && (f.DeletedFile? ==> f.level < NUM_LEVELS) && (f.NewFile? ==> f.level < NUM_LEVELS)
  {
  }

  lemma EditIsValid(e: EditData, table: M.FileMeta -> File)
    requires LevelsOk(e)
    ensures ToEdit(e, table).Valid()
  {
    forall a | a in ToEdit(e, table).added
      ensures a.0 < NUM_LEVELS
    {
      var i :| 0 <= i < |e.newFiles| && ToEdit(e, table).added[i] == a;
      assert e.newFiles[i] in e.newFiles;
    }
  }

  /** The edits in the records, up to the first that does not decode. */
  function Decoded(records: seq<Bytestring>): (es: seq<EditData>)
    ensures |es| <= |records|
  {
    if records == [] || DecodeFields(records[0], EMPTY).None? then []
    else [DecodeFields(records[0], EMPTY).value] + Decoded(records[1..])
  }

  lemma {:induction false} DecodedAt(records: seq<Bytestring>, k: nat)
    requires k < |records| && k <= |Decoded(records)|
    ensures if k < |Decoded(records)| then DecodeFields(records[k], EMPTY) == Some(Decoded(records)[k])
      else DecodeFields(records[k], EMPTY).None?
  {
    hide DecodeFields;
    if k > 0 {
      DecodedAt(records[1..], k - 1);
    }
  }

  // What was written decodes to what it says.
  lemma {:induction false} WrittenDecodes(es: seq<EditData>)
    requires forall e :: e in es ==> EditOk(e)
    ensures Decoded(Records(es)) == es
  {
    hide DecodeFields;
    hide EncodeEdit;
    hide EditOk;
    if es != [] {
      assert es[0] in es && forall e :: e in es[1..] ==> e in es;
      EditReadsBack(es[0]);
      assert Records(es)[1..] == Records(es[1..]);
      WrittenDecodes(es[1..]);
    }
  }

  /** The builder after the first k edits. */
  ghost predicate Built(b: Builder, edits: seq<Edit>, k: nat)
    requires k <= |edits|
    reads b
  {
    && b.Valid() && b.base == seq(NUM_LEVELS, _ => [])
    && forall i :: 0 <= i < NUM_LEVELS ==>
      && FileSet(b.addedFiles[i]) == KeptByAll(edits[..k], i)
      && b.deletedFiles[i] == DeletedByAll(edits[..k], i)
  }

  method ApplyNext(b: Builder, edit: Edit, ghost edits: seq<Edit>, ghost k: nat)
    requires k < |edits| && edit == edits[k] && edit.Valid() && Built(b, edits, k)
    modifies b
    ensures Built(b, edits, k + 1)
  {
    hide AddKept;
    assert edits[..k + 1][..k] == edits[..k];
    b.Apply(edit);
  }

  /** The version set as recovered. */
  datatype Recovered = Recovered(
    version: Version, logNumber: nat, prevLogNumber: nat, manifestFileNumber: nat, nextFileNumber: nat, lastSequence: nat)

  /** The version has the files that applying the edits one by one gives. */
  ghost predicate IsVersion(v: Version, edits: seq<Edit>) {
    forall i :: 0 <= i < NUM_LEVELS ==> Ordered(v[i]) && FileSet(v[i]) == OneByOne({}, edits, i)
  }

  /** The version has the files added and not deleted in the end; of two added files of
      one place it has the first. */
  ghost predicate IsSaved(v: Version, edits: seq<Edit>) {
    forall i :: 0 <= i < NUM_LEVELS ==>
      Ordered(v[i]) && FileSet(v[i]) == Live(KeptByAll(edits, i), DeletedByAll(edits, i))
  }

  /** That is the version of the edits applied one by one exactly when no file is
      revived and none is shadowed. */
  lemma SavedIsVersion(v: Version, edits: seq<Edit>)
    requires IsSaved(v, edits)
    ensures IsVersion(v, edits) <==> forall i :: 0 <= i < NUM_LEVELS ==> NoneRevived({}, edits, i) && NoneShadowed({}, edits, i)
  {
    hide NoneRevived;
    hide NoneShadowed;
    forall i | 0 <= i < NUM_LEVELS
      ensures FileSet(v[i]) == OneByOne({}, edits, i) <==> NoneRevived({}, edits, i) && NoneShadowed({}, edits, i)
    {
      BatchEqualsOneByOneExactly({}, edits, i);
      assert {} + KeptByAll(edits, i) == KeptByAll(edits, i);
    }
  }

  /** What recovery must give for edits: the numbers are the last ones recorded. */
  ghost predicate IsRecovered(r: Recovered, es: seq<EditData>, table: M.FileMeta -> File) {
    && IsSaved(r.version, ToEdits(es, table))
    && Some(r.logNumber) == Last(LogNumbers(es)) && Some(r.lastSequence) == Last(LastSequences(es))
    && Some(r.manifestFileNumber) == Last(NextFiles(es)) && r.nextFileNumber == r.manifestFileNumber + 1
    && r.prevLogNumber == if Last(PrevLogNumbers(es)).Some? then Last(PrevLogNumbers(es)).value else 0
  }

  // The numbers a manifest must record.
  predicate AllRecorded(es: seq<EditData>) {
    Last(NextFiles(es)).Some? && Last(LogNumbers(es)).Some? && Last(LastSequences(es)).Some?
  }

  /** Recover from any manifest. It fails exactly when a corruption is reported, a
      record does not decode, a comparator differs, or a number was never recorded;
      otherwise it gives what the edits say. */
  method Recover(crc: seq<Byte> -> Word, file: Bytestring, name: Bytestring, table: M.FileMeta -> File)
    returns (r: Option<Recovered>)
    ensures
      var all, es := AllRecords(crc, file, 0), Decoded(AllRecords(crc, file, 0).records);
      && (r.Some? <==> all.drops == 0 && |es| == |all.records| && SameComparator(es, name) && AllRecorded(es))
      && (r.Some? ==> IsRecovered(r.value, es, table))
  {
    hide AllRecords;
    hide NumbersOf;
    hide Update;
    hide Built;
    hide Decoded;
    hide IsSaved;
    hide SameComparator;
    hide AllRecorded;
    hide LevelsOk;
    hide ToEdits;
    hide ToEdit;
    var contents, _ := ReadRecords(crc, file);
    if contents.drops > 0 {
      return None;
    }
    ghost var es := Decoded(contents.records);
    ghost var edits := ToEdits(es, table);
    var numbers := RecordedNumbers(None, None, None, None);
    NumbersOfNone();
    var builder := new Builder(seq(NUM_LEVELS, _ => []));
    NothingBuilt(builder, edits);
    assert es[..0] == [] && SameComparator([], name) by {
      NoComparator(name);
    }
    for k := 0 to |contents.records|
      invariant k <= |es| && Built(builder, edits, k) && fresh(builder)
      invariant SameComparator(es[..k], name) && numbers == NumbersOf(es[..k])
    {
      var data := DecodeRecord(contents.records[k]);
      DecodedAt(contents.records, k);
      if data.None? {
        return None;
      }
      ComparatorStep(es, name, k);
      if data.value.comparator.Some? && data.value.comparator.value != name {
        return None;
      }
      EditIsValid(es[k], table);
      EditAt(es, table, k);
      ApplyNext(builder, ToEdit(data.value, table), edits, k);
      NumbersOneMore(es, k);
      numbers := Update(numbers, data.value);
    }
    assert es[..|es|] == es;
    r := Install(builder, numbers, es, table);
  }

  lemma NoComparator(name: Bytestring)
    ensures SameComparator([], name)
  {
  }

  lemma EditAt(es: seq<EditData>, table: M.FileMeta -> File, k: nat)
    requires k < |es|
    ensures ToEdits(es, table)[k] == ToEdit(es[k], table)
  {
  }

  lemma ComparatorStep(es: seq<EditData>, name: Bytestring, k: nat)
    requires k < |es|
    ensures SameComparator(es[..k + 1], name)
      <==> SameComparator(es[..k], name) && (es[k].comparator.None? || es[k].comparator == Some(name))
    ensures SameComparator(es, name) ==> SameComparator(es[..k + 1], name)
    ensures es[..k + 1] == es[..k] + [es[k]]
  {
    if SameComparator(es[..k + 1], name) {
      assert es[..k + 1][k] == es[k];
      forall i | 0 <= i < k
        ensures es[..k][i].comparator.None? || es[..k][i].comparator == Some(name)
      {
        assert es[..k + 1][i] == es[..k][i];
      }
    }
  }

  // One record, decoded into a fresh edit.
  method DecodeRecord(record: Bytestring) returns (data: Option<EditData>)
    ensures data == DecodeFields(record, EMPTY)
    ensures data.Some? ==> LevelsOk(data.value)
  {
    hide DecodeFields;
    var edit := new VersionEdit();
    assert EMPTY.(compactPointers := []) == EMPTY;
    var ok := edit.DecodeFrom(record);
    if !ok {
      return None;
    }
    DecodedLevels(record, EMPTY);
    return Some(edit.Data());
  }

  // The version and the numbers, unless one was never recorded.
  method Install(builder: Builder, numbers: RecordedNumbers, ghost es: seq<EditData>, ghost table: M.FileMeta -> File)
    returns (r: Option<Recovered>)
    requires Built(builder, ToEdits(es, table), |es|) && numbers == NumbersOf(es)
    ensures r.Some? <==> AllRecorded(es)
    ensures r.Some? ==> IsRecovered(r.value, es, table)
  {
    ghost var edits := ToEdits(es, table);
    assert edits[..|edits|] == edits;
    if numbers.nextFile.None? || numbers.logNumber.None? || numbers.lastSequence.None? {
      return None;
    }
    var v := builder.SaveTo();
    assert FileSet([]) == {};
    var next := numbers.nextFile.value;
    return Some(Recovered(v, numbers.logNumber.value, if numbers.prevLogNumber.Some? then numbers.prevLogNumber.value else 0,
                          next, next + 1, numbers.lastSequence.value));
  }

  lemma NothingBuilt(b: Builder, edits: seq<Edit>)
    requires b.Valid() && b.base == seq(NUM_LEVELS, _ => [])
    requires b.deletedFiles == seq(NUM_LEVELS, _ => {}) && b.addedFiles == seq(NUM_LEVELS, _ => [])
    ensures Built(b, edits, 0)
  {
    assert edits[..0] == [];
  }

  /* ---- a manifest cut off anywhere ---- */

  lemma RecordsPrefix(es: seq<EditData>, k: nat)
    requires k <= |es|
    ensures Records(es)[..k] == Records(es[..k])
  {
  }

  // The edits whose records end within the first n bytes.
  ghost function Complete(crc: seq<Byte> -> Word, es: seq<EditData>, n: nat): seq<EditData> {
    es[..WholeRecords(crc, 0, Records(es), n)]
  }

  /** From any byte prefix of a manifest, recovery gives what the edits say whose
      records are complete: a record cut off by a crash is as if it had never been
      written. */
  method RecoverPrefix(crc: seq<Byte> -> Word, file: Bytestring, name: Bytestring, table: M.FileMeta -> File,
                       ghost es: seq<EditData>, ghost n: nat) returns (r: Option<Recovered>)
    requires forall e :: e in es ==> EditOk(e)
    requires n <= |EncodeAll(crc, 0, Records(es))| && file == EncodeAll(crc, 0, Records(es))[..n]
    ensures
      var done := Complete(crc, es, n);
      && (r.Some? <==> SameComparator(done, name) && AllRecorded(done))
      && (r.Some? ==> IsRecovered(r.value, done, table))
  {
    hide AllRecords;
    hide IsRecovered;
    hide EditOk;
    ghost var k := WholeRecords(crc, 0, Records(es), n);
    TruncatedLogReadsBack(crc, Records(es), n);
    RecordsPrefix(es, k);
    WrittenDecodes(es[..k]);
    r := Recover(crc, file, name, table);
  }

  /* ---- snapshots ---- */

  /** The edit that describes a whole version. */
  function SnapshotOf(name: Bytestring, pointers: seq<(nat, Bytestring)>, files: seq<seq<M.FileMeta>>): EditData {
    EMPTY.(comparator := Some(name), compactPointers := pointers, newFiles := AllFiles(files, |files|))
  }

  // The files of the first levels, each with its level.
  function AllFiles(files: seq<seq<M.FileMeta>>, levels: nat): seq<(nat, M.FileMeta)>
    requires levels <= |files|
  {
    if levels == 0 then []
    else
      var level := levels - 1;
      AllFiles(files, level) + seq(|files[level]|, i requires 0 <= i < |files[level]| => (level, files[level][i]))
  }

  method WriteSnapshot(name: Bytestring, pointers: seq<(nat, Bytestring)>, files: seq<seq<M.FileMeta>>) returns (e: EditData)
    requires |files| == NUM_LEVELS
    ensures e == SnapshotOf(name, pointers, files)
  {
    var edit := new VersionEdit();
    edit.comparator := Some(name);
    for i := 0 to |pointers|
      invariant edit.Data() == EMPTY.(comparator := Some(name), compactPointers := pointers[..i])
    {
      edit.compactPointers := edit.compactPointers + [pointers[i]];
    }
    assert pointers[..|pointers|] == pointers;
    for level := 0 to NUM_LEVELS
      invariant edit.Data() == EMPTY.(comparator := Some(name), compactPointers := pointers, newFiles := AllFiles(files, level))
    {
      ghost var before := AllFiles(files, level);
      assert before + [] == before;
      for i := 0 to |files[level]|
        invariant edit.Data() == EMPTY.(
          comparator := Some(name), compactPointers := pointers,
          newFiles := before + seq(i, j requires 0 <= j < i => (level, files[level][j])))
      {
        edit.newFiles := edit.newFiles + [(level, files[level][i])];
        assert seq(i + 1, j requires 0 <= j < i + 1 => (level, files[level][j]))
            == seq(i, j requires 0 <= j < i => (level, files[level][j])) + [(level, files[level][i])];
      }
    }
    e := edit.Data();
  }

  lemma {:induction false} AllFilesAre(files: seq<seq<M.FileMeta>>, levels: nat, level: nat, m: M.FileMeta)
    requires levels <= |files|
    ensures (level, m) in AllFiles(files, levels) <==> level < levels && m in files[level]
  {
    if levels > 0 {
      AllFilesAre(files, levels - 1, level, m);
      var last := levels - 1;
      var more: seq<(nat, M.FileMeta)> := seq(|files[last]|, i requires 0 <= i < |files[last]| => (last, files[last][i]));
      if level == last && m in files[last] {
        var i :| 0 <= i < |files[last]| && files[last][i] == m;
        assert more[i] == (level, m);
      }
    }
  }

  /** Applied to nothing, a snapshot gives the files of the version it describes. */
  lemma SnapshotIsVersion(name: Bytestring, pointers: seq<(nat, Bytestring)>, files: seq<seq<M.FileMeta>>,
                          table: M.FileMeta -> File, level: nat)
    requires level < |files|
    ensures EditLevel({}, ToEdit(SnapshotOf(name, pointers, files), table), level) == (set m | m in files[level] :: table(m))
  {
    var e := ToEdit(SnapshotOf(name, pointers, files), table);
    var ns := AllFiles(files, |files|);
    forall f
      ensures f in AddedAt(e.added, level) <==> exists m :: m in files[level] && f == table(m)
    {
      if f in AddedAt(e.added, level) {
        var i :| 0 <= i < |ns| && e.added[i] == (level, f);
        assert ns[i] in ns && ns[i] == (level, ns[i].1);
        AllFilesAre(files, |files|, level, ns[i].1);
      }
      if m :| m in files[level] && f == table(m) {
        AllFilesAre(files, |files|, level, m);
        var i :| 0 <= i < |ns| && ns[i] == (level, m);
        assert e.added[i] == (level, f);
      }
    }
    assert DeletedAt(e, level) == {};
  }

  lemma {:induction false} OneByOneConcat(base: set<File>, a: seq<Edit>, b: seq<Edit>, level: nat)
    ensures OneByOne(base, a + b, level) == OneByOne(OneByOne(base, a, level), b, level)
    decreases |b|
  {
    if b == [] {
      assert a + b == a;
    } else {
      assert (a + b)[..|a + b| - 1] == a + b[..|b| - 1];
      OneByOneConcat(base, a, b[..|b| - 1], level);
    }
  }

  /** A manifest that begins with a snapshot and goes on with later edits stands
      for those edits applied one by one to the version of the snapshot. */
  lemma SnapshotThenEdits(name: Bytestring, pointers: seq<(nat, Bytestring)>, files: seq<seq<M.FileMeta>>,
                          later: seq<EditData>, table: M.FileMeta -> File, level: nat)
    requires level < |files|
    ensures OneByOne({}, ToEdits([SnapshotOf(name, pointers, files)] + later, table), level)
      == OneByOne(set m | m in files[level] :: table(m), ToEdits(later, table), level)
  {
    var snapshot := ToEdit(SnapshotOf(name, pointers, files), table);
    assert ToEdits([SnapshotOf(name, pointers, files)] + later, table) == [snapshot] + ToEdits(later, table);
    OneByOneConcat({}, [snapshot], ToEdits(later, table), level);
    assert [snapshot][..0] == [];
    SnapshotIsVersion(name, pointers, files, table, level);
  }
}
