/** The manifest beside the store: every new version is logged and then installed, and
    recovery after a crash finds a version that was installed
    (VersionSet::LogAndApply and Recover in contrib/leveldb/db/version_set.cc). */
module ManifestLog {
  import opened Options
  import opened Bytes
  import opened VersionFiles
  import opened VersionBuilder
  import opened LsmStore
  import opened LogFormat
  import opened LogWriter
  import opened LogRoundTrip
  import opened VersionEdits
  import opened ManifestRecovery

  ghost function Tables(metas: seq<M.FileMeta>, table: M.FileMeta -> File): set<File> {
    set m | m in metas :: table(m)
  }

  /** The metadata describe the version, whose files have numbers of their own. */
  ghost predicate Describes(metas: seq<seq<M.FileMeta>>, v: Version, table: M.FileMeta -> File) {
    && |metas| == NUM_LEVELS
    && forall i :: 0 <= i < NUM_LEVELS ==>
      && Ordered(v[i]) && FileSet(v[i]) == Tables(metas[i], table)
      && forall f, g :: f in v[i] && g in v[i] && f.number == g.number ==> f == g
  }

  /** The edits may be applied to the version in turn: none uses a number twice. */
  ghost predicate Applicable(v: Version, es: seq<EditData>, table: M.FileMeta -> File) {
    && (forall e :: e in es ==> LevelsOk(e))
    && forall i :: 0 <= i < NUM_LEVELS ==> NumbersUsedOnce(FileSet(v[i]), ToEdits(es, table), i)
  }

  /** The versions that the edits lead through. */
  ghost predicate AreVersions(versions: seq<Version>, edits: seq<Edit>) {
    && 0 < |versions| <= |edits| + 1
    && forall k :: 0 <= k < |versions| ==> Reaches(versions[0], edits[..k], versions[k])
  }

  // Applying the edits in turn to v gives w.
  ghost predicate Reaches(v: Version, edits: seq<Edit>, w: Version) {
    forall i :: 0 <= i < NUM_LEVELS ==> Ordered(w[i]) && FileSet(w[i]) == OneByOne(FileSet(v[i]), edits, i)
  }

  lemma NumbersStayFresh(base: set<File>, edits: seq<Edit>, level: nat, k: nat, v: seq<File>)
    requires NumbersUsedOnce(base, edits, level) && k < |edits| && FileSet(v) == OneByOne(base, edits[..k], level)
    ensures NumbersDiffer(edits[k], level)
    ensures forall f, g :: f in v && g in AddedAt(edits[k].added, level) ==> f.number != g.number
  {
    forall f, g | f in v && g in AddedAt(edits[k].added, level)
      ensures f.number != g.number
    {
      assert (level, g) in edits[k].added && AddsNumber(edits[k], level, g.number);
      assert f in FileSet(v);
      OneByOneHas(base, edits[..k], level, f);
      if f !in base {
        var i := AddedBySome(edits[..k], level, f);
        assert (level, f) in edits[i].added && AddsNumber(edits[i], level, f.number);
      }
    }
  }

  // One edit more has been applied.
  lemma NextVersion(versions: seq<Version>, edits: seq<Edit>, w: Version)
    requires AreVersions(versions, edits) && |versions| <= |edits|
    requires forall i :: 0 <= i < NUM_LEVELS ==>
      Ordered(w[i]) && FileSet(w[i]) == EditLevel(FileSet(versions[|versions| - 1][i]), edits[|versions| - 1], i)
    ensures AreVersions(versions + [w], edits)
  {
    hide EditLevel;
    var n, after := |versions|, versions + [w];
    assert Reaches(versions[0], edits[..n - 1], versions[n - 1]);
    assert Reaches(versions[0], edits[..n], w) by {
      forall i | 0 <= i < NUM_LEVELS
        ensures Ordered(w[i]) && FileSet(w[i]) == OneByOne(FileSet(versions[0][i]), edits[..n], i)
      {
        OneByOneNext(FileSet(versions[0][i]), edits, n, i);
      }
    }
    hide Reaches;
    forall k | 0 <= k < n + 1
      ensures Reaches(after[0], edits[..k], after[k])
    {
      assert after[0] == versions[0] && after[k] == if k == n then w else versions[k];
    }
  }

  lemma OneByOneNext(base: set<File>, edits: seq<Edit>, n: nat, level: nat)
    requires 0 < n <= |edits|
    ensures OneByOne(base, edits[..n], level) == EditLevel(OneByOne(base, edits[..n - 1], level), edits[n - 1], level)
  {
    hide EditLevel;
    assert edits[..n][..n - 1] == edits[..n - 1];
  }

  /** Log a record and then install the version, edit by edit, behind a snapshot of the
      version there is. */
  method LogAll(store: Store, crc: seq<Byte> -> Word, name: Bytestring, pointers: seq<(nat, Bytestring)>,
                metas: seq<seq<M.FileMeta>>, es: seq<EditData>, table: M.FileMeta -> File)
    returns (file: Bytestring, ghost versions: seq<Version>)
    requires Describes(metas, store.current, table) && Applicable(store.current, es, table)
    modifies store`current
    ensures file == EncodeAll(crc, 0, Records([SnapshotOf(name, pointers, metas)] + es))
    ensures AreVersions(versions, ToEdits(es, table)) && |versions| == |es| + 1
    ensures versions[0] == old(store.current) && versions[|es|] == store.current
  {
    hide Encoding;
    hide EncodeAll;
    hide EncodeEdit;
    hide Ordered;
    hide WeaklyOrdered;
    hide EditLevel;
    hide AddKept;
    hide NumbersUsedOnce;
    hide NumbersDiffer;
    hide AddedAt;
    hide ToEdits;
    hide ToEdit;
    hide LevelsOk;
    hide Records;
    hide AreVersions;
    ghost var edits, all := ToEdits(es, table), [SnapshotOf(name, pointers, metas)] + es;
    var snapshot := WriteSnapshot(name, pointers, metas);
    var writer := new Writer(crc);
    writer.AddRecord(EncodeEdit(snapshot));
    RecordAdded(crc, all, 0);
    versions := [store.current];
    OneVersion(store.current, edits);
    for k := 0 to |es|
      invariant writer.Valid() && writer.crc == crc && fresh(writer)
      invariant writer.dest == EncodeAll(crc, 0, Records(all[..k + 1]))
      invariant AreVersions(versions, edits) && |versions| == k + 1
      invariant versions[0] == old(store.current) && versions[k] == store.current
    {
      RecordAdded(crc, all, k + 1);
      writer.AddRecord(EncodeEdit(es[k]));
      var edit := ToEdit(es[k], table);
      assert es[k] in es;
      EditIsValid(es[k], table);
      EditAt(es, table, k);
      FreshNext(versions, edits, k);
      store.LogAndApply(edit);
      NextVersion(versions, edits, store.current);
      versions := versions + [store.current];
    }
    assert all[..|es| + 1] == all;
    file := writer.dest;
  }

  lemma OneVersion(v: Version, edits: seq<Edit>)
    requires forall i :: 0 <= i < NUM_LEVELS ==> Ordered(v[i])
    ensures AreVersions([v], edits)
  {
    assert Reaches(v, [], v);
    assert edits[..0] == [];
  }

  lemma FreshNext(versions: seq<Version>, edits: seq<Edit>, k: nat)
    requires AreVersions(versions, edits) && |versions| == k + 1 && k < |edits|
    requires forall i :: 0 <= i < NUM_LEVELS ==> NumbersUsedOnce(FileSet(versions[0][i]), edits, i)
    ensures FreshNumbers(versions[k], edits[k])
    ensures forall i :: 0 <= i < NUM_LEVELS ==> Ordered(versions[k][i]) && WeaklyOrdered(versions[k][i])
  {
    hide NumbersUsedOnce;
    hide NumbersDiffer;
    hide AddedAt;
    assert Reaches(versions[0], edits[..k], versions[k]);
    forall i | 0 <= i < NUM_LEVELS
      ensures NumbersDiffer(edits[k], i)
      ensures forall f, g :: f in versions[k][i] && g in AddedAt(edits[k].added, i) ==> f.number != g.number
      ensures Ordered(versions[k][i]) && WeaklyOrdered(versions[k][i])
    {
      NumbersStayFresh(FileSet(versions[0][i]), edits, i, k, versions[k][i]);
    }
  }

  // The manifest with one record more.
  lemma RecordAdded(crc: seq<Byte> -> Word, es: seq<EditData>, k: nat)
    requires k < |es|
    ensures
      var before := EncodeAll(crc, 0, Records(es[..k]));
      EncodeAll(crc, 0, Records(es[..k + 1])) == before + Encoding(crc, |before|, EncodeEdit(es[k]), true)
    ensures k == 0 ==> EncodeAll(crc, 0, Records(es[..k])) == []
  {
    hide Encoding;
    hide EncodeAll;
    hide EncodeEdit;
    assert Records(es[..k + 1]) == Records(es[..k]) + [EncodeEdit(es[k])];
    EncodeAllSplit(crc, 0, Records(es[..k]), [EncodeEdit(es[k])]);
    EncodeOne(crc, |EncodeAll(crc, 0, Records(es[..k]))|, EncodeEdit(es[k]));
    LogRoundTrip.EncodeNone(crc);
  }

  /* ---- recovery ---- */

  lemma UsedOncePrefix(base: set<File>, edits: seq<Edit>, level: nat, k: nat)
    requires NumbersUsedOnce(base, edits, level) && k <= |edits|
    ensures NumbersUsedOnce(base, edits[..k], level)
  {
  }

  // Numbers are used once behind a snapshot as well.
  lemma UsedOnceFromSnapshot(snapshot: Edit, files: set<File>, edits: seq<Edit>, level: nat)
    requires AddedAt(snapshot.added, level) == files && NumbersUsedOnce(files, edits, level)
    requires forall f, g :: f in files && g in files && f.number == g.number ==> f == g
    ensures NumbersUsedOnce({}, [snapshot] + edits, level)
  {
    hide AddedAt;
    var all := [snapshot] + edits;
    forall n | AddsNumber(snapshot, level, n)
      ensures exists f :: f in files && f.number == n
    {
      var a :| a in snapshot.added && a.0 == level && a.1.number == n;
      IsAddedAt(snapshot, level, a);
    }
    forall i | 0 <= i < |all|
      ensures NumbersDiffer(all[i], level)
    {
      assert i > 0 ==> all[i] == edits[i - 1];
    }
    forall i, j, n | 0 <= i < j < |all| && AddsNumber(all[i], level, n)
      ensures !AddsNumber(all[j], level, n)
    {
      assert all[j] == edits[j - 1];
      assert i > 0 ==> all[i] == edits[i - 1];
    }
  }

  lemma IsAddedAt(e: Edit, level: nat, a: (nat, File))
    requires a in e.added && a.0 == level
    ensures a.1 in AddedAt(e.added, level)
  {
  }

  // What recovery gives for a snapshot and later edits.
  lemma SavedFromSnapshot(v: Version, name: Bytestring, pointers: seq<(nat, Bytestring)>, metas: seq<seq<M.FileMeta>>,
                          later: seq<EditData>, table: M.FileMeta -> File, level: nat)
    requires |metas| == NUM_LEVELS && level < NUM_LEVELS
    requires IsSaved(v, ToEdits([SnapshotOf(name, pointers, metas)] + later, table))
    requires
      var edits := ToEdits([SnapshotOf(name, pointers, metas)] + later, table);
      NoneRevived({}, edits, level) && NoneShadowed({}, edits, level)
    ensures FileSet(v[level]) == OneByOne(Tables(metas[level], table), ToEdits(later, table), level)
  {
    hide NoneRevived;
    hide NoneShadowed;
    hide ToEdits;
    hide SnapshotOf;
    var edits := ToEdits([SnapshotOf(name, pointers, metas)] + later, table);
    BatchEqualsOneByOneExactly({}, edits, level);
    assert {} + KeptByAll(edits, level) == KeptByAll(edits, level);
    SnapshotThenEdits(name, pointers, metas, later, table, level);
  }

  /** Recovery from the snapshot and the first k edits gives the version that was
      installed after them. */
  lemma RecoversInstalled(v: Version, versions: seq<Version>, name: Bytestring, pointers: seq<(nat, Bytestring)>,
                          metas: seq<seq<M.FileMeta>>, es: seq<EditData>, table: M.FileMeta -> File, k: nat)
    requires AreVersions(versions, ToEdits(es, table)) && k < |versions|
    requires Describes(metas, versions[0], table) && Applicable(versions[0], es, table)
    requires IsSaved(v, ToEdits([SnapshotOf(name, pointers, metas)] + es[..k], table))
    ensures v == versions[k]
  {
    hide SnapshotOf;
    hide ToEdit;
    hide Ordered;
    hide NumbersUsedOnce;
    hide NoneRevived;
    hide NoneShadowed;
    var snapshot := ToEdit(SnapshotOf(name, pointers, metas), table);
    var later := ToEdits(es[..k], table);
    assert later == ToEdits(es, table)[..k];
    assert ToEdits([SnapshotOf(name, pointers, metas)] + es[..k], table) == [snapshot] + later;
    assert Reaches(versions[0], later, versions[k]);
    forall i | 0 <= i < NUM_LEVELS
      ensures v[i] == versions[k][i]
    {
      var files := Tables(metas[i], table);
      SnapshotAdds(name, pointers, metas, table, i);
      UsedOncePrefix(files, ToEdits(es, table), i, k);
      assert forall f :: f in files ==> f in versions[0][i] by {
        assert forall f :: f in FileSet(versions[0][i]) ==> f in versions[0][i];
      }
      UsedOnceFromSnapshot(snapshot, files, later, i);
      BatchEqualsOneByOne({}, [snapshot] + later, i);
      SavedFromSnapshot(v, name, pointers, metas, es[..k], table, i);
      OrderedIsUnique(v[i], versions[k][i]);
    }
  }

  lemma SnapshotAdds(name: Bytestring, pointers: seq<(nat, Bytestring)>, metas: seq<seq<M.FileMeta>>,
                     table: M.FileMeta -> File, level: nat)
    requires level < |metas|
    ensures AddedAt(ToEdit(SnapshotOf(name, pointers, metas), table).added, level) == Tables(metas[level], table)
  {
    var e := ToEdit(SnapshotOf(name, pointers, metas), table);
    SnapshotIsVersion(name, pointers, metas, table, level);
    assert DeletedAt(e, level) == {} && {} + AddedAt(e.added, level) == AddedAt(e.added, level);
  }

  /** Versions are logged and installed, the manifest is cut off anywhere by a crash, and
      recovery reads what is left. It finds the version that was installed with the last
      complete record; in the whole manifest, the current one. */
  method CrashAndRecover(store: Store, crc: seq<Byte> -> Word, name: Bytestring, pointers: seq<(nat, Bytestring)>,
                         metas: seq<seq<M.FileMeta>>, es: seq<EditData>, table: M.FileMeta -> File, size: nat)
    returns (r: Option<Recovered>, ghost versions: seq<Version>)
    requires Describes(metas, store.current, table) && Applicable(store.current, es, table)
    requires EditOk(SnapshotOf(name, pointers, metas)) && forall e :: e in es ==> EditOk(e)
    modifies store`current
    ensures AreVersions(versions, ToEdits(es, table)) && |versions| == |es| + 1
    ensures versions[0] == old(store.current) && versions[|es|] == store.current
    ensures
      var all := [SnapshotOf(name, pointers, metas)] + es;
      var done := Complete(crc, all, Min(size, |EncodeAll(crc, 0, Records(all))|));
      && (r.Some? <==> SameComparator(done, name) && AllRecorded(done))
      && (r.Some? ==> 0 < |done| <= |versions| && r.value.version == versions[|done| - 1])
    ensures r.Some? && size >= |EncodeAll(crc, 0, Records([SnapshotOf(name, pointers, metas)] + es))| ==>
      r.value.version == store.current
  {
    hide EncodeAll;
    hide Records;
    hide EditOk;
    hide SnapshotOf;
    hide Describes;
    hide Applicable;
    hide AreVersions;
    hide ToEdits;
    hide IsSaved;
    hide SameComparator;
    ghost var all := [SnapshotOf(name, pointers, metas)] + es;
    var file;
    file, versions := LogAll(store, crc, name, pointers, metas, es, table);
    var n := Min(size, |file|);
    r := RecoverPrefix(crc, file[..n], name, table, all, n);
    ghost var k := WholeRecords(crc, 0, Records(all), n);
    if r.Some? {
      NothingRecorded();
      assert all[..k] == [SnapshotOf(name, pointers, metas)] + es[..k - 1];
      RecoversInstalled(r.value.version, versions, name, pointers, metas, es, table, k - 1);
      if size >= |file| {
        AllAreWhole(crc, 0, Records(all));
      }
    }
  }

  lemma NothingRecorded()
    ensures !AllRecorded([])
  {
  }
}
