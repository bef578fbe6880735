/** Installing the outputs of a compaction, or a moved file, in a version
    (InstallCompactionResults in contrib/leveldb/db/db_impl.cc). */
module CompactionStep {
  import opened DbFormat
  import opened VersionFiles
  import opened VersionGet
  import opened VersionBuilder
  import opened CompactionRules
  import opened CompactionInputs

  ghost predicate PairwiseDisjoint(files: set<File>) {
    forall f, g :: f in files && g in files && f != g ==> Less(f.largest, g.smallest) || Less(g.largest, f.smallest)
  }

  lemma OrderedDisjoint(files: seq<File>)
    requires ValidFiles(files) && Ordered(files) && PairwiseDisjoint(FileSet(files))
    ensures DisjointSorted(files)
  {
    forall i, j | 0 <= i < j < |files|
      ensures Less(files[i].largest, files[j].smallest)
    {
      assert Before(files[i], files[j]);
      assert files[i] in FileSet(files) && files[j] in FileSet(files);
      SmallestBeforeLargest(files[i]);
      SmallestBeforeLargest(files[j]);
    }
  }

  lemma DisjointSortedIsPairwise(files: seq<File>)
    requires DisjointSorted(files)
    ensures PairwiseDisjoint(FileSet(files))
  {
  }

  /** One job: the version it starts from, its input files on level and
      level + 1, its output files, and the version it installs. */
  datatype Job = Job(v: Version, level: nat, inputs0: seq<File>, inputs1: seq<File>, outputs: seq<File>, w: Version) {
    ghost predicate IsInput(i: nat, f: File) {
      (i == level && f in inputs0) || (i == level + 1 && f in inputs1)
    }

    ghost function Inputs(): set<Entry> {
      EntriesOf(inputs0 + inputs1)
    }

    // The entries of all files that are not inputs.
    ghost function Rest(): set<Entry> {
      set i, f, e | 0 <= i < NUM_LEVELS && f in v[i] && !IsInput(i, f) && e in f.entries :: e
    }

    /** w is v with the inputs deleted and the outputs added one level down. */
    ghost predicate Installed() {
      && level + 1 < NUM_LEVELS
      && (forall i :: 0 <= i < NUM_LEVELS ==> Ordered(w[i]))
      && (forall i :: 0 <= i < NUM_LEVELS && i != level && i != level + 1 ==> FileSet(w[i]) == FileSet(v[i]))
      && FileSet(w[level]) == FileSet(v[level]) - FileSet(inputs0)
      && FileSet(w[level + 1]) == FileSet(v[level + 1]) - FileSet(inputs1) + FileSet(outputs)
    }

    /** The outputs hold exactly the input entries in kept. */
    ghost predicate Ok(kept: set<Entry>) {
      && VersionOk(v) && level + 1 < NUM_LEVELS && InputsOk(v, level, inputs0, inputs1)
      && ValidFiles(outputs) && DisjointSorted(outputs)
      && EntriesOf(outputs) == kept && kept <= Inputs()
      && Installed()
    }
  }

  /** The guard: no file of the level outside the inputs goes on with older
      entries of the user key at which an input ends. */
  ghost predicate BoundaryClosed(files: seq<File>, inputs: seq<File>) {
    forall f, g :: f in files && f !in inputs && g in inputs
      ==> !(g.largest.user == f.smallest.user && Less(g.largest, f.smallest))
  }

  lemma InEntriesOf(files: seq<File>, f: File, e: Entry)
    requires f in files && e in f.entries
    ensures e in EntriesOf(files)
  {
  }

  lemma InVersion(v: Version, i: nat, f: File, e: Entry)
    requires i < NUM_LEVELS && f in v[i] && e in f.entries
    ensures e in EntriesOf(v[i]) && e in AllEntries(v)
  {
    InEntriesOf(v[i], f, e);
  }

  lemma LevelShape(v: Version, i: nat)
    requires VersionOk(v) && i < NUM_LEVELS
    ensures ValidFiles(v[i]) && (i > 0 ==> DisjointSorted(v[i]))
  {
  }

  lemma ShallowerIsNewer(v: Version, i: nat, f: File, e: Entry, j: nat, g: File, t: Entry)
    requires VersionOk(v) && i < j < NUM_LEVELS
    requires f in v[i] && e in f.entries && g in v[j] && t in g.entries && e.key.user == t.key.user
    ensures e.key.seqno > t.key.seqno
  {
    InVersion(v, i, f, e);
    InVersion(v, j, g, t);
    assert NewerThan(EntriesOf(v[i]), EntriesOf(v[j]));
  }

  lemma SharedUserMeets(inputs: seq<File>, f: File, g: File, e: Entry, t: Entry)
    requires f.Valid() && g.Valid() && g in inputs
    requires e in f.entries && t in g.entries && e.key.user == t.key.user
    ensures MeetsHull(f, inputs)
  {
    EntryWithinFile(f, e);
    EntryWithinFile(g, t);
  }

  lemma MeetingFileIsInput(job: Job, i: nat, f: File)
    requires job.level + 1 < NUM_LEVELS && InputsOk(job.v, job.level, job.inputs0, job.inputs1)
    requires (i == job.level == 0) || i == job.level + 1
    requires f in job.v[i] && MeetsHull(f, job.inputs0)
    ensures job.IsInput(i, f)
  {
  }

  lemma EntriesBefore(job: Job)
    requires job.level + 1 < NUM_LEVELS && InputsOk(job.v, job.level, job.inputs0, job.inputs1)
    ensures AllEntries(job.v) == job.Inputs() + job.Rest()
  {
    var v := job.v;
    forall e | e in AllEntries(v)
      ensures e in job.Inputs() + job.Rest()
    {
      var i :| 0 <= i < NUM_LEVELS && e in EntriesOf(v[i]);
      var f :| f in v[i] && e in f.entries;
      if job.IsInput(i, f) {
        InEntriesOf(job.inputs0 + job.inputs1, f, e);
      }
    }
    forall e | e in job.Inputs()
      ensures e in AllEntries(v)
    {
      var f :| f in job.inputs0 + job.inputs1 && e in f.entries;
      InVersion(v, if f in job.inputs0 then job.level else job.level + 1, f, e);
    }
    forall e | e in job.Rest()
      ensures e in AllEntries(v)
    {
      var i, f :| 0 <= i < NUM_LEVELS && f in v[i] && e in f.entries;
      InVersion(v, i, f, e);
    }
  }

  lemma EntriesAfter(job: Job)
    requires job.level + 1 < NUM_LEVELS && InputsOk(job.v, job.level, job.inputs0, job.inputs1) && job.Installed()
    ensures AllEntries(job.w) == EntriesOf(job.outputs) + job.Rest()
  {
    var v, w := job.v, job.w;
    forall e | e in AllEntries(w)
      ensures e in EntriesOf(job.outputs) + job.Rest()
    {
      var i :| 0 <= i < NUM_LEVELS && e in EntriesOf(w[i]);
      var f :| f in w[i] && e in f.entries;
      assert f in FileSet(w[i]);
      if !(i == job.level + 1 && f in job.outputs) {
        assert f in FileSet(v[i]) && !job.IsInput(i, f);
      }
    }
    forall e | e in EntriesOf(job.outputs)
      ensures e in AllEntries(w)
    {
      var f :| f in job.outputs && e in f.entries;
      assert f in FileSet(w[job.level + 1]);
      InVersion(w, job.level + 1, f, e);
    }
    forall e | e in job.Rest()
      ensures e in AllEntries(w)
    {
      var i, f :| 0 <= i < NUM_LEVELS && f in v[i] && !job.IsInput(i, f) && e in f.entries;
      assert f in FileSet(v[i]) && f in FileSet(w[i]);
      InVersion(w, i, f, e);
    }
  }

  /** Reads stay the same exactly when the dropped deletions are safe. Here upper
      stands for the entries outside the tables. */
  lemma CompactionKeepsMeaning(job: Job, upper: set<Entry>, ss: nat)
    requires job.Ok(Survivors(job.Inputs(), job.v, job.level, ss))
    requires UniqueSeqnos(upper + AllEntries(job.v))
    ensures SameMeaning(upper + AllEntries(job.v), upper + AllEntries(job.w), ss)
      <==> DeletionsSafe(job.Inputs(), upper + job.Rest(), job.v, job.level, ss)
  {
    hide VersionOk;
    EntriesBefore(job);
    EntriesAfter(job);
    var es, out, rest := job.Inputs(), EntriesOf(job.outputs), upper + job.Rest();
    Regroup(upper, es, job.Rest());
    Regroup(upper, out, job.Rest());
    MeaningPreservedExactly(es, rest, job.v, job.level, ss);
  }

  lemma Regroup<T>(a: set<T>, b: set<T>, c: set<T>)
    ensures a + (b + c) == b + (a + c)
  {
  }

  // Two files of one level that share a user key: the guard, or the key order,
  // says which one is newer.
  lemma OlderNeighbour(files: seq<File>, inputs: seq<File>, f: File, g: File, e: Entry, t: Entry)
    requires ValidFiles(files) && DisjointSorted(files) && BoundaryClosed(files, inputs)
    requires f in files && f !in inputs && g in files && g in inputs
    requires e in f.entries && t in g.entries && e.key.user == t.key.user
    ensures e.key.seqno >= t.key.seqno
  {
    EntryWithinFile(f, e);
    EntryWithinFile(g, t);
    DisjointSortedIsPairwise(files);
    assert f in FileSet(files) && g in FileSet(files);
    PackedOrderIsNewestFirst(e.key, t.key, 0);
  }

  /** An entry that stays outside, down to the output level, is not older than
      an input entry of the same user key, if both levels are closed at the
      boundaries of the inputs. */
  lemma OutsideIsNotOlder(job: Job, t: Entry, i: nat, f: File, e: Entry)
    requires VersionOk(job.v) && job.level + 1 < NUM_LEVELS && InputsOk(job.v, job.level, job.inputs0, job.inputs1)
    requires job.level > 0 ==> BoundaryClosed(job.v[job.level], job.inputs0)
    requires BoundaryClosed(job.v[job.level + 1], job.inputs1)
    requires t in job.Inputs()
    requires i <= job.level + 1 && f in job.v[i] && !job.IsInput(i, f) && e in f.entries
    requires e.key.user == t.key.user
    ensures e.key.seqno >= t.key.seqno
  {
    hide VersionOk;
    hide DisjointSorted;
    hide BoundaryClosed;
    var v, level := job.v, job.level;
    LevelShape(v, level);
    LevelShape(v, level + 1);
    LevelShape(v, i);
    var g :| g in job.inputs0 + job.inputs1 && t in g.entries;
    var j := if g in job.inputs0 then level else level + 1;
    if i < j {
      ShallowerIsNewer(v, i, f, e, j, g, t);
    } else if j == level && (i == 0 || i == level + 1) {
      SharedUserMeets(job.inputs0, f, g, e, t);
      MeetingFileIsInput(job, i, f);
    } else if j == level {
      assert i == level && f !in job.inputs0;
      OlderNeighbour(v[level], job.inputs0, f, g, e, t);
    } else {
      assert i == level + 1 && f !in job.inputs1 && g in job.inputs1;
      OlderNeighbour(v[level + 1], job.inputs1, f, g, e, t);
    }
  }

  /** The guard on both levels makes the dropped deletions safe. */
  lemma ClosedInputsAreSafe(job: Job, upper: set<Entry>, ss: nat)
    requires VersionOk(job.v) && job.level + 1 < NUM_LEVELS && InputsOk(job.v, job.level, job.inputs0, job.inputs1)
    requires job.level > 0 ==> BoundaryClosed(job.v[job.level], job.inputs0)
    requires BoundaryClosed(job.v[job.level + 1], job.inputs1)
    requires NewerThan(upper, AllEntries(job.v))
    ensures DeletionsSafe(job.Inputs(), upper + job.Rest(), job.v, job.level, ss)
  {
    EntriesBefore(job);
    forall t, e |
      && t in job.Inputs() && !Hidden(job.Inputs(), ss, t) && Obsolete(job.v, job.level, ss, t)
      && Newest(upper + job.Rest(), t.key.user, ss, e) && e.key.seqno < t.key.seqno
      ensures false
    {
      assert e in job.Rest();
      var i, f :| 0 <= i < NUM_LEVELS && f in job.v[i] && !job.IsInput(i, f) && e in f.entries;
      LevelShape(job.v, i);
      if i <= job.level + 1 {
        OutsideIsNotOlder(job, t, i, f, e);
      }
      EntryWithinFile(f, e);
    }
  }
}
