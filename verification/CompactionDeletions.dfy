/** When a compaction may drop deletions, in terms of the files next to its inputs:
    only a file that goes on with a user key at which an input ends can bring a
    deleted value back (contrib/leveldb/db/version_set.cc, db_impl.cc). */
module CompactionDeletions {
  import opened DbFormat
  import opened VersionFiles
  import opened VersionGet
  import opened CompactionRules
  import opened CompactionInputs
  import opened CompactionStep
  import opened CompactionPlacement

  /** File f of one of the two levels stays behind and goes on with the user key at
      which the input g of its level ends. */
  ghost predicate Continues(job: Job, i: nat, f: File, g: File)
    requires job.level + 1 < NUM_LEVELS
  {
    && (i == job.level > 0 || i == job.level + 1)
    && f in job.v[i] && !job.IsInput(i, f) && g in job.v[i] && job.IsInput(i, g)
    && g.largest.user == f.smallest.user && Less(g.largest, f.smallest)
  }

  /** Wherever a file f continues an input, and the newest input entry of the shared
      user key that the oldest live reader sees is an obsolete deletion, the first
      entry of f is a deletion too, unless that reader sees a newer entry outside. */
  ghost predicate NeighboursSafe(job: Job, upper: set<Entry>, ss: nat)
    requires job.level + 1 < NUM_LEVELS
  {
    forall i, f, g, t ::
      && Continues(job, i, f, g) && f.entries != []
      && Newest(job.Inputs(), f.smallest.user, ss, t) && Obsolete(job.v, job.level, ss, t)
      && f.entries[0].key.seqno < t.key.seqno
      && Newest(upper + job.Rest(), f.smallest.user, ss, f.entries[0])
      ==> f.entries[0].key.kind.Deletion?
  }

  // An older entry outside, on one of the two levels, is in a file that continues an
  // input; and the first entry of that file has the same user key.
  lemma OlderIsContinued(job: Job, t: Entry, i: nat, f: File, e: Entry) returns (g: File)
    requires VersionOk(job.v) && job.level + 1 < NUM_LEVELS && InputsOk(job.v, job.level, job.inputs0, job.inputs1)
    requires t in job.Inputs() && i <= job.level + 1 && f in job.v[i] && !job.IsInput(i, f) && e in f.entries
    requires e.key.user == t.key.user && e.key.seqno < t.key.seqno
    ensures Continues(job, i, f, g) && f.smallest.user == t.key.user
    ensures f.Valid() && e.key.seqno <= f.entries[0].key.seqno < t.key.seqno
  {
    hide VersionOk;
    hide DisjointSorted;
    var v, level := job.v, job.level;
    LevelShape(v, i);
    g :| g in job.inputs0 + job.inputs1 && t in g.entries;
    var j := if g in job.inputs0 then level else level + 1;
    LevelShape(v, j);
    if i < j {
      ShallowerIsNewer(v, i, f, e, j, g, t);
      assert false;
    } else if j == level && (i == 0 || i == level + 1) {
      SharedUserMeets(job.inputs0, f, g, e, t);
      MeetingFileIsInput(job, i, f);
      assert false;
    } else {
      SharedUserOrder(v[i], f, e, g, t);
      FirstIsBetween(v, i, f, e, g, t);
    }
  }

  lemma FirstIsBetween(v: Version, i: nat, f: File, e: Entry, g: File, t: Entry)
    requires VersionOk(v) && i < NUM_LEVELS && f in v[i] && g in v[i] && f.Valid() && g.Valid() && f != g
    requires e in f.entries && t in g.entries && e.key.user == t.key.user == f.smallest.user == g.largest.user
    requires Less(g.largest, f.smallest)
    ensures e.key.seqno <= f.entries[0].key.seqno < t.key.seqno
  {
    hide VersionOk;
    var first, last := f.entries[0], g.entries[|g.entries| - 1];
    EntryWithinFile(f, e);
    EntryWithinFile(g, t);
    PackedOrderIsNewestFirst(first.key, e.key, 0);
    PackedOrderIsNewestFirst(t.key, last.key, 0);
    PackedOrderIsNewestFirst(last.key, first.key, 0);
    LessIsTotalOrder(t.key, last.key, first.key);
    SameSeqnoSameEntry(v, i, f, first, g, t);
  }

  // The entry that comes back is the first one of its file.
  lemma OlderIsFirst(v: Version, i: nat, f: File, e: Entry, rest: set<Entry>, ss: nat)
    requires VersionOk(v) && i < NUM_LEVELS && f in v[i] && f.Valid() && e in f.entries
    requires f.smallest.user == e.key.user && e.key.seqno <= f.entries[0].key.seqno <= ss
    requires f.entries[0] in rest && Newest(rest, e.key.user, ss, e)
    ensures e == f.entries[0]
  {
    SameSeqnoSameEntry(v, i, f, e, f, f.entries[0]);
  }

  /** Dropping deletions is safe if and only if no continuing file makes it unsafe. */
  lemma DeletionsAreExact(job: Job, upper: set<Entry>, ss: nat)
    requires VersionOk(job.v) && job.level + 1 < NUM_LEVELS && InputsOk(job.v, job.level, job.inputs0, job.inputs1)
    requires NewerThan(upper, AllEntries(job.v))
    ensures DeletionsSafe(job.Inputs(), upper + job.Rest(), job.v, job.level, ss) <==> NeighboursSafe(job, upper, ss)
  {
    var es, rest := job.Inputs(), upper + job.Rest();
    if DeletionsSafe(es, rest, job.v, job.level, ss) {
      forall i, f, g, t |
        && Continues(job, i, f, g) && f.entries != []
        && Newest(es, f.smallest.user, ss, t) && Obsolete(job.v, job.level, ss, t)
        && f.entries[0].key.seqno < t.key.seqno && Newest(rest, f.smallest.user, ss, f.entries[0])
        ensures f.entries[0].key.kind.Deletion?
      {
        assert !Hidden(es, ss, t);
      }
    }
    if NeighboursSafe(job, upper, ss) {
      forall t, e |
        && t in es && !Hidden(es, ss, t) && Obsolete(job.v, job.level, ss, t)
        && Newest(rest, t.key.user, ss, e) && e.key.seqno < t.key.seqno
        ensures e.key.kind.Deletion?
      {
        NeighbourDecides(job, upper, ss, t, e);
      }
    }
  }

  lemma NeighbourDecides(job: Job, upper: set<Entry>, ss: nat, t: Entry, e: Entry)
    requires VersionOk(job.v) && job.level + 1 < NUM_LEVELS && InputsOk(job.v, job.level, job.inputs0, job.inputs1)
    requires NewerThan(upper, AllEntries(job.v)) && NeighboursSafe(job, upper, ss)
    requires t in job.Inputs() && !Hidden(job.Inputs(), ss, t) && Obsolete(job.v, job.level, ss, t)
    requires Newest(upper + job.Rest(), t.key.user, ss, e) && e.key.seqno < t.key.seqno
    ensures e.key.kind.Deletion?
  {
    hide VersionOk;
    hide InputsOk;
    EntriesBefore(job);
    assert e in job.Rest();
    var i, f :| 0 <= i < NUM_LEVELS && f in job.v[i] && !job.IsInput(i, f) && e in f.entries;
    LevelShape(job.v, i);
    EntryWithinFile(f, e);
    assert i <= job.level + 1;
    var g := OlderIsContinued(job, t, i, f, e);
    var first := f.entries[0];
    assert first in job.Rest() by {
      assert first in f.entries;
    }
    OlderIsFirst(job.v, i, f, e, upper + job.Rest(), ss);
    assert Newest(job.Inputs(), t.key.user, ss, t);
  }
}
