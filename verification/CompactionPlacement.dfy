/** When moving entries down a level keeps the version invariant: what stays on
    a shallower level is newer than what lies below it. */
module CompactionPlacement {
  import opened DbFormat
  import opened VersionFiles
  import opened VersionGet
  import opened VersionBuilder
  import opened CompactionRules
  import opened CompactionInputs
  import opened CompactionStep

  /** No file that stays on the inputs' level holds an entry older than a kept
      entry of the same user key that moves below it. */
  ghost predicate StayersNewer(job: Job, kept: set<Entry>)
    requires job.level < NUM_LEVELS
  {
    forall f, x, y ::
      && f in job.v[job.level] && f !in job.inputs0 && x in f.entries
      && y in EntriesOf(job.inputs0) && y in kept && x.key.user == y.key.user
      ==> x.key.seqno > y.key.seqno
  }

  // A file of the new version is an output, or an old file that was no input.
  lemma FileOrigin(job: Job, i: nat, f: File)
    requires i < NUM_LEVELS && job.Installed() && f in job.w[i]
    ensures (i == job.level + 1 && f in job.outputs) || (f in job.v[i] && !job.IsInput(i, f))
  {
    assert f in FileSet(job.w[i]);
  }

  // An entry of an output comes from an input file.
  lemma OutputOrigin(job: Job, kept: set<Entry>, o: File, e: Entry) returns (g: File)
    requires EntriesOf(job.outputs) == kept && kept <= job.Inputs()
    requires o in job.outputs && e in o.entries
    ensures e in kept
    ensures g in job.inputs0 + job.inputs1 && e in g.entries
  {
    InEntriesOf(job.outputs, o, e);
    g :| g in job.inputs0 + job.inputs1 && e in g.entries;
  }

  lemma JobShape(job: Job, kept: set<Entry>)
    requires job.Ok(kept)
    ensures job.level + 1 < NUM_LEVELS && VersionOk(job.v) && InputsOk(job.v, job.level, job.inputs0, job.inputs1)
    ensures forall i :: 0 <= i < NUM_LEVELS ==> Ordered(job.w[i])
    ensures job.inputs0 != [] && job.inputs0[0] in job.v[job.level]
  {
    hide VersionOk;
  }

  lemma FilesStayValid(job: Job, kept: set<Entry>, i: nat)
    requires job.Ok(kept) && i < NUM_LEVELS
    ensures ValidFiles(job.w[i])
  {
    forall f | f in job.w[i]
      ensures f.Valid()
    {
      FileOrigin(job, i, f);
    }
  }

  // f lies on the same side of the second inputs as of the first.
  lemma NeighbourSide(job: Job, f: File, g: File, before: bool)
    requires VersionOk(job.v) && job.level + 1 < NUM_LEVELS && InputsOk(job.v, job.level, job.inputs0, job.inputs1)
    requires f in job.v[job.level + 1] && f !in job.inputs1 && g in job.inputs1
    requires before ==> forall h :: h in job.inputs0 ==> f.largest.user < h.smallest.user
    requires !before ==> forall h :: h in job.inputs0 ==> h.largest.user < f.smallest.user
    ensures if before then Less(f.largest, g.smallest) else Less(g.largest, f.smallest)
  {
    hide VersionOk;
    var files := job.v[job.level + 1];
    LevelShape(job.v, job.level + 1);
    assert g in files && MeetsHull(g, job.inputs0);
    DisjointSortedIsPairwise(files);
    assert f in FileSet(files) && g in FileSet(files);
    SmallestBeforeLargest(f);
    SmallestBeforeLargest(g);
  }

  // An old file of the output level that lies before (after) all inputs of the
  // upper level lies before (after) every output entry.
  lemma OutputEntrySide(job: Job, kept: set<Entry>, f: File, o: File, e: Entry, before: bool)
    requires job.Ok(kept)
    requires f in job.v[job.level + 1] && f !in job.inputs1 && o in job.outputs && e in o.entries
    requires before ==> forall h :: h in job.inputs0 ==> f.largest.user < h.smallest.user
    requires !before ==> forall h :: h in job.inputs0 ==> h.largest.user < f.smallest.user
    ensures if before then Less(f.largest, e.key) else Less(e.key, f.smallest)
  {
    hide VersionOk;
    hide DisjointSorted;
    LevelShape(job.v, job.level);
    LevelShape(job.v, job.level + 1);
    assert o in job.outputs;
    var g := OutputOrigin(job, kept, o, e);
    assert g in job.v[job.level] || g in job.v[job.level + 1];
    EntryWithinFile(g, e);
    if g in job.inputs1 {
      NeighbourSide(job, f, g, before);
    }
  }

  // An old file of the output level lies entirely before or after every output.
  lemma OutputsFitIn(job: Job, kept: set<Entry>, f: File, o: File)
    requires job.Ok(kept)
    requires f in job.v[job.level + 1] && f !in job.inputs1 && o in job.outputs
    ensures Less(f.largest, o.smallest) || Less(o.largest, f.smallest)
  {
    hide VersionOk;
    assert !MeetsHull(f, job.inputs0);
    assert o.Valid();
    var before := forall g :: g in job.inputs0 ==> f.largest.user < g.smallest.user;
    OutputEntrySide(job, kept, f, o, if before then o.entries[0] else o.entries[|o.entries| - 1], before);
  }

  lemma FilesApart(job: Job, kept: set<Entry>, i: nat, f: File, g: File)
    requires job.Ok(kept) && 1 <= i < NUM_LEVELS && f in job.w[i] && g in job.w[i] && f != g
    ensures Less(f.largest, g.smallest) || Less(g.largest, f.smallest)
  {
    hide VersionOk;
    LevelShape(job.v, i);
    FileOrigin(job, i, f);
    FileOrigin(job, i, g);
    if i == job.level + 1 && f in job.outputs && g !in job.outputs {
      OutputsFitIn(job, kept, g, f);
    } else if i == job.level + 1 && g in job.outputs && f !in job.outputs {
      OutputsFitIn(job, kept, f, g);
    } else {
      var files := if i == job.level + 1 && f in job.outputs then job.outputs else job.v[i];
      DisjointSortedIsPairwise(files);
      assert f in FileSet(files) && g in FileSet(files);
    }
  }

  lemma LevelsStayDisjoint(job: Job, kept: set<Entry>, i: nat)
    requires job.Ok(kept) && 1 <= i < NUM_LEVELS
    ensures DisjointSorted(job.w[i])
  {
    hide Job.Ok;
    FilesStayValid(job, kept, i);
    JobShape(job, kept);
    forall f, g | f in FileSet(job.w[i]) && g in FileSet(job.w[i]) && f != g
      ensures Less(f.largest, g.smallest) || Less(g.largest, f.smallest)
    {
      FilesApart(job, kept, i, f, g);
    }
    OrderedDisjoint(job.w[i]);
  }

  // Where an entry of the new version was before.
  lemma EntryOrigin(job: Job, kept: set<Entry>, i: nat, f: File, x: Entry) returns (i': nat, f': File)
    requires job.Ok(kept) && i < NUM_LEVELS && f in job.w[i] && x in f.entries
    ensures i' < NUM_LEVELS && f' in job.v[i'] && x in f'.entries
    ensures i' == i || (i == job.level + 1 && i' == job.level)
    ensures i == job.level ==> f' !in job.inputs0
    ensures i' < i ==> f' in job.inputs0 && x in kept
  {
    hide VersionOk;
    FileOrigin(job, i, f);
    i', f' := i, f;
    if i == job.level + 1 && f in job.outputs {
      f' := OutputOrigin(job, kept, f, x);
      i' := if f' in job.inputs0 then job.level else job.level + 1;
    }
  }

  lemma LevelsStayAged(job: Job, kept: set<Entry>, i: nat, j: nat)
    requires job.Ok(kept) && StayersNewer(job, kept)
    requires i < j < NUM_LEVELS
    ensures NewerThan(EntriesOf(job.w[i]), EntriesOf(job.w[j]))
  {
    hide VersionOk;
    hide Job.Ok;
    JobShape(job, kept);
    forall f, x, g, y | f in job.w[i] && x in f.entries && g in job.w[j] && y in g.entries && x.key.user == y.key.user
      ensures x.key.seqno > y.key.seqno
    {
      var i', f' := EntryOrigin(job, kept, i, f, x);
      var j', g' := EntryOrigin(job, kept, j, g, y);
      if i' < j' {
        ShallowerIsNewer(job.v, i', f', x, j', g', y);
      } else {
        InEntriesOf(job.inputs0, g', y);
      }
    }
  }

  lemma RestOfInvariantStays(job: Job, kept: set<Entry>)
    requires job.Ok(kept)
    ensures NumberedByAge(job.w[0])
    ensures UniqueSeqnos(AllEntries(job.w)) && SmallSeqnos(AllEntries(job.w))
    ensures AllEntries(job.w) <= AllEntries(job.v)
  {
    forall f | f in job.w[0]
      ensures f in job.v[0]
    {
      FileOrigin(job, 0, f);
    }
    EntriesBefore(job);
    EntriesAfter(job);
    assert AllEntries(job.w) <= AllEntries(job.v);
  }

  lemma StayersNewerSuffices(job: Job, kept: set<Entry>)
    requires job.Ok(kept) && StayersNewer(job, kept)
    ensures VersionOk(job.w)
  {
    hide Job.Ok;
    hide StayersNewer;
    hide EntriesOf;
    hide DisjointSorted;
    hide ValidFiles;
    hide NewerThan;
    hide NumberedByAge;
    forall i | 0 <= i < NUM_LEVELS
      ensures ValidFiles(job.w[i])
    {
      FilesStayValid(job, kept, i);
    }
    forall i | 1 <= i < NUM_LEVELS
      ensures DisjointSorted(job.w[i])
    {
      LevelsStayDisjoint(job, kept, i);
    }
    forall i, j | 0 <= i < j < NUM_LEVELS
      ensures NewerThan(EntriesOf(job.w[i]), EntriesOf(job.w[j]))
    {
      LevelsStayAged(job, kept, i, j);
    }
    RestOfInvariantStays(job, kept);
  }

  lemma AgedLevels(v: Version, i: nat)
    requires VersionOk(v) && i + 1 < NUM_LEVELS
    ensures NewerThan(EntriesOf(v[i]), EntriesOf(v[i + 1]))
  {
  }

  /** The version invariant survives exactly when the stayers are newer. */
  lemma JobKeepsVersionOk(job: Job, kept: set<Entry>)
    requires job.Ok(kept)
    ensures VersionOk(job.w) <==> StayersNewer(job, kept)
  {
    hide VersionOk;
    hide Job.Ok;
    hide StayersNewer;
    JobShape(job, kept);
    if StayersNewer(job, kept) {
      StayersNewerSuffices(job, kept);
    } else {
      OlderStayerBreaks(job, kept);
    }
  }

  lemma OlderStayerBreaks(job: Job, kept: set<Entry>)
    requires job.Ok(kept) && !StayersNewer(job, kept)
    ensures !VersionOk(job.w)
  {
    hide VersionOk;
    hide Job.Ok;
    hide NewerThan;
    JobShape(job, kept);
    var f, x, y :|
      && f in job.v[job.level] && f !in job.inputs0 && x in f.entries
      && y in EntriesOf(job.inputs0) && y in kept && x.key.user == y.key.user
      && x.key.seqno <= y.key.seqno;
    OlderStayerShows(job, kept, f, x, y);
    if VersionOk(job.w) {
      AgedLevels(job.w, job.level);
    }
  }

  lemma OlderStayerShows(job: Job, kept: set<Entry>, f: File, x: Entry, y: Entry)
    requires job.Ok(kept)
    requires f in job.v[job.level] && f !in job.inputs0 && x in f.entries
    requires y in kept && x.key.user == y.key.user && x.key.seqno <= y.key.seqno
    ensures !NewerThan(EntriesOf(job.w[job.level]), EntriesOf(job.w[job.level + 1]))
  {
    hide VersionOk;
    var o :| o in job.outputs && y in o.entries;
    assert o in FileSet(job.w[job.level + 1]);
    assert f in FileSet(job.v[job.level]) && f in FileSet(job.w[job.level]);
    InEntriesOf(job.w[job.level], f, x);
    InEntriesOf(job.w[job.level + 1], o, y);
  }

  /* ---- the condition in terms of file boundaries ---- */

  /** Wherever a file g of the inputs is continued, under the same user key, by
      a file f that stays behind, the newest input entry of that user key is an
      obsolete deletion (so that nothing of the user key moves below f). */
  ghost predicate PlacementSafe(v: Version, level: nat, inputs0: seq<File>, ss: nat)
    requires level < NUM_LEVELS
  {
    level > 0 ==>
      forall f, g, n ::
        && f in v[level] && f !in inputs0 && g in inputs0
        && g.largest.user == f.smallest.user && Less(g.largest, f.smallest)
        && Newest(EntriesOf(inputs0), f.smallest.user, MAX_SEQUENCE, n)
        ==> Obsolete(v, level, ss, n)
  }

  lemma ClosedInputsArePlaced(v: Version, level: nat, inputs0: seq<File>, ss: nat)
    requires level < NUM_LEVELS && (level > 0 ==> BoundaryClosed(v[level], inputs0))
    ensures PlacementSafe(v, level, inputs0, ss)
  {
  }

  // Two files of a disjoint level that share a user key: the key order says
  // which is newer, or the older one goes on where the other one ends.
  lemma SharedUserOrder(files: seq<File>, f: File, x: Entry, g: File, y: Entry)
    requires ValidFiles(files) && DisjointSorted(files)
    requires f in files && g in files && f != g
    requires x in f.entries && y in g.entries && x.key.user == y.key.user
    ensures
      || (x.key.seqno >= y.key.seqno && x != y)
      || (g.largest.user == f.smallest.user == x.key.user && Less(g.largest, f.smallest))
  {
    EntryWithinFile(f, x);
    EntryWithinFile(g, y);
    DisjointSortedIsPairwise(files);
    assert f in FileSet(files) && g in FileSet(files);
    PackedOrderIsNewestFirst(x.key, y.key, 0);
  }

  lemma SameSeqnoSameEntry(v: Version, level: nat, f: File, x: Entry, g: File, y: Entry)
    requires VersionOk(v) && level < NUM_LEVELS
    requires f in v[level] && x in f.entries && g in v[level] && y in g.entries
    ensures x.key.seqno == y.key.seqno ==> x == y
  {
    InVersion(v, level, f, x);
    InVersion(v, level, g, y);
  }

  lemma SmallSeqno(v: Version, i: nat, f: File, e: Entry)
    requires VersionOk(v) && i < NUM_LEVELS && f in v[i] && e in f.entries
    ensures e.key.seqno <= MAX_SEQUENCE
  {
    InVersion(v, i, f, e);
  }

  lemma TopEntry(job: Job, g: File, y: Entry) returns (n: Entry)
    requires VersionOk(job.v) && job.level < NUM_LEVELS
    requires g in job.inputs0 && g in job.v[job.level] && y in g.entries
    ensures Newest(EntriesOf(job.inputs0), y.key.user, MAX_SEQUENCE, n) && y.key.seqno <= n.key.seqno
  {
    InEntriesOf(job.inputs0, g, y);
    SmallSeqno(job.v, job.level, g, y);
    n := NewestExists(EntriesOf(job.inputs0), y.key.user, MAX_SEQUENCE, y);
  }

  lemma InputsInclude(job: Job)
    requires VersionOk(job.v) && job.level + 1 < NUM_LEVELS && InputsOk(job.v, job.level, job.inputs0, job.inputs1)
    ensures EntriesOf(job.inputs0) <= job.Inputs() <= AllEntries(job.v)
    ensures UniqueSeqnos(job.Inputs())
  {
    EntriesBefore(job);
    assert forall f :: f in job.inputs0 ==> f in job.inputs0 + job.inputs1;
  }

  // The newest input entry of a user key on the upper level is hidden by none.
  lemma TopIsNotHidden(job: Job, ss: nat, n: Entry)
    requires VersionOk(job.v) && job.level + 1 < NUM_LEVELS && InputsOk(job.v, job.level, job.inputs0, job.inputs1)
    requires Newest(EntriesOf(job.inputs0), n.key.user, MAX_SEQUENCE, n)
    ensures !Hidden(job.Inputs(), ss, n)
  {
    hide VersionOk;
    var g :| g in job.inputs0 && n in g.entries;
    forall x | x in job.Inputs() && x.key.user == n.key.user
      ensures x.key.seqno <= n.key.seqno
    {
      var h :| h in job.inputs0 + job.inputs1 && x in h.entries;
      if h in job.inputs0 {
        InEntriesOf(job.inputs0, h, x);
        SmallSeqno(job.v, job.level, h, x);
      } else {
        ShallowerIsNewer(job.v, job.level, g, n, job.level + 1, h, x);
      }
    }
  }

  /** For a compaction, the boundary condition says exactly that the stayers are
      newer. */
  lemma PlacementIsExact(job: Job, ss: nat)
    requires VersionOk(job.v) && job.level + 1 < NUM_LEVELS && InputsOk(job.v, job.level, job.inputs0, job.inputs1)
    ensures PlacementSafe(job.v, job.level, job.inputs0, ss)
      <==> StayersNewer(job, Survivors(job.Inputs(), job.v, job.level, ss))
  {
    hide VersionOk;
    hide InputsOk;
    var kept := Survivors(job.Inputs(), job.v, job.level, ss);
    if PlacementSafe(job.v, job.level, job.inputs0, ss) {
      hide PlacementSafe;
      forall f, x, y |
        && f in job.v[job.level] && f !in job.inputs0 && x in f.entries
        && y in EntriesOf(job.inputs0) && y in kept && x.key.user == y.key.user
        ensures x.key.seqno > y.key.seqno
      {
        StayerIsNewer(job, ss, f, x, y);
      }
    } else {
      var f, g, n :|
        && f in job.v[job.level] && f !in job.inputs0 && g in job.inputs0
        && g.largest.user == f.smallest.user && Less(g.largest, f.smallest)
        && Newest(EntriesOf(job.inputs0), f.smallest.user, MAX_SEQUENCE, n)
        && !Obsolete(job.v, job.level, ss, n);
      UnsafePlacementShows(job, ss, f, g, n);
    }
  }

  lemma UnsafePlacementShows(job: Job, ss: nat, f: File, g: File, n: Entry)
    requires VersionOk(job.v) && job.level + 1 < NUM_LEVELS && InputsOk(job.v, job.level, job.inputs0, job.inputs1)
    requires f in job.v[job.level] && f !in job.inputs0 && g in job.inputs0
    requires g.largest.user == f.smallest.user && Less(g.largest, f.smallest)
    requires Newest(EntriesOf(job.inputs0), f.smallest.user, MAX_SEQUENCE, n) && !Obsolete(job.v, job.level, ss, n)
    ensures !StayersNewer(job, Survivors(job.Inputs(), job.v, job.level, ss))
  {
    hide VersionOk;
    ContinuationIsOlder(job, f, g, n);
    TopIsNotHidden(job, ss, n);
    InputsInclude(job);
    assert n in Survivors(job.Inputs(), job.v, job.level, ss);
    assert f.entries[0] in f.entries;
  }

  lemma StayerIsNewer(job: Job, ss: nat, f: File, x: Entry, y: Entry)
    requires VersionOk(job.v) && job.level + 1 < NUM_LEVELS && InputsOk(job.v, job.level, job.inputs0, job.inputs1)
    requires PlacementSafe(job.v, job.level, job.inputs0, ss)
    requires f in job.v[job.level] && f !in job.inputs0 && x in f.entries
    requires y in EntriesOf(job.inputs0) && y in Survivors(job.Inputs(), job.v, job.level, ss)
    requires x.key.user == y.key.user
    ensures x.key.seqno > y.key.seqno
  {
    hide VersionOk;
    LevelShape(job.v, job.level);
    var g :| g in job.inputs0 && y in g.entries;
    if job.level == 0 {
      SharedUserMeets(job.inputs0, f, g, x, y);
    } else {
      SharedUserOrder(job.v[job.level], f, x, g, y);
      SameSeqnoSameEntry(job.v, job.level, f, x, g, y);
      if g.largest.user == f.smallest.user == x.key.user && Less(g.largest, f.smallest) {
        var n := TopEntry(job, g, y);
        TopIsNotHidden(job, ss, n);
        InputsInclude(job);
        NoSurvivorBelow(job.Inputs(), job.v, job.level, ss, n, y);
      }
    }
  }

  // Where one file of a level ends and the next one goes on, the latter holds
  // the older entries.
  lemma ContinuationIsOlder(job: Job, f: File, g: File, n: Entry)
    requires VersionOk(job.v) && job.level < NUM_LEVELS
    requires f in job.v[job.level] && g in job.v[job.level] && g in job.inputs0
    requires g.largest.user == f.smallest.user && Less(g.largest, f.smallest)
    requires Newest(EntriesOf(job.inputs0), f.smallest.user, MAX_SEQUENCE, n)
    ensures f.entries != [] && f.entries[0].key.user == n.key.user && f.entries[0].key.seqno < n.key.seqno
  {
    hide VersionOk;
    LevelShape(job.v, job.level);
    var x, y := f.entries[0], g.entries[|g.entries| - 1];
    assert x in f.entries && y in g.entries;
    InEntriesOf(job.inputs0, g, y);
    SmallSeqno(job.v, job.level, g, y);
    PackedOrderIsNewestFirst(y.key, x.key, 0);
    SameSeqnoSameEntry(job.v, job.level, f, x, g, y);
  }

  /** A compaction keeps the version invariant exactly when its placement is
      safe. */
  lemma CompactionKeepsVersionOk(job: Job, ss: nat)
    requires job.Ok(Survivors(job.Inputs(), job.v, job.level, ss))
    ensures VersionOk(job.w) <==> PlacementSafe(job.v, job.level, job.inputs0, ss)
  {
    JobKeepsVersionOk(job, Survivors(job.Inputs(), job.v, job.level, ss));
    PlacementIsExact(job, ss);
  }

  // A moved file and a file that stays behind.
  lemma MovedFileOrder(job: Job, f: File, g: File, x: Entry, y: Entry)
    requires VersionOk(job.v) && job.level + 1 < NUM_LEVELS && InputsOk(job.v, job.level, job.inputs0, job.inputs1)
    requires job.inputs0 == [f]
    requires job.level > 0 ==> BoundaryClosed(job.v[job.level], [f])
    requires g in job.v[job.level] && g != f && x in g.entries && y in f.entries && x.key.user == y.key.user
    ensures x.key.seqno > y.key.seqno
  {
    hide VersionOk;
    LevelShape(job.v, job.level);
    assert f in [f] && f in job.v[job.level];
    if job.level == 0 {
      SharedUserMeets([f], g, f, x, y);
    } else {
      SharedUserOrder(job.v[job.level], g, x, f, y);
      SameSeqnoSameEntry(job.v, job.level, g, x, f, y);
    }
  }

  lemma MovedFileContinued(job: Job, f: File, g: File)
    requires VersionOk(job.v) && job.level < NUM_LEVELS && f in job.v[job.level] && g in job.v[job.level] && g != f
    requires job.inputs0 == [f] && f.largest.user == g.smallest.user && Less(f.largest, g.smallest)
    ensures !StayersNewer(job, Elements(f.entries))
  {
    hide VersionOk;
    LevelShape(job.v, job.level);
    var x, y := g.entries[0], f.entries[|f.entries| - 1];
    assert x in g.entries && y in f.entries;
    InEntriesOf([f], f, y);
    PackedOrderIsNewestFirst(y.key, x.key, 0);
  }

  /** Moving one file down unchanged keeps the version invariant exactly when no
      file of its level goes on with older entries of its last user key. */
  lemma TrivialMoveKeepsVersionOk(job: Job, f: File)
    requires job.inputs0 == [f] && job.inputs1 == [] && job.outputs == [f]
    requires job.Ok(Elements(f.entries))
    ensures AllEntries(job.w) == AllEntries(job.v)
    ensures VersionOk(job.w) <==> (job.level > 0 ==> BoundaryClosed(job.v[job.level], [f]))
  {
    hide VersionOk;
    hide Job.Ok;
    hide StayersNewer;
    var kept := Elements(f.entries);
    MoveKeepsEntries(job, f);
    MovedFileStays(job, f);
    JobKeepsVersionOk(job, kept);
  }

  lemma MoveKeepsEntries(job: Job, f: File)
    requires job.inputs0 == [f] && job.inputs1 == [] && job.outputs == [f]
    requires job.Ok(Elements(f.entries))
    ensures AllEntries(job.w) == AllEntries(job.v)
  {
    hide VersionOk;
    EntriesBefore(job);
    EntriesAfter(job);
    assert [f] + [] == [f];
  }

  lemma MovedFileStays(job: Job, f: File)
    requires job.inputs0 == [f] && job.Ok(Elements(f.entries))
    ensures StayersNewer(job, Elements(f.entries)) <==> (job.level > 0 ==> BoundaryClosed(job.v[job.level], [f]))
  {
    hide VersionOk;
    hide Job.Ok;
    hide InputsOk;
    JobShape(job, Elements(f.entries));
    if job.level > 0 && !BoundaryClosed(job.v[job.level], [f]) {
      var g :| g in job.v[job.level] && g !in [f] && f.largest.user == g.smallest.user && Less(f.largest, g.smallest);
      MovedFileContinued(job, f, g);
    } else {
      forall g, x, y |
        && g in job.v[job.level] && g !in job.inputs0 && x in g.entries
        && y in EntriesOf(job.inputs0) && y in Elements(f.entries) && x.key.user == y.key.user
        ensures x.key.seqno > y.key.seqno
      {
        MovedFileOrder(job, f, g, x, y);
      }
    }
  }
}
