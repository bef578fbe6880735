/** One round of background work, from the choice of the inputs to the installed
    version (BackgroundCompaction in contrib/leveldb/db/db_impl.cc). */
module BackgroundWork {
  import opened Options
  import opened DbFormat
  import opened VersionFiles
  import opened VersionGet
  import opened VersionBuilder
  import opened CompactionRules
  import opened OutputCuts
  import opened CompactionWork
  import opened CompactionInputs
  import opened CompactionStep
  import opened CompactionPlacement
  import opened CompactionDeletions
  import opened StoreEdits
  import opened MergedInput
  import opened LsmStore

  // On both levels of the inputs, no neighbour goes on with a user key of theirs.
  ghost predicate Closed(v: Version, level: nat, inputs0: seq<File>, inputs1: seq<File>)
    requires level + 1 < NUM_LEVELS
  {
    (level > 0 ==> BoundaryClosed(v[level], inputs0)) && BoundaryClosed(v[level + 1], inputs1)
  }

  // The files of every level are in order.
  lemma LevelsInOrder(v: Version, next: nat, level: nat)
    requires VersionOk(v) && NumbersOk(v, next) && level < NUM_LEVELS
    ensures InOrder(level, v[level])
  {
    if level == 0 {
      assert Ordered(v[0]);
      assert forall f :: f in v[0] ==> f.Valid();
      forall i, j | 0 <= i < j < |v[0]|
        ensures v[0][i] != v[0][j]
      {
        assert Before(v[0][i], v[0][j]);
        BeforeIsStrict(v[0][i]);
      }
    }
  }

  lemma BeforeIsStrict(f: File)
    ensures !Before(f, f)
  {
  }

  lemma StoreInOrder(store: Store, level: nat)
    requires store.Valid() && level < NUM_LEVELS
    ensures InOrder(level, store.current[level]) && VersionOk(store.current)
  {
    hide VersionOk;
    LevelsInOrder(store.current, store.nextFileNumber, level);
  }

  /** What a compaction did: the job it carried out, the grandparents and the merged input
      that decided where its outputs were cut, and whether it only moved a file. */
  datatype Done = Done(job: Job, grandparents: seq<File>, input: seq<Entry>, moved: bool)

  ghost predicate FewGrandparents(files: seq<File>) {
    TotalFileSize(files) <= MAX_GRANDPARENT_OVERLAP_BYTES
  }

  /** The compaction of a version that starts with the given files, for the oldest snapshot
      ss: inputs are completed, and a single file that meets nothing below and little
      further down is moved unless the compaction is manual; otherwise exactly the
      survivors are written, cut where they have to be, under the numbers from next on. */
  ghost predicate IsCompaction(d: Done, v: Version, level: nat, start: seq<File>, manual: bool, ss: nat,
                               tableSize: seq<Entry> -> nat, next: nat, w: Version, next': nat)
    requires level + 1 < NUM_LEVELS
  {
    var job := d.job;
    && job.v == v && job.level == level && job.w == w
    && Completed(v, level, start, job.inputs0, job.inputs1)
    && (if level + 2 < NUM_LEVELS then Around(v, level + 2, job.inputs0 + job.inputs1, d.grandparents) else d.grandparents == [])
    && (d.moved <==> !manual && |job.inputs0| == 1 && job.inputs1 == [] && FewGrandparents(d.grandparents))
    && if d.moved then job.outputs == job.inputs0 && job.Ok(Elements(job.inputs0[0].entries)) && next' == next
       else
         && Sorted(d.input) && Elements(d.input) == job.Inputs() && job.Ok(Survivors(job.Inputs(), v, level, ss))
         && Written(Cutting(d.input, d.grandparents, tableSize, TARGET_FILE_SIZE), next, job.outputs)
         && next' == next + |job.outputs|
  }

  /** Complete the inputs, then move the one file of a trivial move, or merge the
      inputs and install what the compaction loop leaves of them. */
  method Compact(store: Store, level: nat, start: seq<File>, manual: bool, tableSize: seq<Entry> -> nat)
    returns (ghost done: Done, pointer: IKey)
    requires store.Valid() && level + 1 < NUM_LEVELS && StartOk(store.current, level, start) && InOrder(level, start)
    modifies store`current, store`nextFileNumber
    ensures IsCompaction(done, old(store.current), level, start, manual, store.SmallestSnapshot(), tableSize,
                         old(store.nextFileNumber), store.current, store.nextFileNumber)
    ensures InputsOk(old(store.current), level, done.job.inputs0, done.job.inputs1) && forall f :: f in start ==> f in done.job.inputs0
    ensures IsPointer(done.job.inputs0, pointer)
    ensures level > 0 && Gapless(old(store.current)[level], start) ==> Gapless(old(store.current)[level], done.job.inputs0)
    ensures done.moved ==> store.Entries() == old(store.Entries())
    ensures VersionOk(store.current) <==>
      if done.moved then level > 0 ==> BoundaryClosed(old(store.current)[level], done.job.inputs0)
      else PlacementSafe(old(store.current), level, done.job.inputs0, store.SmallestSnapshot())
    ensures VersionOk(store.current) ==> store.Valid()
    ensures Closed(old(store.current), level, done.job.inputs0, done.job.inputs1)
      ==> store.Valid() && SameMeaning(old(store.Entries()), store.Entries(), store.SmallestSnapshot())
  {
    hide VersionOk;
    hide Store.Valid;
    hide Store.Entries;
    hide InputsOk;
    hide PlacementSafe;
    hide BoundaryClosed;
    hide DeletionsSafe;
    hide NeighboursSafe;
    hide Completed;
    hide Around;
    hide IsPointer;
    hide Gapless;
    hide Job.Ok;
    hide Job.Inputs;
    hide Written;
    hide Survivors;
    hide Sorted;
    hide TotalFileSize;
    StoreInOrder(store, level);
    ghost var v := store.current;
    var inputs0, inputs1, grandparents;
    inputs0, inputs1, grandparents, pointer := SetupOtherInputs(store.current, level, start);
    NothingFurtherDown(level, grandparents, v, inputs0 + inputs1);
    if !manual && |inputs0| == 1 && inputs1 == [] && TotalFileSize(grandparents) <= MAX_GRANDPARENT_OVERLAP_BYTES {
      assert inputs0 == [inputs0[0]];
      SameEntriesSameMeaning(store.Entries(), store.SmallestSnapshot());
      store.TrivialMove(level, inputs0[0]);
      done := Done(Job(v, level, inputs0, inputs1, inputs0, store.current), grandparents, [], true);
    } else {
      var input := MergeInputs(store.current, level, inputs0, inputs1);
      ghost var job := store.RunCompaction(level, inputs0, inputs1, grandparents, input, tableSize);
      done := Done(job, grandparents, input, false);
    }
  }

  // Below the last level there are no grandparents.
  lemma NothingFurtherDown(level: nat, grandparents: seq<File>, v: Version, inputs: seq<File>)
    requires forall f :: f in grandparents <==> level + 2 < NUM_LEVELS && f in v[level + 2] && MeetsHull(f, inputs)
    ensures level + 2 >= NUM_LEVELS ==> grandparents == []
  {
    assert grandparents != [] ==> grandparents[0] in grandparents;
  }

  lemma SameEntriesSameMeaning(es: set<Entry>, ss: nat)
    ensures SameMeaning(es, es, ss)
  {
  }

  /** A compaction that a full level calls for, from the compaction pointer on; the pointer
      moves to where it ends. */
  method SizeCompaction(store: Store, level: nat, compactPointer: Option<IKey>, tableSize: seq<Entry> -> nat)
    returns (ghost done: Done, ghost start: seq<File>, pointer: IKey)
    requires store.Valid() && level + 1 < NUM_LEVELS && store.current[level] != []
    modifies store`current, store`nextFileNumber
    ensures
      var files := old(store.current)[level];
      var picked := files[PickedIndex(files, compactPointer)];
      if level > 0 then start == [picked] && GoesOn(files, compactPointer, done.job.inputs0, Some(pointer))
      else Around(old(store.current), 0, [picked], start)
    ensures IsCompaction(done, old(store.current), level, start, false, store.SmallestSnapshot(), tableSize,
                         old(store.nextFileNumber), store.current, store.nextFileNumber)
    ensures Closed(old(store.current), level, done.job.inputs0, done.job.inputs1)
      ==> store.Valid() && SameMeaning(old(store.Entries()), store.Entries(), store.SmallestSnapshot())
  {
    hide VersionOk;
    hide Store.Valid;
    hide Store.Entries;
    hide MeetsHull;
    hide Around;
    hide IsPointer;
    hide IsCompaction;
    hide PickedIndex;
    hide SameMeaning;
    hide Closed;
    StoreInOrder(store, level);
    ghost var v := store.current;
    var chosen := PickCompaction(store.current, level, compactPointer);
    start := chosen;
    if level > 0 {
      OneIsGapless(v, level, start[0]);
    }
    done, pointer := Compact(store, level, chosen, false, tableSize);
    assert start[0] in done.job.inputs0;
  }

  lemma OneIsGapless(v: Version, level: nat, f: File)
    requires VersionOk(v) && 0 < level < NUM_LEVELS && f in v[level]
    ensures Gapless(v[level], [f])
  {
    var files := v[level];
    forall i, j, k | 0 <= i <= j <= k < |files| && files[i] in [f] && files[k] in [f]
      ensures files[j] in [f]
    {
      if i < k {
        LargestIncreasing(files);
        LessIsTotalOrder(f.largest, f.largest, f.largest);
      }
    }
  }

  /** A compaction that was asked for; done when nothing meets the range. */
  method ManualCompaction(store: Store, level: nat, begin: Option<IKey>, end: Option<IKey>, tableSize: seq<Entry> -> nat)
    returns (nothing: bool, ghost done: Done, ghost start: seq<File>)
    requires store.Valid() && level + 1 < NUM_LEVELS
    modifies store`current, store`nextFileNumber
    ensures exists all ::
      && Overlapping(level, old(store.current)[level], UserOf(begin), UserOf(end), all)
      && if level > 0 then IsFront(all, start) else start == all
    ensures nothing <==> start == []
    ensures nothing ==> store.current == old(store.current) && store.nextFileNumber == old(store.nextFileNumber)
    ensures nothing ==> forall f :: f in store.current[level] ==> !OverlapsUserRange(f, UserOf(begin), UserOf(end))
    ensures !nothing ==>
      IsCompaction(done, old(store.current), level, start, true, store.SmallestSnapshot(), tableSize,
                   old(store.nextFileNumber), store.current, store.nextFileNumber)
    ensures !nothing && Closed(old(store.current), level, done.job.inputs0, done.job.inputs1)
      ==> store.Valid() && SameMeaning(old(store.Entries()), store.Entries(), store.SmallestSnapshot())
  {
    hide VersionOk;
    hide Store.Valid;
    hide Store.Entries;
    hide InputsOk;
    hide IsCompaction;
    hide Overlapping;
    hide IsFront;
    hide Gapless;
    hide SameMeaning;
    hide Closed;
    StoreInOrder(store, level);
    ghost var v := store.current;
    done := Done(Job(v, level, [], [], [], v), [], [], false);
    var chosen := CompactRange(store.current, level, begin, end);
    start := chosen;
    nothing := chosen == [];
    if !nothing {
      var pointer;
      done, pointer := Compact(store, level, chosen, true, tableSize);
    }
  }
}
