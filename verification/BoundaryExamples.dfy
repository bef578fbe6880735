/** Two smallest versions, reached by flushes and a compaction, on which the compaction
    inputs chosen by the source are not closed at a user key shared by neighbouring
    files. */
module BoundaryExamples {
  import opened Options
  import opened DbFormat
  import opened VersionFiles
  import opened VersionGet
  import opened VersionBuilder
  import opened CompactionRules
  import opened CompactionInputs
  import opened CompactionStep
  import opened CompactionPlacement
  import opened FlushStep

  function OneEntry(number: nat, e: Entry): File {
    File(number, 1, e.key, e.key, [e])
  }

  function TwoEntries(number: nat, d: Entry, e: Entry): File {
    File(number, 1, d.key, e.key, [d, e])
  }

  function Levels(l1: seq<File>, l2: seq<File>, l3: seq<File>): Version {
    [[], l1, l2, l3, [], [], []]
  }

  lemma NoEntries()
    ensures EntriesOf([]) == {} && FileSet([]) == {}
  {
  }

  lemma EntriesOfOne(f: File)
    ensures EntriesOf([f]) == Elements(f.entries) && FileSet([f]) == {f}
  {
    assert f in [f];
  }

  lemma EntriesOfTwo(f: File, g: File)
    ensures EntriesOf([f, g]) == Elements(f.entries) + Elements(g.entries) && FileSet([f, g]) == {f, g}
  {
    assert f in [f, g] && g in [f, g];
  }

  lemma EntriesOfLevels(l1: seq<File>, l2: seq<File>, l3: seq<File>)
    ensures AllEntries(Levels(l1, l2, l3)) == EntriesOf(l1) + EntriesOf(l2) + EntriesOf(l3)
  {
    hide EntriesOf;
    NoEntries();
    var v := Levels(l1, l2, l3);
    forall e | e in EntriesOf(l1) + EntriesOf(l2) + EntriesOf(l3)
      ensures e in AllEntries(v)
    {
      assert e in EntriesOf(v[1]) || e in EntriesOf(v[2]) || e in EntriesOf(v[3]);
    }
  }

  lemma LevelsOk(l1: seq<File>, l2: seq<File>, l3: seq<File>)
    requires ValidFiles(l1) && ValidFiles(l2) && ValidFiles(l3)
    requires DisjointSorted(l1) && DisjointSorted(l2) && DisjointSorted(l3)
    requires
      var a, b, c := EntriesOf(l1), EntriesOf(l2), EntriesOf(l3);
      && NewerThan(a, b) && NewerThan(a, c) && NewerThan(b, c)
      && UniqueSeqnos(a + b + c) && SmallSeqnos(a + b + c)
    ensures VersionOk(Levels(l1, l2, l3))
  {
    hide AllEntries;
    hide EntriesOf;
    NoEntries();
    EntriesOfLevels(l1, l2, l3);
    var v := Levels(l1, l2, l3);
    forall i, j | 0 <= i < j < NUM_LEVELS
      ensures NewerThan(EntriesOf(v[i]), EntriesOf(v[j]))
    {
      if i == 0 || i > 3 || j > 3 {
        assert EntriesOf(v[i]) == {} || EntriesOf(v[j]) == {};
      }
    }
    forall i | 0 <= i < NUM_LEVELS
      ensures ValidFiles(v[i]) && DisjointSorted(v[i])
    {
      assert 1 <= i <= 3 || v[i] == [];
    }
  }

  const NEW1 := Entry(IKey(1, 20, Put), "new")
  const OLD1 := Entry(IKey(1, 7, Put), "old")
  const DELETION := Entry(IKey(5, 9, Deletion), "")
  const NEW5 := Entry(IKey(5, 9, Put), "new")
  const OLD5 := Entry(IKey(5, 3, Put), "old")

  // Tables of memtables, and tables that compactions write.
  const FIRST := OneEntry(5, OLD5)
  const SECOND := TwoEntries(7, OLD1, DELETION)
  const OTHER := OneEntry(7, NEW5)
  const A := TwoEntries(11, OLD1, DELETION)
  const B := OneEntry(12, OLD5)
  const C := OneEntry(13, NEW1)
  const OUT := OneEntry(14, NEW1)
  const D := OneEntry(11, NEW5)

  lemma TableEntries()
    ensures Elements(FIRST.entries) == Elements(B.entries) == {OLD5}
    ensures Elements(SECOND.entries) == Elements(A.entries) == {OLD1, DELETION}
    ensures Elements(OTHER.entries) == Elements(D.entries) == {NEW5}
    ensures Elements(C.entries) == Elements(OUT.entries) == {NEW1}
  {
  }

  const EMPTY_VERSION := Levels([], [], [])
  const BOTTOM := Levels([], [FIRST], [])

  /* ---- steps ---- */

  /** A flushed memtable becomes the table f on the level it sinks to. */
  ghost predicate Flushes(v: Version, w: Version, level: nat, f: File) {
    Flushable(v, level, f) && Added(v, w, level, f) && SinksTo(v, f.smallest.user, f.largest.user, level)
  }

  // Nothing meets the range on a level without files.
  lemma NothingMet(v: Version, level: nat, lo: Key, hi: Key)
    requires level < NUM_LEVELS && v[level] == []
    ensures !OverlapsLevel(v, level, lo, hi) && TotalFileSize(Select(v[level], Some(lo), Some(hi))) == 0
  {
  }

  // A table flushed to the second level of an empty version.
  lemma FlushToBottom()
    ensures VersionOk(EMPTY_VERSION) && Flushes(EMPTY_VERSION, BOTTOM, 2, FIRST)
  {
    hide VersionOk;
    hide OverlapsLevel;
    hide AllEntries;
    hide EntriesOf;
    NoEntries();
    TableEntries();
    EntriesOfLevels([], [], []);
    LevelsOk([], [], []);
    EntriesOfOne(FIRST);
    forall i | 0 <= i < NUM_LEVELS
      ensures !OverlapsLevel(EMPTY_VERSION, i, 5, 5) && TotalFileSize(Select(EMPTY_VERSION[i], Some(5), Some(5))) == 0
    {
      NothingMet(EMPTY_VERSION, i, 5, 5);
    }
  }

  // A table that meets a file on the second level comes to rest above it.
  lemma FlushAbove(l2: seq<File>, f: File, g: File)
    requires g in l2 && OverlapsUserRange(g, Some(f.smallest.user), Some(f.largest.user))
    requires VersionOk(Levels([], l2, [])) && f.Valid() && Later(Elements(f.entries), EntriesOf(l2))
    requires UniqueSeqnos(Elements(f.entries)) && SmallSeqnos(Elements(f.entries))
    requires TotalFileSize(Select(l2, Some(f.smallest.user), Some(f.largest.user))) <= MAX_GRANDPARENT_OVERLAP_BYTES
    ensures Flushes(Levels([], l2, []), Levels([f], l2, []), 1, f)
  {
    hide VersionOk;
    hide AllEntries;
    hide EntriesOf;
    hide Elements;
    hide File.Valid;
    hide OverlapsLevel;
    hide Added;
    hide Later;
    hide UniqueSeqnos;
    NoEntries();
    EntriesOfLevels([], l2, []);
    var v := Levels([], l2, []);
    NothingMet(v, 0, f.smallest.user, f.largest.user);
    NothingMet(v, 1, f.smallest.user, f.largest.user);
    FileMet(v, 2, g, f.smallest.user, f.largest.user);
    AddedAbove(l2, f);
    assert AllEntries(v) == EntriesOf(l2);
  }

  lemma FileMet(v: Version, level: nat, g: File, lo: Key, hi: Key)
    requires level < NUM_LEVELS && g in v[level] && OverlapsUserRange(g, Some(lo), Some(hi))
    ensures OverlapsLevel(v, level, lo, hi)
  {
  }

  lemma AddedAbove(l2: seq<File>, f: File)
    requires VersionOk(Levels([], l2, []))
    ensures Added(Levels([], l2, []), Levels([f], l2, []), 1, f)
  {
    hide VersionOk;
    NoEntries();
    EntriesOfOne(f);
    var v, w := Levels([], l2, []), Levels([f], l2, []);
    VersionInOrder(v);
    forall i | 0 <= i < NUM_LEVELS
      ensures Ordered(w[i]) && FileSet(w[i]) == FileSet(v[i]) + if i == 1 then {f} else {}
    {
      assert i != 1 ==> w[i] == v[i];
    }
  }

  lemma VersionInOrder(v: Version)
    requires VersionOk(v)
    ensures forall i :: 1 <= i < NUM_LEVELS ==> Ordered(v[i])
  {
    forall i | 1 <= i < NUM_LEVELS
      ensures Ordered(v[i])
    {
      forall j, k | 0 <= j < k < |v[i]|
        ensures Before(v[i][j], v[i][k])
      {
        assert v[i][j] in v[i];
        SmallestBeforeLargest(v[i][j]);
      }
    }
  }

  // The two files are small.
  lemma FewBytes(files: seq<File>, lo: Key, hi: Key)
    requires |files| <= 2 && forall f :: f in files ==> f.size == 1
    ensures TotalFileSize(Select(files, Some(lo), Some(hi))) <= MAX_GRANDPARENT_OVERLAP_BYTES
  {
    SizeOfSelected(files, lo, hi);
  }

  lemma {:induction false} SizeOfSelected(files: seq<File>, lo: Key, hi: Key)
    requires forall f :: f in files ==> f.size == 1
    ensures |Select(files, Some(lo), Some(hi))| <= |files|
    ensures TotalFileSize(Select(files, Some(lo), Some(hi))) == |Select(files, Some(lo), Some(hi))|
  {
    if files != [] {
      SizeOfSelected(files[..|files| - 1], lo, hi);
    }
    SizeOfOnes(Select(files, Some(lo), Some(hi)));
  }

  lemma {:induction false} SizeOfOnes(files: seq<File>)
    requires forall f :: f in files ==> f.size == 1
    ensures TotalFileSize(files) == |files|
  {
    if files != [] {
      SizeOfOnes(files[1..]);
    }
  }

  /* ---- both versions ---- */

  // A table over the one of the second level, with entries newer than snapshot 5.
  ghost predicate IsUpper(s: File) {
    && s.Valid() && s.size == 1 && s.number < 11 && s.largest.user == 5 && s.largest.seqno > 5 && s.smallest.user <= 5
    && (forall e :: e in s.entries ==> 5 < e.key.seqno <= MAX_SEQUENCE)
    && UniqueSeqnos(Elements(s.entries)) && forall e :: e in s.entries ==> e.key.user < 5 || e.key == s.largest
  }

  function Merged(s: File): Job {
    Job(Levels([s], [FIRST], []), 1, [s], [FIRST], [s.(number := 11), B], Levels([], [s.(number := 11), B], []))
  }

  /** A table is flushed to the second level and one that meets it above it. They are
      compacted while a reader holds snapshot 5, and the output is split inside user
      key 5. */
  ghost predicate Reached(s: File) {
    && Flushes(EMPTY_VERSION, BOTTOM, 2, FIRST)
    && Flushes(BOTTOM, Merged(s).v, 1, s)
    && Merged(s).Ok(Survivors(Merged(s).Inputs(), Merged(s).v, 1, 5))
    && VersionOk(Merged(s).w)
  }

  lemma IsReached(s: File)
    requires IsUpper(s)
    ensures Reached(s)
  {
    hide VersionOk;
    hide AllEntries;
    hide Flushes;
    hide IsUpper;
    FlushToBottom();
    SecondFlush(s);
    MergedIsOk(s);
  }

  lemma SecondFlush(s: File)
    requires IsUpper(s) && VersionOk(EMPTY_VERSION) && Flushes(EMPTY_VERSION, BOTTOM, 2, FIRST)
    ensures Flushes(BOTTOM, Merged(s).v, 1, s) && VersionOk(Merged(s).v)
  {
    hide VersionOk;
    hide AllEntries;
    FlushKeepsVersionOk(EMPTY_VERSION, BOTTOM, 2, FIRST);
    EntriesOfOne(FIRST);
    FewBytes([FIRST], s.smallest.user, s.largest.user);
    assert FIRST in [FIRST];
    FlushAbove([FIRST], s, FIRST);
    FlushKeepsVersionOk(BOTTOM, Merged(s).v, 1, s);
  }

  lemma MergedIsOk(s: File)
    requires IsUpper(s) && VersionOk(Merged(s).v)
    ensures Merged(s).Ok(Survivors(Merged(s).Inputs(), Merged(s).v, 1, 5)) && VersionOk(Merged(s).w)
  {
    hide VersionOk;
    hide AllEntries;
    hide EntriesOf;
    var job, p := Merged(s), s.(number := 11);
    var es := Elements(s.entries) + {OLD5};
    MergedEntries(s);
    NoEntries();
    EntriesOfOne(s);
    EntriesOfOne(FIRST);
    EntriesOfTwo(p, B);
    AllSurvive(s, job.v);
    MergedInputs(s);
    MergedSeqnos(s);
    LevelsOk([], [p, B], []);
    VersionInOrder(job.w);
    assert job.Installed();
  }

  lemma MergedEntries(s: File)
    requires IsUpper(s)
    ensures EntriesOf([s] + [FIRST]) == Elements(s.entries) + {OLD5}
    ensures EntriesOf([s.(number := 11), B]) == Elements(s.entries) + {OLD5}
  {
    assert [s] + [FIRST] == [s, FIRST];
    EntriesOfTwo(s, FIRST);
    EntriesOfTwo(s.(number := 11), B);
    TableEntries();
  }

  lemma AllSurvive(s: File, v: Version)
    requires IsUpper(s)
    ensures var es := Elements(s.entries) + {OLD5}; Survivors(es, v, 1, 5) == es
  {
    var es := Elements(s.entries) + {OLD5};
    forall e | e in es
      ensures !Hidden(es, 5, e) && !Obsolete(v, 1, 5, e)
    {
    }
  }

  lemma MergedInputs(s: File)
    requires IsUpper(s)
    ensures InputsOk(Merged(s).v, 1, [s], [FIRST])
    ensures ValidFiles([s.(number := 11), B]) && DisjointSorted([s.(number := 11), B])
  {
    assert s in [s] && FIRST in [FIRST];
  }

  lemma MergedSeqnos(s: File)
    requires IsUpper(s)
    ensures UniqueSeqnos(Elements(s.entries) + {OLD5}) && SmallSeqnos(Elements(s.entries) + {OLD5})
  {
  }

  /* ---- the output level ---- */

  const BEFORE := Levels([C], [A, B], [])
  const AFTER := Levels([], [OUT, B], [])
  const JOB := Job(BEFORE, 1, [C], [A], [OUT], AFTER)

  /** A table C is flushed above the files A and B of the second level, and is compacted
      with A. */
  lemma OutputLevelReached()
    ensures Reached(SECOND) && Merged(SECOND).w == Levels([], [A, B], [])
    ensures Flushes(Levels([], [A, B], []), BEFORE, 1, C)
    ensures JOB.Ok(Survivors(JOB.Inputs(), BEFORE, 1, 100))
  {
    hide VersionOk;
    hide AllEntries;
    hide Flushes;
    NeighbourReached();
    NeighbourInstalled();
  }

  /** The output level: its file A ends with the deletion of user key 5, the next
      file B goes on with the older value of 5. Compacting C takes A but not B and
      drops the deletion: before, a reader of key 5 finds nothing; afterwards it finds
      the deleted value. */
  lemma OutputLevelNeighbour()
    ensures VersionOk(BEFORE) && BoundaryClosed([C], [C]) && !BoundaryClosed([A, B], [A])
    ensures !DeletionsSafe(JOB.Inputs(), {} + JOB.Rest(), BEFORE, 1, 100)
    ensures VersionOk(AFTER)
    ensures Lookup(AllEntries(BEFORE), 5, 100) == None && Lookup(AllEntries(AFTER), 5, 100) == Some("old")
  {
    hide VersionOk;
    hide DeletionsSafe;
    hide AllEntries;
    hide Lookup;
    hide Flushes;
    assert C in [C] && A in [A, B] && B in [A, B] && A in [A];
    NeighbourReached();
    NeighbourUnsafe();
    NeighbourReads();
    AfterOk();
  }

  lemma NeighbourReached()
    ensures Reached(SECOND) && Merged(SECOND).w == Levels([], [A, B], [])
    ensures Flushes(Levels([], [A, B], []), BEFORE, 1, C) && VersionOk(BEFORE)
  {
    hide VersionOk;
    hide IsUpper;
    hide Flushes;
    SecondIsUpper();
    IsReached(SECOND);
    ThirdFlush();
  }

  lemma ThirdFlush()
    requires VersionOk(Levels([], [A, B], []))
    ensures Flushes(Levels([], [A, B], []), BEFORE, 1, C) && VersionOk(BEFORE)
  {
    hide VersionOk;
    hide AllEntries;
    hide EntriesOf;
    hide Select;
    hide TotalFileSize;
    TableEntries();
    EntriesOfTwo(A, B);
    FewBytes([A, B], 1, 1);
    NeighbourSeqnos();
    assert A in [A, B];
    FlushAbove([A, B], C, A);
    FlushKeepsVersionOk(Levels([], [A, B], []), BEFORE, 1, C);
  }

  lemma SecondIsUpper()
    ensures IsUpper(SECOND) && SECOND.(number := 11) == A
  {
  }

  lemma NeighbourSeqnos()
    ensures Later({NEW1}, {OLD1, DELETION} + {OLD5}) && UniqueSeqnos({NEW1}) && SmallSeqnos({NEW1})
  {
  }

  lemma NeighbourVersionSets()
    ensures AllEntries(BEFORE) == {NEW1, OLD1, DELETION, OLD5} && AllEntries(AFTER) == {NEW1, OLD5}
  {
    hide AllEntries;
    hide EntriesOf;
    hide Elements;
    NoEntries();
    TableEntries();
    EntriesOfLevels([C], [A, B], []);
    EntriesOfLevels([], [OUT, B], []);
    EntriesOfOne(C);
    EntriesOfTwo(A, B);
    EntriesOfTwo(OUT, B);
  }

  lemma NeighbourJobSets()
    ensures JOB.Inputs() == {NEW1, OLD1, DELETION} && EntriesOf([OUT]) == {NEW1}
  {
    hide EntriesOf;
    hide Elements;
    TableEntries();
    EntriesOfOne(OUT);
    EntriesOfTwo(C, A);
    assert [C] + [A] == [C, A];
  }

  lemma NeighbourReads()
    ensures Lookup(AllEntries(BEFORE), 5, 100) == None && Lookup(AllEntries(AFTER), 5, 100) == Some("old")
  {
    hide AllEntries;
    NeighbourVersionSets();
    var before, after := {NEW1, OLD1, DELETION, OLD5}, {NEW1, OLD5};
    assert Newest(before, 5, 100, DELETION) && Newest(after, 5, 100, OLD5);
    LookupAt(before, 5, 100, DELETION);
    LookupAt(after, 5, 100, OLD5);
  }

  lemma NeighbourInstalled()
    requires VersionOk(BEFORE)
    ensures JOB.Ok(Survivors(JOB.Inputs(), BEFORE, 1, 100))
  {
    hide VersionOk;
    hide AllEntries;
    hide EntriesOf;
    hide Survivors;
    NeighbourJobSets();
    NeighbourSurvivors();
    NeighbourInputs();
    NeighbourFiles();
  }

  lemma NeighbourSurvivors()
    ensures Survivors({NEW1, OLD1, DELETION}, BEFORE, 1, 100) == {NEW1}
  {
    var es := {NEW1, OLD1, DELETION};
    assert Hidden(es, 100, OLD1) && !Hidden(es, 100, NEW1);
    assert IsBase(BEFORE, 1, 5) && Obsolete(BEFORE, 1, 100, DELETION);
  }

  lemma NeighbourInputs()
    ensures InputsOk(BEFORE, 1, [C], [A]) && ValidFiles([OUT]) && DisjointSorted([OUT])
  {
    assert C in [C] && A in BEFORE[2];
  }

  lemma NeighbourFiles()
    ensures JOB.Installed()
  {
    NoEntries();
    EntriesOfOne(A);
    EntriesOfOne(C);
    EntriesOfOne(OUT);
    EntriesOfTwo(A, B);
    EntriesOfTwo(OUT, B);
  }

  lemma AfterOk()
    ensures VersionOk(AFTER)
  {
    hide VersionOk;
    hide AllEntries;
    hide EntriesOf;
    NoEntries();
    TableEntries();
    EntriesOfTwo(OUT, B);
    LevelsOk([], [OUT, B], []);
  }

  lemma NeighbourUnsafe()
    ensures !DeletionsSafe(JOB.Inputs(), {} + JOB.Rest(), BEFORE, 1, 100)
  {
    hide AllEntries;
    hide EntriesOf;
    NeighbourJobSets();
    NeighbourRest();
    assert {} + JOB.Rest() == {OLD5} && Newest({OLD5}, 5, 100, OLD5);
    assert IsBase(BEFORE, 1, 5) && Obsolete(BEFORE, 1, 100, DELETION);
    assert !Hidden({NEW1, OLD1, DELETION}, 100, DELETION);
  }

  lemma NeighbourRest()
    ensures JOB.Rest() == {OLD5}
  {
    assert B in BEFORE[2] && !JOB.IsInput(2, B) && OLD5 in B.entries;
    assert C in [C] && A in [A];
    forall e | e in JOB.Rest()
      ensures e == OLD5
    {
      var i, f :| 0 <= i < NUM_LEVELS && f in BEFORE[i] && !JOB.IsInput(i, f) && e in f.entries;
      assert f == B;
    }
  }

  /* ---- the input level ---- */

  const SPLIT := Levels([], [D, B], [])
  const MOVED := Levels([], [B], [D])
  const MOVE := Job(SPLIT, 2, [D], [], [D], MOVED)

  lemma InputLevelReached()
    ensures Reached(OTHER) && Merged(OTHER).w == SPLIT && VersionOk(SPLIT) && MOVE.Ok({NEW5})
  {
    hide VersionOk;
    hide IsUpper;
    OtherIsUpper();
    IsReached(OTHER);
    MoveInstalled();
  }

  /** The input level: file D ends with the newest value of user key 5, the next
      file B goes on with an older one. Moving D alone puts the newer value below the
      older one, and a reader, who takes the first level that has any, then finds the
      older value. */
  lemma InputLevelNeighbour()
    ensures VersionOk(SPLIT) && !BoundaryClosed([D, B], [D]) && !PlacementSafe(SPLIT, 2, [D], 100)
    ensures !VersionOk(MOVED) && Shaped(MOVED) && AllEntries(MOVED) == AllEntries(SPLIT)
    ensures LayeredLookup(SPLIT, 5, 100, 0) == Lookup(AllEntries(SPLIT), 5, 100) == Some("new")
    ensures LayeredLookup(MOVED, 5, 100, 0) == Some("old")
  {
    hide VersionOk;
    hide Shaped;
    hide AllEntries;
    hide Lookup;
    InputLevelReached();
    MoveUnsafe();
    MisplacedVersion();
    SplitReads();
    MovedReads();
  }

  lemma OtherIsUpper()
    ensures IsUpper(OTHER) && OTHER.(number := 11) == D
  {
  }

  lemma MoveInstalled()
    requires VersionOk(SPLIT)
    ensures MOVE.Ok({NEW5})
  {
    hide VersionOk;
    hide EntriesOf;
    NoEntries();
    TableEntries();
    EntriesOfOne(B);
    EntriesOfOne(D);
    EntriesOfTwo(D, B);
    assert D in [D] && [D] + [] == [D];
    assert MOVE.Installed();
  }

  lemma MoveUnsafe()
    ensures !BoundaryClosed([D, B], [D]) && !PlacementSafe(SPLIT, 2, [D], 100)
  {
    hide EntriesOf;
    TableEntries();
    EntriesOfOne(D);
    assert D in [D, B] && B in [D, B] && D in [D];
    assert Newest(EntriesOf([D]), 5, MAX_SEQUENCE, NEW5);
    assert !Obsolete(SPLIT, 2, 100, NEW5);
  }

  lemma MovedSets()
    ensures AllEntries(SPLIT) == AllEntries(MOVED) == {NEW5, OLD5}
    ensures EntriesOf(MOVED[2]) == {OLD5} && EntriesOf(MOVED[3]) == {NEW5}
  {
    hide AllEntries;
    hide EntriesOf;
    NoEntries();
    TableEntries();
    EntriesOfOne(B);
    EntriesOfOne(D);
    EntriesOfTwo(D, B);
    EntriesOfLevels([], [D, B], []);
    EntriesOfLevels([], [B], [D]);
  }

  lemma MisplacedVersion()
    ensures !VersionOk(MOVED) && Shaped(MOVED)
  {
    hide AllEntries;
    hide EntriesOf;
    MovedSets();
    assert !NewerThan(EntriesOf(MOVED[2]), EntriesOf(MOVED[3]));
  }

  lemma SplitReads()
    requires VersionOk(SPLIT)
    ensures LayeredLookup(SPLIT, 5, 100, 0) == Lookup(AllEntries(SPLIT), 5, 100) == Some("new")
  {
    hide VersionOk;
    hide AllEntries;
    MovedSets();
    LayersHoldNewest(SPLIT, 5, 100, 0);
    assert Newest({NEW5, OLD5}, 5, 100, NEW5);
    LookupAt({NEW5, OLD5}, 5, 100, NEW5);
  }

  lemma MovedReads()
    ensures AllEntries(MOVED) == AllEntries(SPLIT) && LayeredLookup(MOVED, 5, 100, 0) == Some("old")
  {
    hide AllEntries;
    hide EntriesOf;
    NoEntries();
    MovedSets();
    assert NothingVisible(EntriesOf(MOVED[0]), 5, 100) && NothingVisible(EntriesOf(MOVED[1]), 5, 100);
    assert Visible(OLD5, 5, 100) && !NothingVisible(EntriesOf(MOVED[2]), 5, 100);
    assert Newest({OLD5}, 5, 100, OLD5);
    LookupAt({OLD5}, 5, 100, OLD5);
    assert LayeredLookup(MOVED, 5, 100, 0) == LayeredLookup(MOVED, 5, 100, 1) == LayeredLookup(MOVED, 5, 100, 2);
  }
}
