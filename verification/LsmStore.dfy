/** The store as a state machine: writes, memtable switch, flush, compaction and
    trivial move, each an atomic step, and reads at a snapshot
    (contrib/leveldb/db/db_impl.cc). */
module LsmStore {
  import opened Options
  import opened DbFormat
  import opened VersionFiles
  import opened VersionGet
  import opened VersionBuilder
  import opened CompactionRules
  import opened CompactionInputs
  import opened OutputCuts
  import opened CompactionWork
  import opened CompactionStep
  import opened CompactionPlacement
  import opened CompactionDeletions
  import opened FlushStep
  import opened MemTables
  import opened StoreEdits

  lemma EmptyStoreOk(v: Version)
    requires v == seq(NUM_LEVELS, _ => [])
    ensures VersionOk(v) && NumbersOk(v, 2) && AllEntries(v) == {}
    ensures MemOk([], None, {}, 0)
  {
    hide VersionOk;
    hide AllEntries;
    EmptyVersion(v);
  }

  lemma EmptyVersion(v: Version)
    requires v == seq(NUM_LEVELS, _ => [])
    ensures VersionOk(v) && AllEntries(v) == {}
  {
    assert forall i :: 0 <= i < NUM_LEVELS ==> v[i] == [] && EntriesOf(v[i]) == {};
    assert AllEntries(v) == {};
  }

  class Store {
    var mem: seq<Entry>
    var imm: Option<seq<Entry>>
    var current: Version
    var lastSequence: nat
    var nextFileNumber: nat
    var snapshots: seq<nat>

    ghost function Entries(): set<Entry>
      reads this
    {
      Buffered(mem, imm) + AllEntries(current)
    }

    ghost predicate Valid()
      reads this
    {
      && VersionOk(current) && NumbersOk(current, nextFileNumber)
      && MemOk(mem, imm, AllEntries(current), lastSequence)
      && SnapshotsOk(snapshots, lastSequence)
    }

    /** The oldest sequence number some reader may still ask for. */
    function SmallestSnapshot(): nat
      reads this
    {
      if snapshots == [] then lastSequence else snapshots[0]
    }

    constructor ()
      ensures Valid() && Entries() == {} && lastSequence == 0 && snapshots == []
    {
      mem, imm, current := [], None, seq(NUM_LEVELS, _ => []);
      lastSequence, nextFileNumber, snapshots := 0, 2, [];
      new;
      hide VersionOk;
      EmptyStoreOk(current);
    }

    /* ---- snapshots ---- */

    method GetSnapshot() returns (s: nat)
      requires Valid()
      modifies this`snapshots
      ensures Valid() && s == lastSequence && snapshots == old(snapshots) + [s]
    {
      hide VersionOk;
      hide NumbersOk;
      hide MemOk;
      s := lastSequence;
      snapshots := snapshots + [s];
    }

    method ReleaseSnapshot(i: nat)
      requires Valid() && i < |snapshots|
      modifies this`snapshots
      ensures Valid() && snapshots == old(snapshots[..i] + snapshots[i + 1..])
      ensures SmallestSnapshot() >= old(SmallestSnapshot())
    {
      hide VersionOk;
      hide NumbersOk;
      hide MemOk;
      ReleaseKeepsOrder(snapshots, i, lastSequence);
      snapshots := snapshots[..i] + snapshots[i + 1..];
    }

    /* ---- reads ---- */

    method Get(k: Key, s: nat) returns (r: Option<Value>)
      requires Valid()
      ensures r == Lookup(Entries(), k, s)
    {
      var e := MemTableGet(mem, k, s);
      if e.None? && imm.Some? {
        e := MemTableGet(imm.value, k, s);
      }
      if e.Some? {
        assert Newest(Entries(), k, s, e.value);
        LookupAt(Entries(), k, s, e.value);
        return if e.value.key.kind.Put? then Some(e.value.value) else None;
      }
      OkIsShaped(current);
      r := VersionGet.Get(current, k, s);
      LookupFallsThrough(Buffered(mem, imm), AllEntries(current), k, s);
    }

    /* ---- writes ---- */

    /** Insert a batch into the memtable and publish its last sequence number. */
    method Write(ops: seq<Op>)
      requires Valid() && lastSequence + |ops| < MAX_SEQUENCE
      modifies this`mem, this`lastSequence
      ensures Valid() && lastSequence == old(lastSequence) + |ops|
      ensures Entries() == old(Entries()) + Numbered(ops, old(lastSequence) + 1)
      ensures forall k, s: nat :: s <= old(lastSequence) ==> Lookup(Entries(), k, s) == old(Lookup(Entries(), k, s))
      ensures forall k :: Lookup(Entries(), k, lastSequence) == After(ops, k, old(Lookup(Entries(), k, lastSequence)))
    {
      hide Valid;
      hide Entries;
      hide Numbered;
      hide Lookup;
      hide After;
      ghost var last, before := lastSequence, Entries();
      SeqnosPublished();
      InsertInto(ops);
      BatchLookups(before, ops, last);
    }

    lemma SeqnosPublished()
      requires Valid()
      ensures UniqueSeqnos(Entries()) && SeqnosWithin(Entries(), lastSequence)
    {
    }

    // WriteBatchInternal::InsertInto.
    method InsertInto(ops: seq<Op>)
      requires Valid() && lastSequence + |ops| < MAX_SEQUENCE
      modifies this`mem, this`lastSequence
      ensures Valid() && lastSequence == old(lastSequence) + |ops|
      ensures Entries() == old(Entries()) + Numbered(ops, old(lastSequence) + 1)
    {
      hide Valid;
      hide Entries;
      hide Numbered;
      ghost var last, before := lastSequence, Entries();
      NumberedNone(before, last + 1);
      assert ops[..0] == [];
      for i := 0 to |ops|
        invariant Valid() && lastSequence == last + i
        invariant Entries() == before + Numbered(ops[..i], last + 1)
      {
        var e := Entry(IKey(ops[i].key, lastSequence + 1, ops[i].kind), ops[i].value);
        NumberedStep(before, ops, i, last + 1);
        AddEntry(e);
      }
      assert ops[..|ops|] == ops;
    }

    // MemTableInserter: one entry under the next sequence number.
    method AddEntry(e: Entry)
      requires Valid() && e.key.seqno == lastSequence + 1 < MAX_SEQUENCE
      modifies this`mem, this`lastSequence
      ensures Valid() && lastSequence == old(lastSequence) + 1
      ensures Entries() == old(Entries()) + {e}
      ensures UniqueSeqnos(Entries()) && SeqnosWithin(old(Entries()), old(lastSequence))
    {
      hide VersionOk;
      AddKeepsMemOk(mem, imm, AllEntries(current), lastSequence, e);
      mem := InsertEntry(mem, e);
      lastSequence := lastSequence + 1;
    }

    /** MakeRoomForWrite: a full memtable becomes the immutable one. */
    method SwitchMemTable()
      requires Valid() && imm.None?
      modifies this`mem, this`imm
      ensures Valid() && imm == Some(old(mem)) && mem == []
      ensures Entries() == old(Entries())
    {
      hide VersionOk;
      hide NumbersOk;
      hide MemOk;
      hide Buffered;
      SwitchKeepsMemOk(mem, AllEntries(current), lastSequence);
      imm, mem := Some(mem), [];
    }

    /* ---- installing versions ---- */

    /** VersionSet::LogAndApply: build the next version and make it current. Every level
        is the old one with the edit applied, in order when the numbers are fresh. */
    method LogAndApply(edit: Edit)
      requires edit.Valid() && forall i :: 0 <= i < NUM_LEVELS ==> WeaklyOrdered(current[i])
      modifies this`current
      ensures forall i :: 0 <= i < NUM_LEVELS ==>
        WeaklyOrdered(current[i]) && FileSet(current[i]) == Live(FileSet(old(current)[i]) + AddKept({}, edit.added, i), NetDeleted(edit, i))
      ensures FreshNumbers(old(current), edit) ==> forall i :: 0 <= i < NUM_LEVELS ==>
        (Ordered(old(current)[i]) ==> Ordered(current[i])) && FileSet(current[i]) == EditLevel(FileSet(old(current)[i]), edit, i)
    {
      hide Ordered;
      hide WeaklyOrdered;
      hide PlacesApart;
      hide FreshNumbers;
      hide AddedAt;
      hide DeletedAt;
      hide Numbers;
      hide AddKept;
      var builder := new Builder(current);
      builder.Apply(edit);
      var v := builder.SaveTo();
      forall i | 0 <= i < NUM_LEVELS
        ensures FileSet(v[i]) == Live(FileSet(current[i]) + AddKept({}, edit.added, i), NetDeleted(edit, i))
        ensures FreshNumbers(current, edit) ==>
          AddKept({}, edit.added, i) == AddedAt(edit.added, i) && (Ordered(current[i]) ==> Ordered(v[i]))
      {
        assert FileSet([]) == {} && {} + DeletedAt(edit, i) == DeletedAt(edit, i);
        if FreshNumbers(current, edit) {
          FreshIsKept(current, edit, i);
        }
      }
      current := v;
    }

    /** CompactMemTable: the immutable memtable becomes a table as deep as it may
        sink; an empty one leaves no table. */
    method CompactMemTable(tableSize: seq<Entry> -> nat)
      requires Valid() && imm.Some?
      modifies this`imm, this`current, this`nextFileNumber
      ensures Valid() && imm == None && nextFileNumber == old(nextFileNumber) + 1
      ensures Entries() == old(Entries())
      ensures old(imm.value) == [] ==> current == old(current)
      ensures old(imm.value) != [] ==>
        var f := MakeFile(old(nextFileNumber), old(imm.value), tableSize);
        exists level :: SinksTo(old(current), f.smallest.user, f.largest.user, level) && Added(old(current), current, level, f)
    {
      hide VersionOk;
      hide MemOk;
      hide NumbersOk;
      hide AllEntries;
      hide Buffered;
      hide Added;
      hide Flushable;
      hide SinksTo;
      var number := nextFileNumber;
      nextFileNumber := nextFileNumber + 1;
      ghost var v := current;
      VersionShape(v, number);
      if imm.value == [] {
        LogAndApply(Edit({}, []));
        SameVersion(v, current);
        NumbersGrow(v, number);
        FlushedMemOk(mem, imm.value, AllEntries(v), lastSequence, AllEntries(v));
      } else {
        var f := MakeFile(number, imm.value, tableSize);
        MemTableTable(mem, imm.value, AllEntries(v), lastSequence);
        var level := PickLevelForMemTableOutput(current, f.smallest.user, f.largest.user);
        SinksAway(v, f.smallest.user, f.largest.user, level);
        NewNumber(v, number, f, level);
        LogAndApply(Edit({}, [(level, f)]));
        FlushInstalled(v, current, level, f, number);
        MakeFlushable(v, level, f);
        FlushKeepsVersionOk(v, current, level, f);
        FlushedMemOk(mem, imm.value, AllEntries(v), lastSequence, AllEntries(current));
      }
      imm := None;
    }

    // The compaction loop and the edit that installs its outputs, for a smallest
    // snapshot ss.
    method CompactAndInstall(level: nat, inputs0: seq<File>, inputs1: seq<File>, grandparents: seq<File>,
                             input: seq<Entry>, ss: nat, tableSize: seq<Entry> -> nat)
      returns (ghost job: Job)
      requires VersionOk(current) && NumbersOk(current, nextFileNumber) && ss < MAX_SEQUENCE
      requires level + 1 < NUM_LEVELS && InputsOk(current, level, inputs0, inputs1)
      requires ValidFiles(grandparents) && DisjointSorted(grandparents)
      requires Sorted(input) && Elements(input) == EntriesOf(inputs0 + inputs1)
      modifies this`current, this`nextFileNumber
      ensures job == Job(old(current), level, inputs0, inputs1, job.outputs, current)
      ensures job.Ok(Survivors(job.Inputs(), job.v, level, ss)) && job.Inputs() == Elements(input)
      ensures NumbersOk(current, nextFileNumber) && nextFileNumber == old(nextFileNumber) + |job.outputs|
      ensures Written(Cutting(input, grandparents, tableSize, TARGET_FILE_SIZE), old(nextFileNumber), job.outputs)
    {
      hide WellCut;
      hide WeaklyOrdered;
      hide FreshNumbers;
      hide EditLevel;
      hide AddKept;
      hide Live;
      hide NetDeleted;
      hide VersionOk;
      hide NumbersOk;
      hide InputsOk;
      hide AllEntries;
      hide Job.Ok;
      hide Survivors;
      hide Sorted;
      hide File.Valid;
      hide Ordered;
      hide EntriesOf;
      ghost var v := current;
      ghost var job0 := Job(v, level, inputs0, inputs1, [], v);
      VersionShape(v, nextFileNumber);
      InputsInclude(job0);
      var c := new Compaction(level, current, grandparents);
      var state := new CompactionState(nextFileNumber, TARGET_FILE_SIZE, tableSize);
      DoCompactionWork(c, state, input, ss);
      var edit := CompactionEdit(level, inputs0, inputs1, state.outputs);
      job := job0.(outputs := state.outputs);
      OutputsAreNew(job, nextFileNumber);
      LogAndApply(edit);
      job := job.(w := current);
      SameInputs(job0, job);
      CompactionInstalled(job, nextFileNumber);
      SurvivorsAreInputs(job.Inputs(), v, level, ss);
      OutputsMakeJob(job, Survivors(job.Inputs(), v, level, ss));
      nextFileNumber := state.nextFileNumber;
    }

    /** Run a compaction over chosen inputs and install its outputs. The merged
        input is what the merging iterator over the input files yields. The
        invariant, and what live readers see, survive exactly when the inputs
        meet the two conditions; closing the inputs at the boundaries they share
        with their neighbours is enough for both. */
    method RunCompaction(level: nat, inputs0: seq<File>, inputs1: seq<File>, grandparents: seq<File>,
                         input: seq<Entry>, tableSize: seq<Entry> -> nat)
      returns (ghost job: Job)
      requires Valid() && level + 1 < NUM_LEVELS && InputsOk(current, level, inputs0, inputs1)
      requires ValidFiles(grandparents) && DisjointSorted(grandparents)
      requires Sorted(input) && Elements(input) == EntriesOf(inputs0 + inputs1)
      modifies this`current, this`nextFileNumber
      ensures job == Job(old(current), level, inputs0, inputs1, job.outputs, current)
      ensures job.Ok(Survivors(job.Inputs(), job.v, level, SmallestSnapshot())) && job.Inputs() == Elements(input)
      ensures nextFileNumber == old(nextFileNumber) + |job.outputs|
      ensures Written(Cutting(input, grandparents, tableSize, TARGET_FILE_SIZE), old(nextFileNumber), job.outputs)
      ensures VersionOk(current) <==> PlacementSafe(old(current), level, inputs0, SmallestSnapshot())
      ensures SameMeaning(old(Entries()), Entries(), SmallestSnapshot())
        <==> NeighboursSafe(
               Job(old(current), level, inputs0, inputs1, [], old(current)), old(Buffered(mem, imm)), SmallestSnapshot())
      ensures VersionOk(current) ==> Valid()
      ensures (level > 0 ==> BoundaryClosed(old(current)[level], inputs0))
        && BoundaryClosed(old(current)[level + 1], inputs1)
        ==> Valid() && SameMeaning(old(Entries()), Entries(), SmallestSnapshot())
    {
      hide VersionOk;
      hide MemOk;
      hide NumbersOk;
      hide InputsOk;
      hide AllEntries;
      hide Job.Ok;
      hide Job.Rest;
      hide Survivors;
      hide DeletionsSafe;
      hide SameMeaning;
      hide NeighboursSafe;
      hide PlacementSafe;
      hide Sorted;
      hide File.Valid;
      hide Written;
      ghost var v, upper := current, Buffered(mem, imm);
      var ss := SmallestSnapshot();
      SmallestIsSmall(mem, imm, AllEntries(v), lastSequence, snapshots);
      job := CompactAndInstall(level, inputs0, inputs1, grandparents, input, ss, tableSize);
      SameNeighbours(Job(v, level, inputs0, inputs1, [], v), job, upper, ss);
      TablesShrink(mem, imm, lastSequence, job, Survivors(job.Inputs(), v, level, ss));
      UpperIsNewer(mem, imm, AllEntries(v), lastSequence);
      CompactionKeepsVersionOk(job, ss);
      CompactionKeepsMeaning(job, upper, ss);
      DeletionsAreExact(job, upper, ss);
      if (level > 0 ==> BoundaryClosed(v[level], inputs0)) && BoundaryClosed(v[level + 1], inputs1) {
        ClosedInputsArePlaced(v, level, inputs0, ss);
        ClosedInputsAreSafe(job, upper, ss);
      }
    }

    /** Move one file down a level unchanged. */
    method TrivialMove(level: nat, f: File)
      requires Valid() && level + 1 < NUM_LEVELS && InputsOk(current, level, [f], [])
      modifies this`current
      ensures Entries() == old(Entries())
      ensures Job(old(current), level, [f], [], [f], current).Ok(Elements(f.entries))
      ensures VersionOk(current) <==> (level > 0 ==> BoundaryClosed(old(current)[level], [f]))
      ensures VersionOk(current) ==> Valid()
    {
      hide WeaklyOrdered;
      hide FreshNumbers;
      hide EditLevel;
      hide AddKept;
      hide Live;
      hide NetDeleted;
      hide VersionOk;
      hide MemOk;
      hide NumbersOk;
      hide AllEntries;
      hide Job.Ok;
      ghost var v := current;
      VersionShape(v, nextFileNumber);
      MovedNumber(v, level, f, nextFileNumber);
      var edit := Edit({(level, f.number)}, [(level + 1, f)]);
      LogAndApply(edit);
      ghost var job := Job(v, level, [f], [], [f], current);
      MoveInstalled(job, f, nextFileNumber);
      MoveMakesJob(job, f);
      TrivialMoveKeepsVersionOk(job, f);
    }
  }

  lemma SinksAway(v: Version, lo: Key, hi: Key, level: nat)
    requires SinksTo(v, lo, hi, level)
    ensures level <= MAX_MEM_COMPACT_LEVEL && (level > 0 ==> forall i :: 0 <= i <= level ==> !OverlapsLevel(v, i, lo, hi))
  {
  }

  lemma TablesShrink(mem: seq<Entry>, imm: Option<seq<Entry>>, lastSequence: nat, job: Job, kept: set<Entry>)
    requires MemOk(mem, imm, AllEntries(job.v), lastSequence) && job.Ok(kept)
    ensures MemOk(mem, imm, AllEntries(job.w), lastSequence)
  {
    hide VersionOk;
    RestOfInvariantStays(job, kept);
  }

  lemma SameInputs(a: Job, b: Job)
    requires a.v == b.v && a.level == b.level && a.inputs0 == b.inputs0 && a.inputs1 == b.inputs1
    ensures a.Inputs() == b.Inputs() && a.Rest() == b.Rest()
  {
  }

  lemma SameNeighbours(a: Job, b: Job, upper: set<Entry>, ss: nat)
    requires a.level + 1 < NUM_LEVELS
    requires a.v == b.v && a.level == b.level && a.inputs0 == b.inputs0 && a.inputs1 == b.inputs1
    ensures NeighboursSafe(a, upper, ss) <==> NeighboursSafe(b, upper, ss)
  {
    SameInputs(a, b);
    assert forall i, f, g :: Continues(a, i, f, g) <==> Continues(b, i, f, g);
  }

  lemma SurvivorsAreInputs(es: set<Entry>, v: Version, level: nat, ss: nat)
    ensures Survivors(es, v, level, ss) <= es
  {
  }

  lemma MakeFlushable(v: Version, level: nat, f: File)
    requires VersionOk(v) && level < NUM_LEVELS && f.Valid()
    requires Later(Elements(f.entries), AllEntries(v))
    requires UniqueSeqnos(Elements(f.entries)) && SmallSeqnos(Elements(f.entries))
    requires forall g :: g in v[0] ==> g.number < f.number
    requires level > 0 ==> forall i :: 0 <= i <= level ==> !OverlapsLevel(v, i, f.smallest.user, f.largest.user)
    ensures Flushable(v, level, f)
  {
  }

  lemma OutputsMakeJob(job: Job, kept: set<Entry>)
    requires VersionOk(job.v) && job.Installed() && InputsOk(job.v, job.level, job.inputs0, job.inputs1)
    requires ValidFiles(job.outputs) && DisjointSorted(job.outputs)
    requires EntriesOf(job.outputs) == kept && kept <= job.Inputs()
    ensures job.Ok(kept)
  {
  }

  lemma MoveMakesJob(job: Job, f: File)
    requires VersionOk(job.v) && job.Installed() && InputsOk(job.v, job.level, job.inputs0, job.inputs1)
    requires job.inputs0 == [f] && job.inputs1 == [] && job.outputs == [f]
    ensures job.Ok(Elements(f.entries))
  {
    hide VersionOk;
    assert f in job.inputs0;
    LevelShape(job.v, job.level);
    assert job.inputs0 + job.inputs1 == [f];
    assert EntriesOf([f]) == Elements(f.entries);
  }
}
