/** The edits by which flushes, compactions and moves change the current version,
    and the file numbers they use. */
module StoreEdits {
  import opened VersionFiles
  import opened VersionGet
  import opened VersionBuilder
  import opened CompactionInputs
  import opened CompactionStep
  import opened FlushStep
  import opened CompactionPlacement

  /** A file number names one file of one level and is below the next one. */
  ghost predicate NumbersOk(v: Version, next: nat) {
    && (forall i, f :: 0 <= i < NUM_LEVELS && f in v[i] ==> f.number < next)
    && (forall i, j, f, g :: 0 <= i < NUM_LEVELS && 0 <= j < NUM_LEVELS && f in v[i] && g in v[j] && f.number == g.number
          ==> i == j && f == g)
    && (forall i :: 0 <= i < NUM_LEVELS ==> Ordered(v[i]))
  }

  // AddInputDeletions, then one new file per output.
  function CompactionEdit(level: nat, inputs0: seq<File>, inputs1: seq<File>, outputs: seq<File>): (e: Edit) {
    Edit((set f | f in inputs0 :: (level, f.number)) + (set f | f in inputs1 :: (level + 1, f.number)),
         seq(|outputs|, i requires 0 <= i < |outputs| => (level + 1, outputs[i])))
  }

  lemma VersionShape(v: Version, next: nat)
    requires VersionOk(v) && NumbersOk(v, next)
    ensures forall i :: 0 <= i < NUM_LEVELS ==> ValidFiles(v[i]) && Ordered(v[i]) && WeaklyOrdered(v[i])
    ensures forall i :: 1 <= i < NUM_LEVELS ==> DisjointSorted(v[i])
  {
  }

  lemma SameVersion(v: Version, w: Version)
    requires forall i :: 0 <= i < NUM_LEVELS ==>
      Ordered(v[i]) && Ordered(w[i]) && FileSet(w[i]) == EditLevel(FileSet(v[i]), Edit({}, []), i)
    ensures w == v
  {
    forall i | 0 <= i < NUM_LEVELS
      ensures v[i] == w[i]
    {
      OrderedIsUnique(v[i], w[i]);
    }
  }

  lemma NewNumber(v: Version, number: nat, f: File, level: nat)
    requires NumbersOk(v, number) && f.number == number && level < NUM_LEVELS
    ensures FreshNumbers(v, Edit({}, [(level, f)]))
    ensures forall g :: g in v[0] ==> g.number < number
  {
  }

  lemma FlushInstalled(v: Version, w: Version, level: nat, f: File, number: nat)
    requires NumbersOk(v, number) && f.number == number && level < NUM_LEVELS
    requires forall i :: 0 <= i < NUM_LEVELS ==>
      Ordered(w[i]) && FileSet(w[i]) == EditLevel(FileSet(v[i]), Edit({}, [(level, f)]), i)
    ensures Added(v, w, level, f) && NumbersOk(w, number + 1)
  {
    hide Ordered;
    hide NumbersOk;
    forall i | 0 <= i < NUM_LEVELS
      ensures FileSet(w[i]) == FileSet(v[i]) + if i == level then {f} else {}
    {
      AddOnly(FileSet(v[i]), level, f, i);
    }
    FlushNumbers(v, w, level, f, number);
  }

  lemma AddOnly(files: set<File>, level: nat, f: File, i: nat)
    ensures EditLevel(files, Edit({}, [(level, f)]), i) == files + if i == level then {f} else {}
  {
    var added := [(level, f)];
    assert added[0] in added;
    assert AddedAt(added, i) == if i == level then {f} else {};
  }

  lemma FlushNumbers(v: Version, w: Version, level: nat, f: File, number: nat)
    requires NumbersOk(v, number) && f.number == number && Added(v, w, level, f)
    ensures NumbersOk(w, number + 1)
  {
    hide NumbersOk;
    hide Added;
    forall i, g | 0 <= i < NUM_LEVELS && g in w[i]
      ensures g.number < number + 1
    {
      AddedFile(v, w, level, f, i, g);
      if g in v[i] {
        NumberUnique(v, number, i, g, i, g);
      }
    }
    forall i, j, g, h | 0 <= i < NUM_LEVELS && 0 <= j < NUM_LEVELS && g in w[i] && h in w[j] && g.number == h.number
      ensures i == j && g == h
    {
      AddedFile(v, w, level, f, i, g);
      AddedFile(v, w, level, f, j, h);
      if g in v[i] {
        NumberUnique(v, number, i, g, i, g);
        if h in v[j] {
          NumberUnique(v, number, i, g, j, h);
        }
      } else if h in v[j] {
        NumberUnique(v, number, j, h, j, h);
      }
    }
    AddedIsOrdered(v, w, level, f);
    MakeNumbersOk(w, number + 1);
  }

  lemma AddedIsOrdered(v: Version, w: Version, level: nat, f: File)
    requires Added(v, w, level, f)
    ensures forall i :: 0 <= i < NUM_LEVELS ==> Ordered(w[i])
  {
  }

  lemma MovedNumber(v: Version, level: nat, f: File, next: nat)
    requires NumbersOk(v, next) && level + 1 < NUM_LEVELS && InputsOk(v, level, [f], [])
    ensures FreshNumbers(v, Edit({(level, f.number)}, [(level + 1, f)]))
  {
    hide AddedAt;
    var e := Edit({(level, f.number)}, [(level + 1, f)]);
    forall i | 0 <= i < NUM_LEVELS
      ensures AddedAt(e.added, i) == if i == level + 1 then {f} else {}
    {
      OneAddedAt(level + 1, f, i);
    }
    assert f in [f] && f in v[level];
  }

  lemma OneAddedAt(level: nat, f: File, i: nat)
    ensures AddedAt([(level, f)], i) == if i == level then {f} else {}
  {
    assert [(level, f)][0] in [(level, f)];
  }

  lemma OutputsAreNew(job: Job, next: nat)
    requires NumbersOk(job.v, next) && job.level + 1 < NUM_LEVELS
    requires forall j :: 0 <= j < |job.outputs| ==> job.outputs[j].number == next + j
    ensures
      var e := CompactionEdit(job.level, job.inputs0, job.inputs1, job.outputs);
      e.Valid() && FreshNumbers(job.v, e)
  {
    hide CompactionEdit;
    hide AddedAt;
    var e := CompactionEdit(job.level, job.inputs0, job.inputs1, job.outputs);
    OutputsAreValid(job);
    OutputNumbers(job.outputs, next);
    forall i | 0 <= i < NUM_LEVELS
      ensures AddedAt(e.added, i) == if i == job.level + 1 then FileSet(job.outputs) else {}
    {
      EditDeletes(job.level, job.inputs0, job.inputs1, job.outputs, i);
    }
  }

  lemma OutputsAreValid(job: Job)
    requires job.level + 1 < NUM_LEVELS
    ensures CompactionEdit(job.level, job.inputs0, job.inputs1, job.outputs).Valid()
  {
  }

  // Removing the files whose numbers are deleted removes exactly those files.
  lemma DeletedByNumber(v: Version, i: nat, inputs: seq<File>, numbers: set<nat>, next: nat)
    requires NumbersOk(v, next) && i < NUM_LEVELS && forall f :: f in inputs ==> f in v[i]
    requires numbers == Numbers(FileSet(inputs))
    ensures Live(FileSet(v[i]), numbers) == FileSet(v[i]) - FileSet(inputs)
  {
    forall f | f in v[i]
      ensures f.number in numbers <==> f in inputs
    {
      if f.number in numbers {
        var g :| g in FileSet(inputs) && g.number == f.number;
      }
    }
  }

  lemma EditDeletes(level: nat, inputs0: seq<File>, inputs1: seq<File>, outputs: seq<File>, i: nat)
    ensures
      var e := CompactionEdit(level, inputs0, inputs1, outputs);
      && DeletedAt(e, i) == (if i == level then Numbers(FileSet(inputs0))
                             else if i == level + 1 then Numbers(FileSet(inputs1)) else {})
      && AddedAt(e.added, i) == (if i == level + 1 then FileSet(outputs) else {})
  {
    var e := CompactionEdit(level, inputs0, inputs1, outputs);
    forall n
      ensures n in DeletedAt(e, i) <==>
        (i == level && n in Numbers(FileSet(inputs0))) || (i == level + 1 && n in Numbers(FileSet(inputs1)))
    {
      if i == level && n in Numbers(FileSet(inputs0)) {
        var f :| f in FileSet(inputs0) && f.number == n;
        assert (level, f.number) in e.deleted;
      }
      if i == level + 1 && n in Numbers(FileSet(inputs1)) {
        var f :| f in FileSet(inputs1) && f.number == n;
        assert (level + 1, f.number) in e.deleted;
      }
    }
    forall f
      ensures f in AddedAt(e.added, i) <==> i == level + 1 && f in outputs
    {
      if i == level + 1 && f in outputs {
        var k :| 0 <= k < |outputs| && outputs[k] == f;
        assert e.added[k] in e.added;
      }
    }
  }

  // The levels an edit produces are the levels of an installed job.
  lemma EditInstalls(job: Job, next: nat)
    requires NumbersOk(job.v, next) && job.level + 1 < NUM_LEVELS
    requires forall f :: f in job.inputs0 ==> f in job.v[job.level]
    requires forall f :: f in job.inputs1 ==> f in job.v[job.level + 1]
    requires forall f, g :: f in job.inputs1 && g in job.outputs ==> f.number != g.number
    requires forall i :: 0 <= i < NUM_LEVELS ==>
      && Ordered(job.w[i])
      && FileSet(job.w[i]) ==
           EditLevel(FileSet(job.v[i]), CompactionEdit(job.level, job.inputs0, job.inputs1, job.outputs), i)
    requires forall f, g :: f in job.v[job.level + 1] && g in job.outputs ==> f.number != g.number
    ensures job.Installed()
  {
    var e := CompactionEdit(job.level, job.inputs0, job.inputs1, job.outputs);
    forall i | 0 <= i < NUM_LEVELS
      ensures FileSet(job.w[i]) ==
        FileSet(job.v[i])
        - (if i == job.level then FileSet(job.inputs0) else if i == job.level + 1 then FileSet(job.inputs1) else {})
        + (if i == job.level + 1 then FileSet(job.outputs) else {})
    {
      EditDeletes(job.level, job.inputs0, job.inputs1, job.outputs, i);
      if i == job.level {
        DeletedByNumber(job.v, i, job.inputs0, Numbers(FileSet(job.inputs0)), next);
        assert FileSet(job.v[i]) + {} == FileSet(job.v[i]);
      } else if i == job.level + 1 {
        OutputLevel(job, next);
      } else {
        assert FileSet(job.w[i]) == Live(FileSet(job.v[i]) + {}, {} - {});
      }
    }
  }

  lemma OutputLevel(job: Job, next: nat)
    requires NumbersOk(job.v, next) && job.level + 1 < NUM_LEVELS
    requires forall f :: f in job.inputs1 ==> f in job.v[job.level + 1]
    requires forall f, g :: f in job.v[job.level + 1] && g in job.outputs ==> f.number != g.number
    ensures
      Live(FileSet(job.v[job.level + 1]) + FileSet(job.outputs),
           Numbers(FileSet(job.inputs1)) - Numbers(FileSet(job.outputs)))
      == FileSet(job.v[job.level + 1]) - FileSet(job.inputs1) + FileSet(job.outputs)
  {
    var old1, out := FileSet(job.v[job.level + 1]), FileSet(job.outputs);
    DeletedByNumber(job.v, job.level + 1, job.inputs1, Numbers(FileSet(job.inputs1)), next);
    forall f | f in old1
      ensures f.number !in Numbers(out)
    {
    }
    forall f | f in out
      ensures f.number in Numbers(out)
    {
    }
    assert Live(old1 + out, Numbers(FileSet(job.inputs1)) - Numbers(out))
        == Live(old1, Numbers(FileSet(job.inputs1))) + out;
  }

  // Every file of the installed version is an output or an old file.
  lemma NumbersInstalled(job: Job, next: nat, next': nat)
    requires NumbersOk(job.v, next) && job.Installed() && next <= next'
    requires forall f, g :: f in job.outputs && g in job.outputs && f.number == g.number ==> f == g
    requires forall f :: f in job.outputs ==> f.number < next'
    requires forall i, f, g ::
      0 <= i < NUM_LEVELS && f in job.v[i] && !job.IsInput(i, f) && g in job.outputs ==> f.number != g.number
    ensures NumbersOk(job.w, next')
  {
    hide Job.Installed;
    hide NumbersOk;
    forall i, f | 0 <= i < NUM_LEVELS && f in job.w[i]
      ensures f.number < next'
    {
      FileOrigin(job, i, f);
      if f in job.v[i] {
        NumberUnique(job.v, next, i, f, i, f);
      }
    }
    forall i, j, f, g |
      0 <= i < NUM_LEVELS && 0 <= j < NUM_LEVELS && f in job.w[i] && g in job.w[j] && f.number == g.number
      ensures i == j && f == g
    {
      FileOrigin(job, i, f);
      FileOrigin(job, j, g);
      if f in job.v[i] && !job.IsInput(i, f) && g in job.v[j] && !job.IsInput(j, g) {
        NumberUnique(job.v, next, i, f, j, g);
      }
    }
    InstalledIsOrdered(job);
    MakeNumbersOk(job.w, next');
  }

  lemma NumberUnique(v: Version, next: nat, i: nat, f: File, j: nat, g: File)
    requires NumbersOk(v, next) && i < NUM_LEVELS && j < NUM_LEVELS && f in v[i] && g in v[j]
    ensures f.number < next
    ensures f.number == g.number ==> i == j && f == g
  {
  }

  lemma InstalledIsOrdered(job: Job)
    requires job.Installed()
    ensures forall i :: 0 <= i < NUM_LEVELS ==> Ordered(job.w[i])
  {
  }

  lemma NumbersGrow(v: Version, next: nat)
    requires NumbersOk(v, next)
    ensures NumbersOk(v, next + 1)
  {
  }

  lemma MakeNumbersOk(v: Version, next: nat)
    requires forall i, f :: 0 <= i < NUM_LEVELS && f in v[i] ==> f.number < next
    requires forall i, j, f, g ::
      0 <= i < NUM_LEVELS && 0 <= j < NUM_LEVELS && f in v[i] && g in v[j] && f.number == g.number ==> i == j && f == g
    requires forall i :: 0 <= i < NUM_LEVELS ==> Ordered(v[i])
    ensures NumbersOk(v, next)
  {
  }

  lemma OutputNumbers(outputs: seq<File>, next: nat)
    requires forall j :: 0 <= j < |outputs| ==> outputs[j].number == next + j
    ensures forall f :: f in outputs ==> next <= f.number < next + |outputs|
    ensures forall f, g :: f in outputs && g in outputs && f.number == g.number ==> f == g
  {
  }

  lemma InputsAreFiles(job: Job)
    requires job.level + 1 < NUM_LEVELS && InputsOk(job.v, job.level, job.inputs0, job.inputs1)
    ensures forall f :: f in job.inputs0 ==> f in job.v[job.level]
    ensures forall f :: f in job.inputs1 ==> f in job.v[job.level + 1]
  {
  }

  /** The edit of a compaction installs its outputs under new numbers. */
  lemma CompactionInstalled(job: Job, next: nat)
    requires NumbersOk(job.v, next) && job.level + 1 < NUM_LEVELS
    requires InputsOk(job.v, job.level, job.inputs0, job.inputs1)
    requires forall j :: 0 <= j < |job.outputs| ==> job.outputs[j].number == next + j
    requires forall i :: 0 <= i < NUM_LEVELS ==>
      && Ordered(job.w[i])
      && FileSet(job.w[i]) ==
           EditLevel(FileSet(job.v[i]), CompactionEdit(job.level, job.inputs0, job.inputs1, job.outputs), i)
    ensures job.Installed()
    ensures NumbersOk(job.w, next + |job.outputs|)
  {
    hide EditLevel;
    hide CompactionEdit;
    hide Ordered;
    hide Job.Installed;
    hide NumbersOk;
    hide InputsOk;
    InputsAreFiles(job);
    OutputNumbers(job.outputs, next);
    forall i, f | 0 <= i < NUM_LEVELS && f in job.v[i]
      ensures f.number < next
    {
      NumberUnique(job.v, next, i, f, i, f);
    }
    EditInstalls(job, next);
    NumbersInstalled(job, next, next + |job.outputs|);
  }

  /** The edit of a trivial move takes the file off its level and adds it one
      level down under its own number. */
  lemma MoveInstalled(job: Job, f: File, next: nat)
    requires NumbersOk(job.v, next) && job.level + 1 < NUM_LEVELS
    requires job.inputs0 == [f] && job.inputs1 == [] && job.outputs == [f]
    requires InputsOk(job.v, job.level, job.inputs0, job.inputs1)
    requires forall i :: 0 <= i < NUM_LEVELS ==>
      && Ordered(job.w[i])
      && FileSet(job.w[i]) == EditLevel(FileSet(job.v[i]), Edit({(job.level, f.number)}, [(job.level + 1, f)]), i)
    ensures job.Installed()
    ensures NumbersOk(job.w, next)
  {
    assert f in job.inputs0;
    var e := CompactionEdit(job.level, [f], [], [f]);
    assert e.added == [(job.level + 1, f)];
    assert e.deleted == {(job.level, f.number)};
    EditInstalls(job, next);
    NumbersInstalled(job, next, next);
  }
}
