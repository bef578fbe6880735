/** Recovery, writes and flushes can always be finished: from every state of every run
    there are steps, none of them a crash, that lead on
    (Recover, Write and CompactMemTable in contrib/leveldb/db/db_impl.cc). */
module DurabilityProgress {
  import opened Options
  import opened DbFormat
  import opened VersionFiles
  import opened VersionGet
  import opened VersionBuilder
  import opened FlushStep
  import opened MemTables
  import opened StoreEdits
  import opened LogReplay
  import opened Durability
  import opened DurabilityInvariant
  import opened DurabilitySteps
  import opened DurabilityRecovery
  import opened DurabilityRuns

  /** Steps from one state to another without a crash. */
  ghost predicate Path(states: seq<State>, steps: seq<Step>) {
    && |states| == |steps| + 1
    && forall i :: 0 <= i < |steps| ==> Next(states[i], steps[i], states[i + 1]) && !steps[i].Crashing?
  }

  function Last(states: seq<State>): State
    requires states != []
  {
    states[|states| - 1]
  }

  lemma Stay(s: State)
    ensures Path([s], [])
  {
  }

  lemma Prepend(s: State, step: Step, states: seq<State>, steps: seq<Step>)
    requires Path(states, steps) && Next(s, step, states[0]) && !step.Crashing?
    ensures Path([s] + states, [step] + steps) && Last([s] + states) == Last(states)
  {
    hide Next;
    var all, does := [s] + states, [step] + steps;
    forall i | 0 <= i < |does|
      ensures Next(all[i], does[i], all[i + 1]) && !does[i].Crashing?
    {
      if i > 0 {
        assert all[i] == states[i - 1] && does[i] == steps[i - 1] && all[i + 1] == states[i];
      }
    }
  }

  /* ---- tables that can be written ---- */

  lemma SortedList(es: set<Entry>) returns (list: seq<Entry>)
    requires UniqueSeqnos(es)
    ensures Sorted(list) && Elements(list) == es
    decreases es
  {
    if es == {} {
      list := [];
    } else {
      var e :| e in es;
      var rest := SortedList(es - {e});
      assert forall x :: x in rest ==> x in Elements(rest);
      list := InsertEntry(rest, e);
    }
  }

  /** There is a table with given entries, and a version with it on level 0. */
  lemma NewTable(v: Version, es: set<Entry>, number: nat) returns (f: File, w: Version)
    requires UniqueSeqnos(es) && es != {} && NumbersOk(v, number)
    ensures f.Valid() && Elements(f.entries) == es && f.number == number && Added(v, w, 0, f)
  {
    hide Sorted;
    var list := SortedList(es);
    assert list != [];
    f := File(number, 0, list[0].key, list[|list| - 1].key, list);
    w := v[0 := InsertFile(v[0], f)];
    InsertFileInserts(v[0], f);
    forall g | g in FileSet(v[0])
      ensures !Equivalent(g, f)
    {
    }
  }

  /* ---- recovery ---- */

  // The entries replayed so far can be written.
  lemma ReplayedTable(s: State) returns (step: Step, s': State)
    requires Inv(s) && s.memory.Recovering? && s.memory.buffered != []
    ensures s'.memory.Recovering? && s'.acked == s.acked
    ensures s'.memory == s.memory.(buffered := [], version := s'.memory.version, nextFile := s.memory.nextFile + 1)
    ensures Next(s, step, s') && !step.Crashing?
  {
    hide Inv;
    hide Logged;
    hide Added;
    hide NumbersOk;
    var m := s.memory;
    if Logged(m.buffered) == {} {
      step := RecoveryFlushingNothing;
      s' := s.(memory := m.(nextFile := m.nextFile + 1, buffered := []));
    } else {
      BufferedIsUnique(s);
      var f, w := NewTable(m.version, Logged(m.buffered), m.nextFile);
      step := RecoveryFlushing(f, w);
      s' := s.(disk := s.disk.(tables := s.disk.tables + {f.number}),
               memory := m.(version := w, nextFile := m.nextFile + 1, buffered := []));
    }
  }

  lemma BufferedIsUnique(s: State)
    requires Inv(s) && s.memory.Recovering?
    ensures UniqueSeqnos(Logged(s.memory.buffered)) && NumbersOk(s.memory.version, s.memory.nextFile)
  {
    hide VersionOk;
    hide Chained;
    hide Logged;
    hide ReadsAs;
    hide SeqnosWithin;
    hide IsLive;
    hide Concat;
    hide OpsOf;
    hide AllEntries;
    hide TablesPresent;
    hide NumbersOk;
    var d, m := s.disk, s.memory;
    var rest := m.left + Concat(d.logs, m.todo);
    assert m.buffered + m.left + Concat(d.logs, m.todo) == m.buffered + rest;
    BufferedIsLater(AllEntries(m.version), m.buffered, rest);
  }

  // The next record may be replayed.
  lemma NextMayReplay(s: State)
    requires Inv(s) && s.memory.Recovering? && s.memory.left != []
    ensures s.memory.left[0].first > 0
  {
    hide Logged;
    hide Record.Entries;
    hide GoodVersion;
    hide AllEntries;
    hide Concat;
    var m, es := s.memory, AllEntries(s.memory.version);
    var more := m.left[1..] + Concat(s.disk.logs, m.todo);
    assert m.buffered + m.left + Concat(s.disk.logs, m.todo) == m.buffered + [m.left[0]] + more;
    ChainedConcat(es, m.buffered + [m.left[0]], more);
    assert (m.buffered + [m.left[0]])[..|m.buffered|] == m.buffered;
  }

  // One step of a recovery.
  lemma RecoveryGoesOn(s: State) returns (step: Step, s': State)
    requires Inv(s) && s.memory.Recovering?
    ensures Next(s, step, s') && !step.Crashing? && s'.acked == s.acked
    ensures s'.memory.Opening? || (s'.memory.Recovering? && Less4(s'.memory, s.memory))
  {
    hide Inv;
    var m := s.memory;
    if m.left != [] {
      NextMayReplay(s);
      step := Replaying;
      s' := s.(memory := m.(buffered := m.buffered + [m.left[0]], left := m.left[1..],
                            maxSequence := Max(m.maxSequence, m.left[0].Last())));
    } else if m.buffered != [] {
      step, s' := ReplayedTable(s);
    } else if m.reading.Some? {
      step := LogDone;
      s' := s.(memory := m.(reading := None, nextFile := Max(m.nextFile, m.reading.value + 1)));
    } else if m.todo != [] {
      LiveLogExists(s);
      step := ReadingLog;
      s' := s.(memory := m.(reading := Some(m.todo[0]), left := s.disk.logs[m.todo[0]], todo := m.todo[1..]));
    } else {
      step := CreatingLog;
      s' := s.(disk := s.disk.(logs := s.disk.logs[m.nextFile := []]),
               memory := Opening(m.version, m.nextFile + 1, m.maxSequence, m.nextFile), live := s.live + [m.nextFile]);
    }
  }

  lemma LiveLogExists(s: State)
    requires Inv(s) && s.memory.Recovering? && s.memory.todo != []
    ensures s.memory.todo[0] in s.disk.logs
  {
    hide GoodVersion;
    hide Chained;
    hide Logged;
    hide ReadsAs;
    hide SeqnosWithin;
    hide Concat;
    hide OpsOf;
    hide AllEntries;
    assert s.memory.todo[0] in s.memory.todo;
  }

  // What is left of a recovery.
  predicate Less4(a: Memory, b: Memory)
    requires a.Recovering? && b.Recovering?
  {
    if |a.todo| != |b.todo| then |a.todo| < |b.todo|
    else if a.reading.Some? != b.reading.Some? then a.reading.None?
    else |a.left| < |b.left| || (|a.left| == |b.left| && |a.buffered| < |b.buffered|)
  }

  /** Every recovery can be finished. */
  lemma {:induction false} RecoveryFinishes(s: State) returns (states: seq<State>, steps: seq<Step>)
    requires Inv(s) && (s.memory.Recovering? || s.memory.Opening?)
    ensures Path(states, steps) && states[0] == s && Last(states).memory.Open? && Last(states).acked == s.acked
    decreases
      if s.memory.Recovering? then 1 else 0, if s.memory.Recovering? then |s.memory.todo| else 0,
      if s.memory.Recovering? && s.memory.reading.Some? then 1 else 0,
      if s.memory.Recovering? then |s.memory.left| else 0, if s.memory.Recovering? then |s.memory.buffered| else 0
  {
    hide Inv;
    if s.memory.Opening? {
      var m, last := s.memory, Max(s.disk.manifest.lastSequence, s.memory.maxSequence);
      var s' := s.(disk := s.disk.(manifest := Manifest(m.version, m.logFile, m.nextFile, last)),
                   memory := Open(None, [], m.logFile, None, last, m.nextFile, None), live := [m.logFile]);
      assert Next(s, Finishing, s');
      Stay(s');
      Prepend(s, Finishing, [s'], []);
      states, steps := [s] + [s'], [Finishing] + [];
    } else {
      var step, s' := RecoveryGoesOn(s);
      NextKeepsInv(s, step, s');
      states, steps := RecoveryFinishes(s');
      Prepend(s, step, states, steps);
      states, steps := [s] + states, [step] + steps;
    }
  }

  /** From every good state the database can be opened, with nothing lost or added. */
  lemma CanOpen(s: State) returns (states: seq<State>, steps: seq<Step>)
    requires Inv(s)
    ensures Path(states, steps) && states[0] == s && Last(states).memory.Open? && Last(states).acked == s.acked
  {
    hide Inv;
    match s.memory
    case Open(_, _, _, _, _, _, _) =>
      Stay(s);
      states, steps := [s], [];
    case Down =>
      var s' := StartFrom(s);
      NextKeepsInv(s, Recovery(s.live), s');
      states, steps := RecoveryFinishes(s');
      Prepend(s, Recovery(s.live), states, steps);
      states, steps := [s] + states, [Recovery(s.live)] + steps;
    case _ =>
      states, steps := RecoveryFinishes(s);
  }

  lemma StartFrom(s: State) returns (s': State)
    requires Inv(s) && s.memory.Down?
    ensures Next(s, Recovery(s.live), s') && s'.memory.Recovering? && s'.acked == s.acked
  {
    hide VersionOk;
    hide NumbersOk;
    hide Chained;
    hide Logged;
    hide ReadsAs;
    hide SeqnosWithin;
    hide Concat;
    hide OpsOf;
    hide AllEntries;
    hide TablesPresent;
    hide IsLive;
    var d := s.disk;
    s' := s.(memory := Recovering(d.manifest.version, d.manifest.nextFile + 1, 0, s.live, None, [], []));
  }

  /* ---- runs ---- */

  lemma RunGoesOn(states: seq<State>, steps: seq<Step>, more: seq<State>, does: seq<Step>)
    requires Run(states, steps) && Path(more, does) && more[0] == Last(states)
    ensures Run(states + more[1..], steps + does) && Last(states + more[1..]) == Last(more)
  {
    hide Next;
    hide Init;
    var all, all' := states + more[1..], steps + does;
    forall i | 0 <= i < |all'|
      ensures Next(all[i], all'[i], all[i + 1])
    {
      if i >= |steps| {
        var j := i - |steps|;
        assert all[i] == more[j] && all[i + 1] == more[j + 1] && all'[i] == does[j];
      }
    }
  }

  // What a reader finds at the end of a run.
  ghost predicate Shows(s: State, ops: seq<Op>) {
    s.memory.Open? && s.acked == ops && forall k :: Reads(Seen(s.disk, s.memory), k) == After(ops, k, None)
  }

  lemma RunShows(states: seq<State>, steps: seq<Step>)
    requires Run(states, steps) && Last(states).memory.Open?
    ensures Shows(Last(states), Last(states).acked)
  {
    hide Reads;
    hide After;
    forall k
      ensures Reads(Seen(Last(states).disk, Last(states).memory), k) == After(Last(states).acked, k, None)
    {
      OpenSeesAcknowledged(states, steps, |states| - 1, k);
    }
  }

  /** No run leads to a database that cannot be opened any more: wherever it stands, it
      can go on without a crash until the database is open and a reader sees exactly the
      acknowledged updates. */
  lemma EveryRunCanOpen(states: seq<State>, steps: seq<Step>) returns (more: seq<State>, does: seq<Step>)
    requires Run(states, steps)
    ensures Path(more, does) && more[0] == Last(states)
    ensures Run(states + more[1..], steps + does) && Shows(Last(more), Last(states).acked)
  {
    hide Inv;
    hide Run;
    hide Path;
    hide Shows;
    LastState(states, steps);
    more, does := CanOpen(Last(states));
    NotEmpty(more, does);
    RunGoesOn(states, steps, more, does);
    RunShows(states + more[1..], steps + does);
  }

  lemma NotEmpty(states: seq<State>, steps: seq<Step>)
    requires Path(states, steps)
    ensures states != []
  {
  }

  lemma LastState(states: seq<State>, steps: seq<Step>)
    requires Run(states, steps)
    ensures states != [] && Inv(Last(states))
  {
    hide Inv;
    RunKeepsInv(states, steps, |states| - 1);
  }

  /* ---- an open database ---- */

  lemma PendingApplied(s: State) returns (states: seq<State>, steps: seq<Step>)
    requires s.memory.Open?
    ensures Path(states, steps) && states[0] == s && Last(states).memory.Open? && Last(states).memory.pending.None?
    ensures Last(states).acked == s.acked + OpsOf(PendingRecords(s.memory))
  {
    var m := s.memory;
    Stay(s);
    states, steps := [s], [];
    OpsOfPending(m);
    if m.pending.Some? {
      var r := m.pending.value;
      var s' := s.(memory := m.(mem := m.mem + [r], pending := None, lastSequence := m.lastSequence + |r.ops|), acked := s.acked + r.ops);
      assert Next(s, Applying, s');
      Stay(s');
      Prepend(s, Applying, [s'], []);
      states, steps := [s] + [s'], [Applying] + [];
    } else {
      assert s.acked + [] == s.acked;
    }
  }

  /** Without a batch under way, any batch can be written and acknowledged as long as there
      are sequence numbers. */
  lemma WriteFinishes(s: State, ops: seq<Op>) returns (states: seq<State>, steps: seq<Step>)
    requires Inv(s) && s.memory.Open? && s.memory.pending.None? && s.memory.lastSequence + |ops| < MAX_SEQUENCE
    ensures Path(states, steps) && states[0] == s && Last(states).memory.Open? && Last(states).acked == s.acked + ops
  {
    hide GoodVersion;
    hide Chained;
    hide Logged;
    hide ReadsAs;
    hide SeqnosWithin;
    hide IsLive;
    hide Concat;
    hide AllEntries;
    hide InstallOk;
    hide DiskOk;
    hide Path;
    hide OpsOf;
    var m, r := s.memory, Record(s.memory.lastSequence + 1, ops);
    assert m.logFile in s.disk.logs by {
      assert m.logFile in s.live;
    }
    var s' := s.(disk := s.disk.(logs := s.disk.logs[m.logFile := s.disk.logs[m.logFile] + [r]]), memory := m.(pending := Some(r)));
    assert Next(s, Logging(ops), s');
    states, steps := PendingApplied(s');
    OpsOfPending(s'.memory);
    Prepend(s, Logging(ops), states, steps);
    states, steps := [s] + states, [Logging(ops)] + steps;
  }

  // A manifest record under way is written.
  lemma InstallFinishes(s: State) returns (states: seq<State>, steps: seq<Step>)
    requires s.memory.Open? && s.memory.install.Some?
    ensures Path(states, steps) && states[0] == s && |states| == 2 && states[1].memory.Open? && states[1].acked == s.acked
    ensures states[1].memory == s.memory.(install := None, imm := if s.memory.install.value.flush then None else s.memory.imm)
  {
    var m, flush := s.memory, s.memory.install.value.flush;
    var s' := s.(disk := s.disk.(manifest := m.install.value.manifest),
                 memory := m.(install := None, imm := if flush then None else m.imm),
                 live := if flush then [m.logFile] else s.live);
    assert Next(s, Committing, s');
    Stay(s');
    Prepend(s, Committing, [s'], []);
    states, steps := [s] + [s'], [Committing];
  }

  // The table of the immutable memtable can be written.
  lemma FlushStarts(s: State) returns (step: Step, s': State)
    requires Inv(s) && s.memory.Open? && s.memory.imm.Some? && s.memory.install.None?
    ensures Next(s, step, s') && !step.Crashing? && s'.acked == s.acked
    ensures s'.memory.Open? && s'.memory.install.Some? && s'.memory.install.value.flush && s'.memory.imm == s.memory.imm
  {
    hide VersionOk;
    hide Chained;
    hide Logged;
    hide ReadsAs;
    hide SeqnosWithin;
    hide IsLive;
    hide Concat;
    hide OpsOf;
    hide AllEntries;
    hide TablesPresent;
    hide NumbersOk;
    hide Added;
    var d, m, v := s.disk, s.memory, s.disk.manifest.version;
    if Logged(m.imm.value) == {} {
      step := FlushingNothing;
      s' := s.(memory := m.(nextFile := m.nextFile + 1,
                            install := Some(Install(Manifest(v, m.logFile, m.nextFile + 1, m.lastSequence), true))));
    } else {
      ImmIsUnique(s);
      NumbersMonotone(v, d.manifest.nextFile, m.nextFile);
      var f, w := NewTable(v, Logged(m.imm.value), m.nextFile);
      step := Flushing(0, f, w);
      s' := s.(disk := d.(tables := d.tables + {f.number}),
               memory := m.(nextFile := m.nextFile + 1,
                            install := Some(Install(Manifest(w, m.logFile, m.nextFile + 1, m.lastSequence), true))));
    }
  }

  lemma ImmIsUnique(s: State)
    requires Inv(s) && s.memory.Open? && s.memory.imm.Some?
    ensures UniqueSeqnos(Logged(s.memory.imm.value))
  {
    hide GoodVersion;
    hide Chained;
    hide Logged;
    hide ReadsAs;
    hide SeqnosWithin;
    hide IsLive;
    hide Concat;
    hide OpsOf;
    hide AllEntries;
    hide InstallOk;
    var d, m := s.disk, s.memory;
    LiveRecords(d, s.live, m);
    var rest := m.mem + PendingRecords(m);
    assert Held(m) + PendingRecords(m) == m.imm.value + rest;
    BufferedIsLater(Tables(d), m.imm.value, rest);
  }

  /** The immutable memtable can always be flushed, so that room for another is made. */
  lemma FlushFinishes(s: State) returns (states: seq<State>, steps: seq<Step>)
    requires Inv(s) && s.memory.Open?
    ensures Path(states, steps) && states[0] == s
    ensures Last(states).memory.Open? && Last(states).memory.imm.None? && Last(states).acked == s.acked
    decreases if s.memory.imm.None? then 0 else if s.memory.install.Some? && !s.memory.install.value.flush then 2 else 1
  {
    hide Inv;
    hide Path;
    if s.memory.imm.None? {
      Stay(s);
      states, steps := [s], [];
    } else if s.memory.install.Some? {
      var two, does := InstallFinishes(s);
      OneStep(two, does);
      NextKeepsInv(s, does[0], two[1]);
      states, steps := FlushFinishes(two[1]);
      Prepend(s, does[0], states, steps);
      states, steps := [s] + states, [does[0]] + steps;
    } else {
      var step, s' := FlushStarts(s);
      var two, does := InstallFinishes(s');
      Prepend(s, step, two, does);
      states, steps := [s] + two, [step] + does;
    }
  }

  lemma OneStep(states: seq<State>, steps: seq<Step>)
    requires Path(states, steps) && |states| == 2
    ensures |steps| == 1 && Next(states[0], steps[0], states[1]) && !steps[0].Crashing?
  {
  }
}
