/** Steps of the open database keep the durability invariant. */
module DurabilitySteps {
  import opened Options
  import opened DbFormat
  import opened VersionFiles
  import opened VersionGet
  import opened CompactionRules
  import opened CompactionInputs
  import opened CompactionStep
  import opened CompactionPlacement
  import opened FlushStep
  import opened MemTables
  import opened StoreEdits
  import opened LsmStore
  import opened LogReplay
  import opened Durability
  import opened DurabilityInvariant

  /* ---- the memtables of an open database ---- */

  // The live logs hold what the memtables hold, and a pending batch.
  lemma OpenRecords(d: Disk, live: seq<nat>, m: Memory, ops: seq<Op>)
    requires m.Open? && DiskOk(d, live, ops) && LogsMatch(d, live, m)
    ensures Concat(d.logs, live) == Held(m) + PendingRecords(m)
    ensures Chained(Tables(d), Held(m))
    ensures Durable(d, live) == Seen(d, m) + Logged(PendingRecords(m))
  {
    hide GoodVersion;
    hide Chained;
    hide Logged;
    hide ReadsAs;
    hide SeqnosWithin;
    hide AllEntries;
    LiveRecords(d, live, m);
    ChainedConcat(Tables(d), Held(m), PendingRecords(m));
  }

  lemma KeepsApplying(s: State, s': State)
    requires Inv(s) && ApplyWrite(s, s')
    ensures Inv(s')
  {
    hide GoodVersion;
    hide Chained;
    hide Logged;
    hide ReadsAs;
    hide SeqnosWithin;
    hide IsLive;
    hide Concat;
    hide OpsOf;
    hide Record.Last;
    hide InstallOk;
    hide AllEntries;
    var d, m, m' := s.disk, s.memory, s'.memory;
    var r := m.pending.value;
    OpsOfPending(m);
    OpsOfPending(m');
    assert s'.acked + [] == s'.acked;
    OpenRecords(d, s.live, m, s.acked + r.ops);
    NextRecord(m.lastSequence, r);
    OneMoreRecord(Tables(d), Held(m), r, s.acked);
    assert Held(m') == Held(m) + [r];
    assert m'.mem + PendingRecords(m') == m.mem + [r];
    SameInstall(d, d, m, m');
  }

  lemma SwitchedLogs(d: Disk, live: seq<nat>, m: Memory, n: nat)
    requires m.Open? && m.pending.None? && m.imm.None? && IsLive(d.logs, d.manifest.logNumber, live) && LogsMatch(d, live, m)
    requires m.logFile < n && d.manifest.logNumber <= n
    ensures IsLive(d.logs[n := []], d.manifest.logNumber, live + [n])
    ensures Concat(d.logs[n := []], live + [n]) == Concat(d.logs, live)
    ensures LogsMatch(d.(logs := d.logs[n := []]), live + [n], m.(imm := Some(m.mem), mem := [], logFile := n))
  {
    assert live == [m.logFile];
    ConcatAppend(d.logs, live, n, []);
  }

  lemma KeepsSwitching(s: State, s': State)
    requires Inv(s) && Switch(s, s')
    ensures Inv(s')
  {
    hide GoodVersion;
    hide Chained;
    hide Logged;
    hide ReadsAs;
    hide SeqnosWithin;
    hide IsLive;
    hide Concat;
    hide OpsOf;
    hide Reads;
    hide AllEntries;
    var d, m, m' := s.disk, s.memory, s'.memory;
    OpsOfPending(m);
    OpsOfPending(m');
    SwitchedLogs(d, s.live, m, m.nextFile);
    assert Held(m') == Held(m);
  }

  /* ---- manifest records under way ---- */

  lemma NumbersMonotone(v: Version, a: nat, b: nat)
    requires NumbersOk(v, a) && a <= b
    ensures NumbersOk(v, b)
  {
  }

  lemma TablesGrow(v: Version, a: set<nat>, b: set<nat>)
    requires TablesPresent(v, a)
    ensures TablesPresent(v, a + b)
  {
  }

  /** The entries of the immutable memtable, seen from the tables. */
  lemma ImmIsLater(d: Disk, live: seq<nat>, m: Memory, ops: seq<Op>)
    requires m.Open? && m.imm.Some? && DiskOk(d, live, ops) && LogsMatch(d, live, m)
    ensures Chained(Tables(d), m.imm.value)
    ensures Later(Logged(m.imm.value), Tables(d))
    ensures UniqueSeqnos(Logged(m.imm.value)) && SmallSeqnos(Logged(m.imm.value))
    ensures Seen(d, m) == Tables(d) + Logged(m.imm.value) + Logged(m.mem)
  {
    hide GoodVersion;
    hide Chained;
    hide Logged;
    hide ReadsAs;
    hide AllEntries;
    OpenRecords(d, live, m, ops);
    ChainedConcat(Tables(d), m.imm.value, m.mem);
    ReplayReads(Tables(d), m.imm.value);
  }

  lemma AddedTablePresent(v: Version, w: Version, level: nat, f: File, tables: set<nat>)
    requires Added(v, w, level, f) && TablesPresent(v, tables)
    ensures TablesPresent(w, tables + {f.number})
  {
    hide Added;
    forall i, g | 0 <= i < NUM_LEVELS && g in w[i]
      ensures g.number in tables + {f.number}
    {
      AddedFile(v, w, level, f, i, g);
    }
  }

  // The version a flush adds its table to.
  lemma FlushedVersion(v: Version, w: Version, level: nat, f: File, next: nat, tables: set<nat>)
    requires GoodVersion(v, next, tables) && f.Valid() && f.number == next && level < NUM_LEVELS
    requires Later(Elements(f.entries), AllEntries(v))
    requires UniqueSeqnos(Elements(f.entries)) && SmallSeqnos(Elements(f.entries))
    requires level > 0 ==> forall i :: 0 <= i <= level ==> !OverlapsLevel(v, i, f.smallest.user, f.largest.user)
    requires Added(v, w, level, f)
    ensures GoodVersion(w, next + 1, tables + {f.number})
    ensures AllEntries(w) == AllEntries(v) + Elements(f.entries)
  {
    hide VersionOk;
    hide Added;
    hide AllEntries;
    hide OverlapsLevel;
    NewNumber(v, next, f, level);
    MakeFlushable(v, level, f);
    FlushKeepsVersionOk(v, w, level, f);
    FlushNumbers(v, w, level, f, next);
    AddedTablePresent(v, w, level, f, tables);
  }

  lemma KeepsFlushing(s: State, level: nat, f: File, w: Version, s': State)
    requires Inv(s) && StartFlush(s, level, f, w, s')
    ensures Inv(s')
  {
    hide VersionOk;
    hide NumbersOk;
    hide Chained;
    hide Logged;
    hide ReadsAs;
    hide Reads;
    hide IsLive;
    hide Concat;
    hide OpsOf;
    hide AllEntries;
    hide Added;
    hide OverlapsLevel;
    hide TablesPresent;
    var d, m := s.disk, s.memory;
    var v := d.manifest.version;
    OpsOfPending(m);
    ImmIsLater(d, s.live, m, s.acked + OpsOf(PendingRecords(m)));
    NumbersMonotone(v, d.manifest.nextFile, m.nextFile);
    FlushedVersion(v, w, level, f, m.nextFile, d.tables);
    TablesGrow(v, d.tables, {f.number});
  }

  lemma KeepsEmptyFlushing(s: State, s': State)
    requires Inv(s) && StartEmptyFlush(s, s')
    ensures Inv(s')
  {
    hide VersionOk;
    hide NumbersOk;
    hide Chained;
    hide Logged;
    hide ReadsAs;
    hide Reads;
    hide IsLive;
    hide Concat;
    hide OpsOf;
    hide AllEntries;
    hide TablesPresent;
    var d, m := s.disk, s.memory;
    NumbersMonotone(d.manifest.version, d.manifest.nextFile, m.nextFile + 1);
    assert Tables(d) + {} == Tables(d);
  }

  /** What a compaction or move must provide for its record to be good. */
  ghost predicate SafeReplacement(v: Version, w: Version) {
    && VersionOk(w) && AllEntries(w) <= AllEntries(v)
    && forall k :: Reads(AllEntries(w), k) == Reads(AllEntries(v), k)
  }

  lemma KeepsReplacing(s: State, w: Version, n: nat, tables: set<nat>, s': State)
    requires Inv(s) && s.memory.Open? && s.memory.install.None?
    requires SafeReplacement(s.disk.manifest.version, w) && NumbersOk(w, s.memory.nextFile + n)
    requires TablesPresent(w, s.disk.tables + tables)
    requires s' == s.(disk := s.disk.(tables := s.disk.tables + tables), memory := Reserve(s, s.memory, w, n))
    ensures Inv(s')
  {
    hide VersionOk;
    hide NumbersOk;
    hide Chained;
    hide Logged;
    hide ReadsAs;
    hide Reads;
    hide IsLive;
    hide Concat;
    hide OpsOf;
    hide AllEntries;
    hide TablesPresent;
    var d, m := s.disk, s.memory;
    TablesGrow(d.manifest.version, d.tables, tables);
  }

  lemma CompactedIsSafe(job: Job, ss: nat)
    requires job.Ok(Survivors(job.Inputs(), job.v, job.level, ss)) && ss <= MAX_SEQUENCE
    requires PlacementSafe(job.v, job.level, job.inputs0, ss)
    requires DeletionsSafe(job.Inputs(), job.Rest(), job.v, job.level, ss)
    ensures SafeReplacement(job.v, job.w)
  {
    hide VersionOk;
    hide Survivors;
    hide InputsOk;
    hide Job.Installed;
    hide Job.Rest;
    hide Job.Inputs;
    hide DeletionsSafe;
    hide PlacementSafe;
    var v, w := job.v, job.w;
    CompactionKeepsVersionOk(job, ss);
    assert {} + job.Rest() == job.Rest();
    VersionSeqnos(v);
    assert {} + AllEntries(v) == AllEntries(v) && {} + AllEntries(w) == AllEntries(w);
    CompactionKeepsMeaning(job, {}, ss);
    EntriesBefore(job);
    EntriesAfter(job);
  }

  lemma MovedIsSafe(job: Job, f: File)
    requires job.inputs0 == [f] && job.inputs1 == [] && job.outputs == [f] && job.Ok(Elements(f.entries))
    requires job.level > 0 ==> BoundaryClosed(job.v[job.level], [f])
    ensures SafeReplacement(job.v, job.w)
  {
    hide VersionOk;
    hide Job.Ok;
    hide BoundaryClosed;
    hide AllEntries;
    TrivialMoveKeepsVersionOk(job, f);
  }

  lemma InstalledTablesPresent(job: Job, tables: set<nat>)
    requires job.Installed() && TablesPresent(job.v, tables)
    ensures TablesPresent(job.w, tables + set f | f in job.outputs :: f.number)
  {
    hide Job.Installed;
    forall i, f | 0 <= i < NUM_LEVELS && f in job.w[i]
      ensures f.number in tables + set g | g in job.outputs :: g.number
    {
      FileOrigin(job, i, f);
    }
  }

  lemma CompactedNumbers(job: Job, kept: set<Entry>, next: nat)
    requires job.Ok(kept) && NumbersOk(job.v, next)
    requires forall j :: 0 <= j < |job.outputs| ==> job.outputs[j].number == next + j
    ensures NumbersOk(job.w, next + |job.outputs|)
  {
    hide VersionOk;
    hide InputsOk;
    hide Job.Installed;
    hide NumbersOk;
    OutputNumbers(job.outputs, next);
    forall i, f | 0 <= i < NUM_LEVELS && f in job.v[i]
      ensures f.number < next
    {
      NumberUnique(job.v, next, i, f, i, f);
    }
    NumbersInstalled(job, next, next + |job.outputs|);
  }

  lemma JobInstalled(job: Job, kept: set<Entry>)
    requires job.Ok(kept)
    ensures job.Installed()
  {
  }

  lemma KeepsCompacting(s: State, job: Job, ss: nat, s': State)
    requires Inv(s) && StartCompaction(s, job, ss, s')
    ensures Inv(s')
  {
    hide Inv;
    hide NumbersOk;
    hide TablesPresent;
    hide Job.Ok;
    hide SafeReplacement;
    hide Survivors;
    hide PlacementSafe;
    hide DeletionsSafe;
    var d, m := s.disk, s.memory;
    OpenFacts(s);
    NumbersMonotone(job.v, d.manifest.nextFile, m.nextFile);
    JobInstalled(job, Survivors(job.Inputs(), job.v, job.level, ss));
    CompactedIsSafe(job, ss);
    CompactedNumbers(job, Survivors(job.Inputs(), job.v, job.level, ss), m.nextFile);
    InstalledTablesPresent(job, d.tables);
    KeepsReplacing(s, job.w, |job.outputs|, set f | f in job.outputs :: f.number, s');
  }

  lemma OpenFacts(s: State)
    requires Inv(s) && s.memory.Open?
    ensures NumbersOk(s.disk.manifest.version, s.disk.manifest.nextFile)
    ensures TablesPresent(s.disk.manifest.version, s.disk.tables)
    ensures s.disk.manifest.nextFile <= s.memory.nextFile && s.memory.lastSequence < MAX_SEQUENCE
  {
  }

  lemma MovedNumbers(job: Job, f: File, next: nat)
    requires job.inputs0 == [f] && job.inputs1 == [] && job.outputs == [f] && job.Ok(Elements(f.entries))
    requires NumbersOk(job.v, next)
    ensures NumbersOk(job.w, next)
  {
    hide VersionOk;
    hide NumbersOk;
    hide Job.Installed;
    assert f in job.inputs0 && f in job.v[job.level];
    NumberUnique(job.v, next, job.level, f, job.level, f);
    forall i, g, h | 0 <= i < NUM_LEVELS && g in job.v[i] && !job.IsInput(i, g) && h in job.outputs
      ensures g.number != h.number
    {
      NumberUnique(job.v, next, i, g, job.level, f);
    }
    NumbersInstalled(job, next, next);
  }

  lemma MovedTables(job: Job, f: File, tables: set<nat>)
    requires job.inputs0 == [f] && job.inputs1 == [] && job.outputs == [f] && job.Ok(Elements(f.entries))
    requires TablesPresent(job.v, tables)
    ensures TablesPresent(job.w, tables + {})
  {
    hide VersionOk;
    hide Job.Installed;
    hide InputsOk;
    InputsAreFiles(job);
    assert f in job.inputs0 && f in job.v[job.level];
    InstalledTablesPresent(job, tables);
    assert (set g | g in job.outputs :: g.number) == {f.number};
    assert tables + {f.number} == tables + {};
  }

  lemma KeepsMoving(s: State, job: Job, f: File, s': State)
    requires Inv(s) && StartMove(s, job, f, s')
    ensures Inv(s')
  {
    hide Inv;
    hide NumbersOk;
    hide TablesPresent;
    hide Job.Ok;
    hide SafeReplacement;
    hide BoundaryClosed;
    var d, m := s.disk, s.memory;
    OpenFacts(s);
    NumbersMonotone(job.v, d.manifest.nextFile, m.nextFile);
    MovedIsSafe(job, f);
    MovedNumbers(job, f, m.nextFile);
    MovedTables(job, f, d.tables);
    assert d.tables + {} == d.tables;
    KeepsReplacing(s, job.w, 0, {}, s');
  }

  /* ---- the record reaches the disk ---- */

  // Only the current log stays live after a flush.
  lemma FlushedLive(d: Disk, live: seq<nat>, m: Memory)
    requires m.Open? && m.imm.Some? && LogsMatch(d, live, m) && IsLive(d.logs, d.manifest.logNumber, live)
    ensures IsLive(d.logs, m.logFile, [m.logFile])
    ensures Concat(d.logs, [m.logFile]) == m.mem + PendingRecords(m)
  {
    assert live[1] == m.logFile;
    ConcatFirst(d.logs, [m.logFile]);
  }

  lemma KeepsFlushCommit(s: State, s': State)
    requires Inv(s) && CommitInstall(s, s') && s.memory.install.value.flush
    ensures Inv(s')
  {
    hide GoodVersion;
    hide Chained;
    hide Logged;
    hide ReadsAs;
    hide Reads;
    hide SeqnosWithin;
    hide IsLive;
    hide Concat;
    hide OpsOf;
    hide AllEntries;
    var d, m, m' := s.disk, s.memory, s'.memory;
    var imm, rest := m.imm.value, m.mem + PendingRecords(m);
    LiveRecords(d, s.live, m);
    FlushedLive(d, s.live, m);
    assert Held(m) + PendingRecords(m) == imm + rest;
    ChainedConcat(Tables(d), imm, rest);
    ChainedConcat(Tables(d), imm, m.mem);
    assert Held(m') == m.mem;
  }

  // Replaying onto tables that read the same gives the same.
  lemma ReplacedReads(es: set<Entry>, es': set<Entry>, rs: seq<Record>, ops: seq<Op>)
    requires Chained(es, rs) && es' <= es && forall k :: Reads(es', k) == Reads(es, k)
    requires ReadsAs(es + Logged(rs), ops)
    ensures Chained(es', rs) && ReadsAs(es' + Logged(rs), ops)
  {
    hide Chained;
    hide Logged;
    hide Reads;
    hide After;
    ChainedShrink(es, es', rs);
    ReplayReads(es, rs);
    ReplayReads(es', rs);
    forall k
      ensures Reads(es' + Logged(rs), k) == After(ops, k, None)
    {
      assert Reads(es + Logged(rs), k) == After(OpsOf(rs), k, Reads(es, k));
    }
  }

  lemma KeepsReplaceCommit(s: State, s': State)
    requires Inv(s) && CommitInstall(s, s') && !s.memory.install.value.flush
    ensures Inv(s')
  {
    hide GoodVersion;
    hide Chained;
    hide Logged;
    hide ReadsAs;
    hide Reads;
    hide IsLive;
    hide Concat;
    hide OpsOf;
    hide AllEntries;
    var d, m := s.disk, s.memory;
    var ops := s.acked + OpsOf(PendingRecords(m));
    OpenRecords(d, s.live, m, ops);
    ReplacedReads(Tables(d), Tables(s'.disk), Concat(d.logs, s.live), ops);
    ReplacedReads(Tables(d), Tables(s'.disk), Held(m), s.acked);
    assert Seen(s'.disk, s'.memory) <= Seen(d, m);
  }

  /* ---- deleting obsolete files ---- */

  lemma DeadLog(logs: map<nat, seq<Record>>, logNumber: nat, live: seq<nat>, n: nat)
    requires IsLive(logs, logNumber, live) && n < logNumber
    ensures IsLive(logs - {n}, logNumber, live) && Concat(logs - {n}, live) == Concat(logs, live)
    ensures n !in live
  {
    ConcatAgrees(logs, logs - {n}, live);
  }

  lemma KeepsDeletingLog(s: State, n: nat, s': State)
    requires Inv(s) && DeleteLog(s, n, s')
    ensures Inv(s')
  {
    hide GoodVersion;
    hide Chained;
    hide Logged;
    hide ReadsAs;
    hide SeqnosWithin;
    hide IsLive;
    hide Concat;
    hide OpsOf;
    hide AllEntries;
    DeadLog(s.disk.logs, s.disk.manifest.logNumber, s.live, n);
  }

  lemma KeepsDeletingTable(s: State, n: nat, s': State)
    requires Inv(s) && DeleteTable(s, n, s')
    ensures Inv(s')
  {
    hide VersionOk;
    hide NumbersOk;
    hide Chained;
    hide Logged;
    hide ReadsAs;
    hide SeqnosWithin;
    hide IsLive;
    hide Concat;
    hide OpsOf;
    hide AllEntries;
  }

  /* ---- crashes ---- */

  // The log loses the pending batch at its end.
  lemma CutLog(d: Disk, live: seq<nat>, m: Memory)
    requires m.Open? && LogsMatch(d, live, m) && IsLive(d.logs, d.manifest.logNumber, live)
    ensures
      var logs' := d.logs[m.logFile := m.mem];
      IsLive(logs', d.manifest.logNumber, live) && Concat(logs', live) == Held(m)
  {
    var d', m' := d.(logs := d.logs[m.logFile := m.mem]), m.(pending := None);
    LiveRecords(d', live, m');
    assert Held(m) + [] == Held(m);
  }

  lemma KeepsCrashing(s: State, survives: bool, s': State)
    requires Inv(s) && Crash(s, survives, s')
    ensures Inv(s')
  {
    hide GoodVersion;
    hide Chained;
    hide Logged;
    hide ReadsAs;
    hide SeqnosWithin;
    hide IsLive;
    hide Concat;
    hide OpsOf;
    hide AllEntries;
    hide InstallOk;
    var d, m := s.disk, s.memory;
    OpsOfPending(m);
    OpsOfPending(s'.memory);
    assert s'.acked + [] == s'.acked;
    assert s.acked + [] == s.acked;
    if m.Open? && m.pending.Some? && !survives {
      OpenRecords(d, s.live, m, s.acked + m.pending.value.ops);
      CutLog(d, s.live, m);
    }
  }

  /** Boundary-closed inputs meet the guard of a compaction step. */
  lemma ClosedMayCompact(job: Job, ss: nat)
    requires VersionOk(job.v) && job.level + 1 < NUM_LEVELS && InputsOk(job.v, job.level, job.inputs0, job.inputs1)
    requires job.level > 0 ==> BoundaryClosed(job.v[job.level], job.inputs0)
    requires BoundaryClosed(job.v[job.level + 1], job.inputs1)
    ensures PlacementSafe(job.v, job.level, job.inputs0, ss)
    ensures DeletionsSafe(job.Inputs(), job.Rest(), job.v, job.level, ss)
  {
    hide VersionOk;
    hide InputsOk;
    hide BoundaryClosed;
    hide DeletionsSafe;
    hide Job.Rest;
    ClosedInputsArePlaced(job.v, job.level, job.inputs0, ss);
    ClosedInputsAreSafe(job, {}, ss);
    assert {} + job.Rest() == job.Rest();
  }
}
