/** Recovery keeps the durability invariant (Recover, RecoverLogFile and Open in
    contrib/leveldb/db/db_impl.cc). */
module DurabilityRecovery {
  import opened DbFormat
  import opened VersionFiles
  import opened VersionGet
  import opened FlushStep
  import opened MemTables
  import opened StoreEdits
  import opened LogReplay
  import opened Durability
  import opened DurabilityInvariant
  import opened DurabilitySteps

  lemma KeepsStartRecovery(s: State, logs: seq<nat>, s': State)
    requires Inv(s) && StartRecovery(s, logs, s')
    ensures Inv(s')
  {
    hide VersionOk;
    hide NumbersOk;
    hide Chained;
    hide ReadsAs;
    hide Concat;
    hide OpsOf;
    hide AllEntries;
    var d := s.disk;
    LiveIsUnique(logs, s.live);
    NumbersMonotone(d.manifest.version, d.manifest.nextFile, d.manifest.nextFile + 1);
    assert [] + [] + Concat(d.logs, logs) == Concat(d.logs, logs);
    assert Tables(d) + Logged([]) == Tables(d);
  }

  lemma KeepsOpenLog(s: State, s': State)
    requires Inv(s) && OpenLog(s, s')
    ensures Inv(s')
  {
    hide GoodVersion;
    hide Chained;
    hide Logged;
    hide ReadsAs;
    hide SeqnosWithin;
    hide IsLive;
    hide Concat;
    hide OpsOf;
    hide AllEntries;
    var d, m := s.disk, s.memory;
    ConcatFirst(d.logs, m.todo);
    assert [] + [] + Concat(d.logs, m.todo) == [] + d.logs[m.todo[0]] + Concat(d.logs, m.todo[1..]);
  }

  // The next record of the log, put into the memtable.
  lemma ReplayedRecord(es: set<Entry>, buffered: seq<Record>, left: seq<Record>, more: seq<Record>, last: nat)
    requires left != [] && left[0].first > 0 && Chained(es, buffered + left + more)
    requires SeqnosWithin(es + Logged(buffered), last)
    ensures buffered + [left[0]] + left[1..] + more == buffered + left + more
    ensures SeqnosWithin(es + Logged(buffered + [left[0]]), Max(last, left[0].Last()))
    ensures left[0].Last() < MAX_SEQUENCE
  {
    hide Logged;
    hide Record.Entries;
    var r, rest := left[0], left[1..] + more;
    assert buffered + left + more == buffered + [r] + rest;
    ChainedConcat(es, buffered + [r], rest);
    assert (buffered + [r])[..|buffered|] == buffered;
    ReplayReads(es, buffered);
    ReplayRecord(es + Logged(buffered), r);
    ChainedConcat(es, buffered, [r]);
    JustOne(r);
  }

  lemma JustOne(r: Record)
    ensures Logged([r]) == r.Entries()
  {
    assert [r][..0] == [];
  }

  lemma KeepsReplaying(s: State, s': State)
    requires Inv(s) && Replay(s, s')
    ensures Inv(s')
  {
    hide GoodVersion;
    hide Chained;
    hide Logged;
    hide ReadsAs;
    hide IsLive;
    hide Concat;
    hide OpsOf;
    hide AllEntries;
    hide Record.Last;
    var d, m := s.disk, s.memory;
    ReplayedRecord(AllEntries(m.version), m.buffered, m.left, Concat(d.logs, m.todo),
                   Max(d.manifest.lastSequence, m.maxSequence));
  }

  // The replayed part of a log is later than the tables.
  lemma BufferedIsLater(es: set<Entry>, buffered: seq<Record>, rest: seq<Record>)
    requires Chained(es, buffered + rest)
    ensures Later(Logged(buffered), es)
    ensures UniqueSeqnos(Logged(buffered)) && SmallSeqnos(Logged(buffered))
    ensures Chained(es + Logged(buffered), rest)
    ensures es + Logged(buffered) + Logged(rest) == es + Logged(buffered + rest)
  {
    hide Logged;
    hide Chained;
    ChainedConcat(es, buffered, rest);
    ReplayReads(es, buffered);
  }

  lemma KeepsRecoveryFlush(s: State, f: File, w: Version, s': State)
    requires Inv(s) && RecoveryFlush(s, f, w, s')
    ensures Inv(s')
  {
    hide VersionOk;
    hide NumbersOk;
    hide Chained;
    hide Logged;
    hide ReadsAs;
    hide SeqnosWithin;
    hide IsLive;
    hide Concat;
    hide OpsOf;
    hide AllEntries;
    hide Added;
    hide TablesPresent;
    var d, m := s.disk, s.memory;
    var rest := m.left + Concat(d.logs, m.todo);
    assert m.buffered + m.left + Concat(d.logs, m.todo) == m.buffered + rest;
    assert [] + m.left + Concat(d.logs, m.todo) == rest;
    BufferedIsLater(AllEntries(m.version), m.buffered, rest);
    FlushedVersion(m.version, w, 0, f, m.nextFile, d.tables);
    TablesGrow(d.manifest.version, d.tables, {f.number});
    NothingLogged(AllEntries(w));
  }

  lemma KeepsRecoveryEmptyFlush(s: State, s': State)
    requires Inv(s) && RecoveryEmptyFlush(s, s')
    ensures Inv(s')
  {
    hide VersionOk;
    hide NumbersOk;
    hide Chained;
    hide Logged;
    hide ReadsAs;
    hide SeqnosWithin;
    hide IsLive;
    hide Concat;
    hide OpsOf;
    hide AllEntries;
    hide TablesPresent;
    var d, m := s.disk, s.memory;
    var rest := m.left + Concat(d.logs, m.todo);
    assert m.buffered + m.left + Concat(d.logs, m.todo) == m.buffered + rest;
    assert [] + m.left + Concat(d.logs, m.todo) == rest;
    BufferedIsLater(AllEntries(m.version), m.buffered, rest);
    assert AllEntries(m.version) + {} == AllEntries(m.version);
    NothingLogged(AllEntries(m.version));
    NumbersMonotone(m.version, m.nextFile, m.nextFile + 1);
  }

  lemma KeepsFinishLog(s: State, s': State)
    requires Inv(s) && FinishLog(s, s')
    ensures Inv(s')
  {
    hide VersionOk;
    hide NumbersOk;
    hide TablesPresent;
    hide Chained;
    hide Logged;
    hide ReadsAs;
    hide SeqnosWithin;
    hide IsLive;
    hide Concat;
    hide OpsOf;
    hide AllEntries;
    var m := s.memory;
    NumbersMonotone(m.version, m.nextFile, s'.memory.nextFile);
  }

  // A new log comes after all live ones and is empty.
  lemma CreatedLog(logs: map<nat, seq<Record>>, logNumber: nat, live: seq<nat>, n: nat)
    requires IsLive(logs, logNumber, live) && logNumber <= n && forall k :: k in live ==> k < n
    ensures IsLive(logs[n := []], logNumber, live + [n])
    ensures Concat(logs[n := []], live + [n]) == Concat(logs, live)
  {
    ConcatAppend(logs, live, n, []);
  }

  // With nothing left to replay, the tables hold all there is.
  lemma NothingLeft(d: Disk, live: seq<nat>, m: Memory)
    requires m.Recovering? && RecoveringOk(d, live, m)
    requires m.reading.None? && m.todo == [] && m.left == [] && m.buffered == []
    ensures AllEntries(m.version) == Durable(d, live)
    ensures SeqnosWithin(AllEntries(m.version), Max(d.manifest.lastSequence, m.maxSequence))
  {
    hide GoodVersion;
    hide Chained;
    hide AllEntries;
    assert m.buffered + m.left + Concat(d.logs, m.todo) == [];
    NothingLogged(AllEntries(m.version));
  }

  lemma KeepsNewLog(s: State, s': State)
    requires Inv(s) && NewLog(s, s')
    ensures Inv(s')
  {
    hide VersionOk;
    hide NumbersOk;
    hide TablesPresent;
    hide SeqnosWithin;
    hide Chained;
    hide Logged;
    hide ReadsAs;
    hide IsLive;
    hide OpsOf;
    hide AllEntries;
    hide Concat;
    var d, m := s.disk, s.memory;
    CreatedLog(d.logs, d.manifest.logNumber, s.live, m.nextFile);
    NumbersMonotone(m.version, m.nextFile, m.nextFile + 1);
    NothingLeft(d, s.live, m);
  }

  lemma LastIsLive(logs: map<nat, seq<Record>>, logNumber: nat, live: seq<nat>, n: nat)
    requires IsLive(logs, logNumber, live) && live != [] && live[|live| - 1] == n && n in logs && logs[n] == []
    ensures IsLive(logs, n, [n]) && Concat(logs, [n]) == []
  {
    ConcatFirst(logs, [n]);
  }

  /** The open database starts with exactly what the disk held. */
  lemma KeepsFinishOpen(s: State, s': State)
    requires Inv(s) && FinishOpen(s, s')
    ensures Inv(s')
  {
    hide VersionOk;
    hide NumbersOk;
    hide TablesPresent;
    hide Logged;
    hide ReadsAs;
    hide IsLive;
    hide Concat;
    hide OpsOf;
    hide AllEntries;
    var d, m := s.disk, s.memory;
    LastIsLive(d.logs, d.manifest.logNumber, s.live, m.logFile);
    NothingLogged(AllEntries(m.version));
    VersionSeqnos(m.version);
    assert Held(s'.memory) == [] && PendingRecords(s'.memory) == [];
    OpsOfPending(m);
    OpsOfPending(s'.memory);
    assert s.acked + [] == s.acked;
  }
}
