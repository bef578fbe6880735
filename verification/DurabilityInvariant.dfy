/** The invariant of the durability protocol, step by step: at every moment the
    disk alone holds every acknowledged write. */
module DurabilityInvariant {
  import opened Options
  import opened DbFormat
  import opened VersionFiles
  import opened VersionGet
  import opened MemTables
  import opened StoreEdits
  import opened LsmStore
  import opened LogReplay
  import opened Durability

  /** A reader of es finds what the updates leave. */
  ghost predicate ReadsAs(es: set<Entry>, ops: seq<Op>) {
    forall k :: Reads(es, k) == After(ops, k, None)
  }

  ghost predicate GoodVersion(v: Version, nextFile: nat, tables: set<nat>) {
    VersionOk(v) && NumbersOk(v, nextFile) && TablesPresent(v, tables)
  }

  /** The entries of the manifest's tables, and with the live logs replayed. */
  ghost function Tables(d: Disk): set<Entry> {
    AllEntries(d.manifest.version)
  }

  ghost function Durable(d: Disk, live: seq<nat>): set<Entry> {
    Tables(d) + Logged(Concat(d.logs, live))
  }

  /** A recovery from this disk finds exactly the given updates. */
  ghost predicate DiskOk(d: Disk, live: seq<nat>, ops: seq<Op>) {
    && GoodVersion(d.manifest.version, d.manifest.nextFile, d.tables)
    && d.manifest.logNumber < d.manifest.nextFile
    && IsLive(d.logs, d.manifest.logNumber, live)
    && Chained(Tables(d), Concat(d.logs, live))
    && SeqnosWithin(Tables(d), d.manifest.lastSequence) && d.manifest.lastSequence < MAX_SEQUENCE
    && ReadsAs(Durable(d, live), ops)
  }

  ghost predicate RecoveringOk(d: Disk, live: seq<nat>, m: Memory)
    requires m.Recovering?
  {
    var es, rest := AllEntries(m.version), m.buffered + m.left + Concat(d.logs, m.todo);
    && GoodVersion(m.version, m.nextFile, d.tables) && m.nextFile > d.manifest.nextFile
    && Chained(es, rest) && es + Logged(rest) == Durable(d, live)
    && SeqnosWithin(es + Logged(m.buffered), Max(d.manifest.lastSequence, m.maxSequence)) && m.maxSequence < MAX_SEQUENCE
    && Increasing(m.todo) && (forall n :: n in m.todo ==> n in live)
    && (forall n :: n in live ==> n in m.todo || n < m.nextFile || m.reading == Some(n))
    && (m.reading.None? ==> m.left == [] && m.buffered == [])
  }

  ghost predicate OpeningOk(d: Disk, live: seq<nat>, m: Memory)
    requires m.Opening?
  {
    && GoodVersion(m.version, m.nextFile, d.tables) && m.logFile < m.nextFile
    && AllEntries(m.version) == Durable(d, live)
    && live != [] && live[|live| - 1] == m.logFile && m.logFile in d.logs && d.logs[m.logFile] == []
    && SeqnosWithin(AllEntries(m.version), Max(d.manifest.lastSequence, m.maxSequence)) && m.maxSequence < MAX_SEQUENCE
  }

  // What both memtables hold.
  function Held(m: Memory): seq<Record>
    requires m.Open?
  {
    ImmRecords(m.imm) + m.mem
  }

  /** Everything a reader of the open database sees. */
  ghost function Seen(d: Disk, m: Memory): set<Entry>
    requires m.Open?
  {
    Tables(d) + Logged(Held(m))
  }

  ghost predicate LogsMatch(d: Disk, live: seq<nat>, m: Memory)
    requires m.Open?
  {
    && |live| == (if m.imm.Some? then 2 else 1) && live[|live| - 1] == m.logFile
    && (forall n :: n in live ==> n in d.logs)
    && (m.imm.Some? ==> d.logs[live[0]] == m.imm.value)
    && d.logs[m.logFile] == m.mem + PendingRecords(m)
  }

  /** The manifest record under way is good whenever it reaches the disk. */
  ghost predicate InstallOk(d: Disk, m: Memory, i: Install)
    requires m.Open?
  {
    var es := AllEntries(i.manifest.version);
    && GoodVersion(i.manifest.version, i.manifest.nextFile, d.tables) && i.manifest.nextFile <= m.nextFile
    && i.manifest.logNumber < i.manifest.nextFile
    && SeqnosWithin(es, i.manifest.lastSequence) && i.manifest.lastSequence < MAX_SEQUENCE
    && if i.flush then
         m.imm.Some? && i.manifest.logNumber == m.logFile && es == Tables(d) + Logged(m.imm.value)
       else
         && i.manifest.logNumber == d.manifest.logNumber && es <= Tables(d)
         && forall k :: Reads(es, k) == Reads(Tables(d), k)
  }

  ghost predicate OpenOk(d: Disk, live: seq<nat>, m: Memory, acked: seq<Op>)
    requires m.Open?
  {
    && LogsMatch(d, live, m)
    && m.logFile < m.nextFile && d.manifest.nextFile <= m.nextFile
    && SeqnosWithin(Seen(d, m), m.lastSequence) && m.lastSequence < MAX_SEQUENCE
    && (m.pending.Some? ==> m.pending.value.first == m.lastSequence + 1 && m.pending.value.Last() < MAX_SEQUENCE)
    && ReadsAs(Seen(d, m), acked)
    && (m.install.Some? ==> InstallOk(d, m, m.install.value))
  }

  ghost predicate MemoryOk(s: State) {
    match s.memory
    case Down => true
    case Recovering(_, _, _, _, _, _, _) => RecoveringOk(s.disk, s.live, s.memory)
    case Opening(_, _, _, _) => OpeningOk(s.disk, s.live, s.memory)
    case Open(_, _, _, _, _, _, _) => OpenOk(s.disk, s.live, s.memory, s.acked)
  }

  ghost predicate Inv(s: State) {
    DiskOk(s.disk, s.live, s.acked + OpsOf(PendingRecords(s.memory))) && MemoryOk(s)
  }

  /* ---- lists of logs ---- */

  lemma {:induction false} ConcatAppend(logs: map<nat, seq<Record>>, ns: seq<nat>, n: nat, log: seq<Record>)
    requires n !in ns
    ensures Concat(logs[n := log], ns + [n]) == Concat(logs, ns) + log
    ensures Concat(logs[n := log], ns) == Concat(logs, ns)
    decreases |ns|
  {
    assert (ns + [n])[..|ns|] == ns;
    if ns != [] {
      ConcatAppend(logs, ns[..|ns| - 1], n, log);
    }
  }

  // Logs outside the list do not matter.
  lemma {:induction false} ConcatAgrees(a: map<nat, seq<Record>>, b: map<nat, seq<Record>>, ns: seq<nat>)
    requires forall n :: n in ns ==> n in a && n in b && a[n] == b[n]
    ensures Concat(a, ns) == Concat(b, ns)
    decreases |ns|
  {
    if ns != [] {
      ConcatAgrees(a, b, ns[..|ns| - 1]);
    }
  }

  lemma {:induction false} ConcatFirst(logs: map<nat, seq<Record>>, ns: seq<nat>)
    requires ns != [] && ns[0] in logs
    ensures Concat(logs, ns) == logs[ns[0]] + Concat(logs, ns[1..])
    decreases |ns|
  {
    if |ns| > 1 {
      assert ns[..|ns| - 1][1..] == ns[1..][..|ns| - 2];
      ConcatFirst(logs, ns[..|ns| - 1]);
    }
  }

  lemma FirstIsIn(ns: seq<nat>)
    requires ns != []
    ensures exists n :: n in ns
  {
    assert ns[0] in ns;
  }

  /** There is only one list of live logs. */
  lemma {:induction false} LiveIsUnique(a: seq<nat>, b: seq<nat>)
    requires Increasing(a) && Increasing(b) && forall n :: n in a <==> n in b
    ensures a == b
    decreases |a|
  {
    if a == [] {
      if b != [] {
        FirstIsIn(b);
      }
    } else {
      assert a[0] in b && b != [] && b[0] in a;
      var i :| 0 <= i < |b| && b[i] == a[0];
      var j :| 0 <= j < |a| && a[j] == b[0];
      assert a[0] == b[0];
      forall n
        ensures n in a[1..] <==> n in b[1..]
      {
        assert n in a[1..] ==> n in a && n != a[0];
        assert n in b[1..] ==> n in b && n != b[0];
      }
      LiveIsUnique(a[1..], b[1..]);
    }
  }

  lemma LiveRecords(d: Disk, live: seq<nat>, m: Memory)
    requires m.Open? && LogsMatch(d, live, m)
    ensures Concat(d.logs, live) == Held(m) + PendingRecords(m)
  {
    var logs := d.logs;
    if m.imm.Some? {
      ConcatFirst(logs, live);
      assert live[1..] == [m.logFile];
    } else {
      assert live == [m.logFile];
    }
    ConcatFirst(logs, [m.logFile]);
    assert Concat(logs, [m.logFile]) == m.mem + PendingRecords(m);
  }

  /* ---- the start ---- */

  lemma InitHolds(s: State)
    requires Init(s)
    ensures Inv(s)
  {
    hide VersionOk;
    EmptyStoreOk(s.disk.manifest.version);
    assert Durable(s.disk, []) == {};
  }

  /* ---- writes ---- */

  // Logging the next batch keeps the disk good, for the batch included.
  lemma LoggedDisk(d: Disk, live: seq<nat>, m: Memory, ops: seq<Op>, acked: seq<Op>, d': Disk)
    requires m.Open? && m.pending.None? && m.logFile in d.logs && m.lastSequence + |ops| < MAX_SEQUENCE
    requires DiskOk(d, live, acked) && OpenOk(d, live, m, acked)
    requires d' == d.(logs := d.logs[m.logFile := d.logs[m.logFile] + [Record(m.lastSequence + 1, ops)]])
    ensures IsLive(d'.logs, d'.manifest.logNumber, live)
    ensures LogsMatch(d', live, m.(pending := Some(Record(m.lastSequence + 1, ops))))
    ensures Concat(d'.logs, live) == Held(m) + [Record(m.lastSequence + 1, ops)]
  {
    hide GoodVersion;
    hide Chained;
    hide ReadsAs;
    hide SeqnosWithin;
    hide InstallOk;
    var r := Record(m.lastSequence + 1, ops);
    LiveRecords(d', live, m.(pending := Some(r)));
  }

  /** One more record, read. */
  lemma OneMoreRecord(es: set<Entry>, rs: seq<Record>, r: Record, ops: seq<Op>)
    requires Chained(es, rs) && r.first > 0 && r.Last() < MAX_SEQUENCE && SeqnosWithin(es + Logged(rs), r.first - 1)
    requires ReadsAs(es + Logged(rs), ops)
    ensures Chained(es, rs + [r]) && SeqnosWithin(es + Logged(rs + [r]), r.Last())
    ensures ReadsAs(es + Logged(rs + [r]), ops + r.ops)
  {
    hide Chained;
    hide Logged;
    hide Reads;
    hide After;
    hide Record.Entries;
    ChainedAppend(es, rs, r);
    ReplayReads(es, rs);
    ReplayRecord(es + Logged(rs), r);
    forall k
      ensures Reads(es + Logged(rs + [r]), k) == After(ops + r.ops, k, None)
    {
      AfterConcat(ops, r.ops, k, None);
    }
  }

  lemma OpsOfPending(m: Memory)
    ensures m.Open? && m.pending.Some? ==> OpsOf(PendingRecords(m)) == m.pending.value.ops
    ensures !(m.Open? && m.pending.Some?) ==> OpsOf(PendingRecords(m)) == []
  {
    if m.Open? && m.pending.Some? {
      assert PendingRecords(m)[..0] == [];
    }
  }

  lemma KeepsLogging(s: State, ops: seq<Op>, s': State)
    requires Inv(s) && LogWrite(s, ops, s')
    ensures Inv(s')
  {
    hide GoodVersion;
    hide Chained;
    hide Logged;
    hide ReadsAs;
    hide SeqnosWithin;
    hide IsLive;
    hide Concat;
    hide OpsOf;
    hide Record.Last;
    hide InstallOk;
    hide AllEntries;
    var d, m := s.disk, s.memory;
    var r := Record(m.lastSequence + 1, ops);
    OpsOfPending(m);
    OpsOfPending(s'.memory);
    assert s.acked + [] == s.acked;
    LoggedDisk(d, s.live, m, ops, s.acked, s'.disk);
    LoggedBefore(d, s.live, m);
    NextRecord(m.lastSequence, r);
    OneMoreRecord(Tables(d), Held(m), r, s.acked);
    SameInstall(d, s'.disk, m, s'.memory);
    assert Seen(s'.disk, s'.memory) == Seen(d, m);
  }

  lemma NextRecord(last: nat, r: Record)
    requires r.first == last + 1
    ensures r.first > 0 && r.first - 1 == last && r.Last() == last + |r.ops|
  {
  }

  lemma LoggedBefore(d: Disk, live: seq<nat>, m: Memory)
    requires m.Open? && m.pending.None? && LogsMatch(d, live, m)
    ensures Concat(d.logs, live) == Held(m)
  {
    LiveRecords(d, live, m);
    assert Held(m) + [] == Held(m);
  }

  // A record under way stays good while writes go on.
  lemma SameInstall(d: Disk, d': Disk, m: Memory, m': Memory)
    requires m.Open? && m'.Open? && d'.manifest == d.manifest && d'.tables == d.tables
    requires m'.install == m.install && m'.imm == m.imm && m'.logFile == m.logFile && m'.nextFile >= m.nextFile
    requires m.install.Some? ==> InstallOk(d, m, m.install.value)
    ensures m.install.Some? ==> InstallOk(d', m', m.install.value)
  {
    hide GoodVersion;
    hide Logged;
    hide Reads;
    hide SeqnosWithin;
    hide AllEntries;
  }
}
