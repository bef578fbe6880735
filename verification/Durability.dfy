/** Logs, manifest and table files over whole runs: writes, memtable switches,
    flushes, compactions, file deletion, crashes and recoveries
    (contrib/leveldb/db/db_impl.cc, version_set.cc). */
module Durability {
  import opened Options
  import opened DbFormat
  import opened VersionFiles
  import opened VersionGet
  import opened CompactionRules
  import opened CompactionStep
  import opened CompactionPlacement
  import opened FlushStep
  import opened MemTables
  import opened LogReplay

  /** What the manifest records. */
  datatype Manifest = Manifest(version: Version, logNumber: nat, nextFile: nat, lastSequence: nat)

  /** What survives a crash: the manifest, the log files by number with the
      records appended to them, and the numbers of the table files. */
  datatype Disk = Disk(manifest: Manifest, logs: map<nat, seq<Record>>, tables: set<nat>)

  /** A manifest record being written; for a flush, imm goes when it is done. */
  datatype Install = Install(manifest: Manifest, flush: bool)

  /** The process: not running, replaying logs, about to finish opening, or open.
      A memtable is the list of batches inserted into it. */
  datatype Memory =
    | Down
    | Recovering(version: Version, nextFile: nat, maxSequence: nat,
                 todo: seq<nat>, reading: Option<nat>, left: seq<Record>, buffered: seq<Record>)
    | Opening(version: Version, nextFile: nat, maxSequence: nat, logFile: nat)
    | Open(imm: Option<seq<Record>>, mem: seq<Record>, logFile: nat, pending: Option<Record>,
           lastSequence: nat, nextFile: nat, install: Option<Install>)

  /** Two history variables go with it: the live logs in order, and the updates
      of all acknowledged writes. */
  datatype State = State(disk: Disk, memory: Memory, live: seq<nat>, acked: seq<Op>)

  // Log file contents, one after the other.
  function Concat(logs: map<nat, seq<Record>>, ns: seq<nat>): seq<Record> {
    if ns == [] then []
    else Concat(logs, ns[..|ns| - 1]) + if ns[|ns| - 1] in logs then logs[ns[|ns| - 1]] else []
  }

  predicate Increasing(ns: seq<nat>) {
    forall i, j :: 0 <= i < j < |ns| ==> ns[i] < ns[j]
  }

  /** ns lists the log files a recovery replays: those from the manifest's log
      number on, in increasing order. */
  ghost predicate IsLive(logs: map<nat, seq<Record>>, logNumber: nat, ns: seq<nat>) {
    Increasing(ns) && forall n :: n in ns <==> n in logs && n >= logNumber
  }

  predicate TablesPresent(v: Version, tables: set<nat>) {
    forall i, f :: 0 <= i < NUM_LEVELS && f in v[i] ==> f.number in tables
  }

  function Max(a: nat, b: nat): nat {
    if a < b then b else a
  }

  function PendingRecords(m: Memory): seq<Record> {
    if m.Open? && m.pending.Some? then [m.pending.value] else []
  }

  function ImmRecords(imm: Option<seq<Record>>): seq<Record> {
    if imm.Some? then imm.value else []
  }

  /* ---- steps ---- */

  // A new database (NewDB).
  predicate Init(s: State) {
    && s.disk == Disk(Manifest(seq(NUM_LEVELS, _ => []), 0, 2, 0), map[], {})
    && s.memory == Down && s.live == [] && s.acked == []
  }

  /** Append a batch to the log under the next sequence number. */
  predicate LogWrite(s: State, ops: seq<Op>, s': State) {
    var m := s.memory;
    && m.Open? && m.pending.None? && m.lastSequence + |ops| < MAX_SEQUENCE && m.logFile in s.disk.logs
    && var r := Record(m.lastSequence + 1, ops);
    && s' == s.(disk := s.disk.(logs := s.disk.logs[m.logFile := s.disk.logs[m.logFile] + [r]]),
                memory := m.(pending := Some(r)))
  }

  /** Insert the logged batch into the memtable, publish its sequence numbers and
      acknowledge it. */
  predicate ApplyWrite(s: State, s': State) {
    var m := s.memory;
    && m.Open? && m.pending.Some?
    && s' == s.(memory := m.(mem := m.mem + [m.pending.value], pending := None,
                             lastSequence := m.lastSequence + |m.pending.value.ops|),
                acked := s.acked + m.pending.value.ops)
  }

  /** MakeRoomForWrite: a new log and a new memtable. */
  predicate Switch(s: State, s': State) {
    var m := s.memory;
    && m.Open? && m.pending.None? && m.imm.None?
    && s' == s.(disk := s.disk.(logs := s.disk.logs[m.nextFile := []]),
                memory := m.(imm := Some(m.mem), mem := [], logFile := m.nextFile, nextFile := m.nextFile + 1),
                live := s.live + [m.nextFile])
  }

  /** CompactMemTable writes the table of imm and starts the manifest record that
      adds it and moves the log number on. */
  ghost predicate StartFlush(s: State, level: nat, f: File, w: Version, s': State) {
    var m, v := s.memory, s.disk.manifest.version;
    && m.Open? && m.imm.Some? && m.install.None?
    && f.Valid() && Elements(f.entries) == Logged(m.imm.value) && f.number == m.nextFile
    && level < NUM_LEVELS
    && (level > 0 ==> forall i :: 0 <= i <= level ==> !OverlapsLevel(v, i, f.smallest.user, f.largest.user))
    && Added(v, w, level, f)
    && var manifest := Manifest(w, m.logFile, m.nextFile + 1, m.lastSequence);
    && s' == s.(disk := s.disk.(tables := s.disk.tables + {f.number}),
                memory := m.(nextFile := m.nextFile + 1, install := Some(Install(manifest, true))))
  }

  /** A memtable without entries leaves no table. */
  ghost predicate StartEmptyFlush(s: State, s': State) {
    var m := s.memory;
    && m.Open? && m.imm.Some? && m.install.None? && Logged(m.imm.value) == {}
    && var manifest := Manifest(s.disk.manifest.version, m.logFile, m.nextFile + 1, m.lastSequence);
    && s' == s.(memory := m.(nextFile := m.nextFile + 1, install := Some(Install(manifest, true))))
  }

  /** The outputs of a compaction for the oldest snapshot ss are written, and the
      manifest record that installs them. Its placement and its dropped deletions
      are safe, as they are when its inputs are boundary-closed. */
  ghost predicate StartCompaction(s: State, job: Job, ss: nat, s': State) {
    var m := s.memory;
    && m.Open? && m.install.None? && ss <= m.lastSequence
    && job.v == s.disk.manifest.version && job.Ok(Survivors(job.Inputs(), job.v, job.level, ss))
    && PlacementSafe(job.v, job.level, job.inputs0, ss)
    && DeletionsSafe(job.Inputs(), job.Rest(), job.v, job.level, ss)
    && (forall j :: 0 <= j < |job.outputs| ==> job.outputs[j].number == m.nextFile + j)
    && s' == s.(disk := s.disk.(tables := s.disk.tables + set f | f in job.outputs :: f.number),
                memory := Reserve(s, m, job.w, |job.outputs|))
  }

  // The memory with a manifest record for w under way and n file numbers taken.
  function Reserve(s: State, m: Memory, w: Version, n: nat): Memory
    requires m.Open?
  {
    m.(nextFile := m.nextFile + n,
       install := Some(Install(Manifest(w, s.disk.manifest.logNumber, m.nextFile + n, m.lastSequence), false)))
  }

  ghost predicate StartMove(s: State, job: Job, f: File, s': State) {
    var m := s.memory;
    && m.Open? && m.install.None?
    && job.v == s.disk.manifest.version && job.inputs0 == [f] && job.inputs1 == [] && job.outputs == [f]
    && job.Ok(Elements(f.entries))
    && (job.level > 0 ==> BoundaryClosed(job.v[job.level], [f]))
    && s' == s.(memory := Reserve(s, m, job.w, 0))
  }

  /** The manifest record is on disk, and the new version is installed. */
  predicate CommitInstall(s: State, s': State) {
    var m := s.memory;
    && m.Open? && m.install.Some?
    && var flush := m.install.value.flush;
    && s' == s.(disk := s.disk.(manifest := m.install.value.manifest),
                memory := m.(install := None, imm := if flush then None else m.imm),
                live := if flush then [m.logFile] else s.live)
  }

  /** DeleteObsoleteFiles, one file at a time. */
  predicate DeleteLog(s: State, n: nat, s': State) {
    && s.memory.Open? && s.memory.install.None? && n < s.disk.manifest.logNumber
    && s' == s.(disk := s.disk.(logs := s.disk.logs - {n}))
  }

  predicate DeleteTable(s: State, n: nat, s': State) {
    && s.memory.Open? && s.memory.install.None?
    && (forall i, f :: 0 <= i < NUM_LEVELS && f in s.disk.manifest.version[i] ==> f.number != n)
    && s' == s.(disk := s.disk.(tables := s.disk.tables - {n}))
  }

  /** The process dies. A logged but unacknowledged batch survives or is lost with
      the cut-off end of its log. */
  predicate Crash(s: State, survives: bool, s': State) {
    var m := s.memory;
    && s'.memory == Down && s'.live == s.live
    && if m.Open? && m.pending.Some? then
         if survives then s'.disk == s.disk && s'.acked == s.acked + m.pending.value.ops
         else s'.disk == s.disk.(logs := s.disk.logs[m.logFile := m.mem]) && s'.acked == s.acked
       else s'.disk == s.disk && s'.acked == s.acked
  }

  /** Recovery reads the manifest, checks that the live tables exist, and lists
      the logs to replay. */
  ghost predicate StartRecovery(s: State, logs: seq<nat>, s': State) {
    var d := s.disk;
    && s.memory.Down? && IsLive(d.logs, d.manifest.logNumber, logs) && TablesPresent(d.manifest.version, d.tables)
    && s' == s.(memory := Recovering(d.manifest.version, d.manifest.nextFile + 1, 0, logs, None, [], []))
  }

  predicate OpenLog(s: State, s': State) {
    var m := s.memory;
    && m.Recovering? && m.reading.None? && m.todo != [] && m.todo[0] in s.disk.logs
    && s' == s.(memory := m.(reading := Some(m.todo[0]), left := s.disk.logs[m.todo[0]], todo := m.todo[1..]))
  }

  predicate Replay(s: State, s': State) {
    var m := s.memory;
    && m.Recovering? && m.left != [] && m.left[0].first > 0
    && s' == s.(memory := m.(buffered := m.buffered + [m.left[0]], left := m.left[1..],
                             maxSequence := Max(m.maxSequence, m.left[0].Last())))
  }

  /** A full memtable, or the one left at the end of a log, goes to level 0. */
  ghost predicate RecoveryFlush(s: State, f: File, w: Version, s': State) {
    var m := s.memory;
    && m.Recovering? && m.buffered != []
    && f.Valid() && Elements(f.entries) == Logged(m.buffered) && f.number == m.nextFile
    && Added(m.version, w, 0, f)
    && s' == s.(disk := s.disk.(tables := s.disk.tables + {f.number}),
                memory := m.(version := w, nextFile := m.nextFile + 1, buffered := []))
  }

  ghost predicate RecoveryEmptyFlush(s: State, s': State) {
    var m := s.memory;
    && m.Recovering? && m.buffered != [] && Logged(m.buffered) == {}
    && s' == s.(memory := m.(nextFile := m.nextFile + 1, buffered := []))
  }

  predicate FinishLog(s: State, s': State) {
    var m := s.memory;
    && m.Recovering? && m.reading.Some? && m.left == [] && m.buffered == []
    && s' == s.(memory := m.(reading := None, nextFile := Max(m.nextFile, m.reading.value + 1)))
  }

  /** All logs replayed: a new log file is created. */
  predicate NewLog(s: State, s': State) {
    var m := s.memory;
    && m.Recovering? && m.reading.None? && m.todo == [] && m.left == [] && m.buffered == []
    && s' == s.(disk := s.disk.(logs := s.disk.logs[m.nextFile := []]),
                memory := Opening(m.version, m.nextFile + 1, m.maxSequence, m.nextFile),
                live := s.live + [m.nextFile])
  }

  /** The new manifest becomes current, and the database is open. */
  predicate FinishOpen(s: State, s': State) {
    var m := s.memory;
    && m.Opening?
    && var last := Max(s.disk.manifest.lastSequence, m.maxSequence);
    && s' == s.(disk := s.disk.(manifest := Manifest(m.version, m.logFile, m.nextFile, last)),
                memory := Open(None, [], m.logFile, None, last, m.nextFile, None),
                live := [m.logFile])
  }

  datatype Step =
    | Logging(ops: seq<Op>) | Applying | Switching
    | Flushing(level: nat, f: File, w: Version) | FlushingNothing
    | Compacting(job: Job, ss: nat) | Moving(job: Job, f: File) | Committing
    | DeletingLog(n: nat) | DeletingTable(n: nat)
    | Crashing(survives: bool)
    | Recovery(logs: seq<nat>) | ReadingLog | Replaying
    | RecoveryFlushing(f: File, w: Version) | RecoveryFlushingNothing
    | LogDone | CreatingLog | Finishing

  ghost predicate Next(s: State, step: Step, s': State) {
    match step
    case Logging(ops) => LogWrite(s, ops, s')
    case Applying => ApplyWrite(s, s')
    case Switching => Switch(s, s')
    case Flushing(level, f, w) => StartFlush(s, level, f, w, s')
    case FlushingNothing => StartEmptyFlush(s, s')
    case Compacting(job, ss) => StartCompaction(s, job, ss, s')
    case Moving(job, f) => StartMove(s, job, f, s')
    case Committing => CommitInstall(s, s')
    case DeletingLog(n) => DeleteLog(s, n, s')
    case DeletingTable(n) => DeleteTable(s, n, s')
    case Crashing(survives) => Crash(s, survives, s')
    case Recovery(logs) => StartRecovery(s, logs, s')
    case ReadingLog => OpenLog(s, s')
    case Replaying => Replay(s, s')
    case RecoveryFlushing(f, w) => RecoveryFlush(s, f, w, s')
    case RecoveryFlushingNothing => RecoveryEmptyFlush(s, s')
    case LogDone => FinishLog(s, s')
    case CreatingLog => NewLog(s, s')
    case Finishing => FinishOpen(s, s')
  }
}
