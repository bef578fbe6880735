/** Group commit: writers queue up, the front one writes for a group of them
    (Write and BuildBatchGroup in contrib/leveldb/db/db_impl.cc). */
module GroupCommit {
  import opened Options
  import opened DbFormat
  import opened CompactionRules
  import opened MemTables
  import opened LogReplay

  /** A waiting write; a writer without a batch only forces a memtable switch. */
  datatype Writer = Writer(batch: Option<seq<Op>>, byteSize: nat, sync: bool)

  /** The updates of some writers, in order. */
  function GroupOps(ws: seq<Writer>): seq<Op> {
    if ws == [] then []
    else GroupOps(ws[..|ws| - 1]) + if ws[|ws| - 1].batch.Some? then ws[|ws| - 1].batch.value else []
  }

  // The bytes of their batches.
  function GroupSize(ws: seq<Writer>): nat {
    if ws == [] then 0
    else GroupSize(ws[..|ws| - 1]) + if ws[|ws| - 1].batch.Some? then ws[|ws| - 1].byteSize else 0
  }

  // A small write is not slowed down by a large group.
  function MaxGroupSize(first: Writer): nat {
    if first.byteSize <= 0x2_0000 then first.byteSize + 0x2_0000 else 0x10_0000
  }

  // Why a writer may not join the group in front of it.
  predicate MustWait(group: seq<Writer>, w: Writer)
    requires group != []
  {
    || (w.sync && !group[0].sync)
    || (w.batch.Some? && GroupSize(group + [w]) > MaxGroupSize(group[0]))
  }

  /** The first n writers are the group: each could join those before it, and the
      next one could not. */
  ghost predicate IsGroup(queue: seq<Writer>, n: nat) {
    && 1 <= n <= |queue|
    && (forall i :: 1 <= i < n ==> !MustWait(queue[..i], queue[i]))
    && (n < |queue| ==> MustWait(queue[..n], queue[n]))
  }

  /** A small leader's group grows by at most 128K, and any other stays within 1M unless
      the leader alone is larger; the next writer does not fit, or asked for a sync that the
      leader did not ask for. */
  lemma {:induction false} GroupLimits(queue: seq<Writer>, n: nat)
    requires IsGroup(queue, n) && queue[0].batch.Some?
    ensures
      var first, size := queue[0].byteSize, GroupSize(queue[..n]);
      if first <= 131072 then size <= first + 131072 else size <= 1048576 || size == first
    ensures n < |queue| ==>
      || (queue[n].sync && !queue[0].sync)
      || (queue[n].batch.Some?
          && GroupSize(queue[..n]) + queue[n].byteSize > if queue[0].byteSize <= 131072 then queue[0].byteSize + 131072 else 1048576)
    decreases n
  {
    if n < |queue| {
      assert (queue[..n] + [queue[n]])[..n] == queue[..n];
    }
    if n == 1 {
      assert queue[..1][..0] == [];
    } else {
      SmallerGroup(queue, n);
      var w := queue[n - 1];
      assert queue[..n][..n - 1] == queue[..n - 1] && queue[..n - 1] + [w] == queue[..n];
      assert !MustWait(queue[..n - 1], w);
      GroupLimits(queue[..n - 1], n - 1);
      assert queue[..n - 1][..n - 1] == queue[..n - 1];
    }
  }

  // Without its last writer, a group is one of a shorter queue.
  lemma SmallerGroup(queue: seq<Writer>, n: nat)
    requires IsGroup(queue, n) && n > 1
    ensures IsGroup(queue[..n - 1], n - 1)
  {
    var shorter := queue[..n - 1];
    forall i | 1 <= i < |shorter|
      ensures !MustWait(shorter[..i], shorter[i])
    {
      assert shorter[..i] == queue[..i];
    }
  }

  method BuildBatchGroup(queue: seq<Writer>) returns (n: nat, ops: seq<Op>)
    requires queue != [] && queue[0].batch.Some?
    ensures IsGroup(queue, n) && ops == GroupOps(queue[..n])
    ensures
      var first, size := queue[0].byteSize, GroupSize(queue[..n]);
      if first <= 131072 then size <= first + 131072 else size <= 1048576 || size == first
  {
    var first := queue[0];
    ops := first.batch.value;
    var size := first.byteSize;
    var maxSize := 0x10_0000;
    if size <= 0x2_0000 {
      maxSize := size + 0x2_0000;
    }
    assert queue[..1][..0] == [];
    n := 1;
    while n < |queue|
      invariant 1 <= n <= |queue|
      invariant forall i :: 1 <= i < n ==> !MustWait(queue[..i], queue[i])
      invariant ops == GroupOps(queue[..n]) && size == GroupSize(queue[..n]) && maxSize == MaxGroupSize(first)
    {
      var w := queue[n];
      assert queue[..n + 1] == queue[..n] + [w] && queue[..n + 1][..n] == queue[..n];
      if w.sync && !first.sync {
        break;
      }
      if w.batch.Some? {
        size := size + w.byteSize;
        if size > maxSize {
          break;
        }
        ops := ops + w.batch.value;
      }
      n := n + 1;
    }
    GroupLimits(queue, n);
  }

  /** Nobody who asked for a sync is served by a leader who did not. */
  lemma GroupSyncs(queue: seq<Writer>, n: nat, i: nat)
    requires IsGroup(queue, n) && i < n && queue[i].sync
    ensures queue[0].sync
  {
    if i > 0 {
      assert !MustWait(queue[..i], queue[i]);
    }
  }

  /* ---- the protocol ---- */

  /** A log record, and whether the log was synced right behind it. */
  datatype Logged = Logged(record: Record, synced: bool)

  /** Between leaders, or a leader writing for its group with the lock released. */
  datatype Phase = Free | Writing(size: nat, record: Record, logged: bool, applied: nat)

  /** All writers in order of arrival, of which the first finished ones are done
      and the others queue; the log; the memtable; the published sequence number;
      and for each finished writer the log record that serves it. */
  datatype State = State(
    arrived: seq<Writer>, finished: nat, phase: Phase, log: seq<Logged>, mem: set<Entry>, lastSequence: nat,
    servedBy: seq<Option<nat>>)

  predicate Init(s: State) {
    s == State([], 0, Free, [], {}, 0, [])
  }

  function Queue(s: State): seq<Writer>
    requires s.finished <= |s.arrived|
  {
    s.arrived[s.finished..]
  }

  function Nth(r: Record, i: nat): Entry
    requires i < |r.ops|
  {
    Entry(IKey(r.ops[i].key, r.first + i, r.ops[i].kind), r.ops[i].value)
  }

  predicate Arrive(s: State, w: Writer, s': State) {
    s' == s.(arrived := s.arrived + [w])
  }

  // A front writer without a batch is done once there is room.
  predicate LeadNothing(s: State, s': State) {
    && s.phase == Free && s.finished < |s.arrived| && Queue(s)[0].batch.None?
    && s' == s.(finished := s.finished + 1, servedBy := s.servedBy + [None])
  }

  ghost predicate Lead(s: State, n: nat, s': State) {
    && s.phase == Free && s.finished < |s.arrived| && Queue(s)[0].batch.Some? && IsGroup(Queue(s), n)
    && s' == s.(phase := Writing(n, Record(s.lastSequence + 1, GroupOps(Queue(s)[..n])), false, 0))
  }

  predicate AppendLog(s: State, s': State) {
    && s.phase.Writing? && !s.phase.logged && s.finished < |s.arrived|
    && s' == s.(phase := s.phase.(logged := true), log := s.log + [Logged(s.phase.record, Queue(s)[0].sync)])
  }

  predicate ApplyNext(s: State, s': State) {
    && s.phase.Writing? && s.phase.logged && s.phase.applied < |s.phase.record.ops|
    && s' == s.(phase := s.phase.(applied := s.phase.applied + 1), mem := s.mem + {Nth(s.phase.record, s.phase.applied)})
  }

  // Publish the sequence numbers and take the group off the queue.
  predicate Publish(s: State, s': State) {
    && s.phase.Writing? && s.phase.logged && s.phase.applied == |s.phase.record.ops| && |s.log| > 0
    && s' == s.(phase := Free, lastSequence := s.lastSequence + |s.phase.record.ops|,
                finished := s.finished + s.phase.size,
                servedBy := s.servedBy + seq(s.phase.size, _ => Some(|s.log| - 1)))
  }

  datatype Step = Arriving(w: Writer) | LeadingNothing | Leading(n: nat) | Logging | Applying | Publishing

  ghost predicate Next(s: State, step: Step, s': State) {
    match step
    case Arriving(w) => Arrive(s, w, s')
    case LeadingNothing => LeadNothing(s, s')
    case Leading(n) => Lead(s, n, s')
    case Logging => AppendLog(s, s')
    case Applying => ApplyNext(s, s')
    case Publishing => Publish(s, s')
  }

  /* ---- the invariant ---- */

  function RecordsOf(log: seq<Logged>): seq<Record> {
    seq(|log|, i requires 0 <= i < |log| => log[i].record)
  }

  /** Each record takes up the numbering where the one before it ends. */
  ghost predicate Contiguous(log: seq<Logged>) {
    forall i :: 0 <= i < |log| ==> log[i].record.first == 1 + |OpsOf(RecordsOf(log)[..i])|
  }

  function Done(s: State): seq<Op>
    requires s.finished <= |s.arrived|
  {
    GroupOps(s.arrived[..s.finished])
  }

  // The updates logged, and those applied, of the group being written.
  function InLog(s: State): seq<Op> {
    if s.phase.Writing? && s.phase.logged then s.phase.record.ops else []
  }

  function InMem(s: State): seq<Op>
    requires s.phase.Writing? ==> s.phase.applied <= |s.phase.record.ops|
  {
    if s.phase.Writing? then s.phase.record.ops[..s.phase.applied] else []
  }

  ghost predicate PhaseOk(s: State)
    requires s.finished <= |s.arrived|
  {
    s.phase.Writing? ==>
      var p := s.phase;
      && s.finished + p.size <= |s.arrived| && 1 <= p.size
      && p.record == Record(s.lastSequence + 1, GroupOps(Queue(s)[..p.size]))
      && (forall i :: 0 <= i < p.size && Queue(s)[i].sync ==> Queue(s)[0].sync)
      && p.applied <= |p.record.ops| && (!p.logged ==> p.applied == 0)
      && (p.logged ==> s.log != [] && s.log[|s.log| - 1] == Logged(p.record, Queue(s)[0].sync))
  }

  // The number of updates of the first n writers, and of the first r records.
  function Before(ws: seq<Writer>, n: nat): nat
    requires n <= |ws|
  {
    |GroupOps(ws[..n])|
  }

  function LoggedBefore(log: seq<Logged>, r: nat): nat
    requires r <= |log|
  {
    |OpsOf(RecordsOf(log)[..r])|
  }

  /** Record r is synced if writer i asked for that, and the updates of writer i, by
      their place among all updates, lie within it. */
  ghost predicate ServedBy(arrived: seq<Writer>, log: seq<Logged>, i: nat, r: nat)
    requires i < |arrived|
  {
    && r < |log| && (arrived[i].sync ==> log[r].synced)
    && LoggedBefore(log, r) <= Before(arrived, i) && Before(arrived, i + 1) <= LoggedBefore(log, r + 1)
  }

  /** Every finished writer with a batch has its log record. */
  ghost predicate Served(s: State) {
    && |s.servedBy| == s.finished <= |s.arrived|
    && forall i :: 0 <= i < s.finished && s.arrived[i].batch.Some? ==>
      s.servedBy[i].Some? && ServedBy(s.arrived, s.log, i, s.servedBy[i].value)
  }

  lemma ServedByGrows(arrived: seq<Writer>, log: seq<Logged>, i: nat, r: nat, arrived': seq<Writer>, log': seq<Logged>)
    requires i < |arrived| && ServedBy(arrived, log, i, r) && arrived <= arrived' && log <= log'
    ensures ServedBy(arrived', log', i, r)
  {
    assert arrived'[..i] == arrived[..i] && arrived'[..i + 1] == arrived[..i + 1];
    assert RecordsOf(log')[..r] == RecordsOf(log)[..r] && RecordsOf(log')[..r + 1] == RecordsOf(log)[..r + 1];
  }

  lemma ServedGrows(s: State, s': State)
    requires Served(s) && s.arrived <= s'.arrived && s.log <= s'.log
    requires s'.finished == s.finished && s'.servedBy == s.servedBy
    ensures Served(s')
  {
    hide ServedBy;
    forall i | 0 <= i < s'.finished && s'.arrived[i].batch.Some?
      ensures s'.servedBy[i].Some? && ServedBy(s'.arrived, s'.log, i, s'.servedBy[i].value)
    {
      ServedByGrows(s.arrived, s.log, i, s.servedBy[i].value, s'.arrived, s'.log);
    }
  }

  lemma BeforeMonotone(ws: seq<Writer>, a: nat, b: nat)
    requires a <= b <= |ws|
    ensures Before(ws, a) <= Before(ws, b)
  {
    assert ws[..b] == ws[..a] + ws[a..b];
    GroupOpsConcat(ws[..a], ws[a..b]);
  }

  ghost predicate Inv(s: State) {
    && s.finished <= |s.arrived| && PhaseOk(s) && Served(s)
    && s.lastSequence == |Done(s)|
    && OpsOf(RecordsOf(s.log)) == Done(s) + InLog(s) && Contiguous(s.log)
    && s.mem == Numbered(Done(s) + InMem(s), 1)
  }

  lemma {:induction false} GroupOpsConcat(a: seq<Writer>, b: seq<Writer>)
    ensures GroupOps(a + b) == GroupOps(a) + GroupOps(b)
    decreases |b|
  {
    if b == [] {
      assert a + b == a;
    } else {
      assert (a + b)[..|a + b| - 1] == a + b[..|b| - 1];
      GroupOpsConcat(a, b[..|b| - 1]);
    }
  }

  lemma KeepsArriving(s: State, w: Writer, s': State)
    requires Inv(s) && Arrive(s, w, s')
    ensures Inv(s')
  {
    hide Served;
    hide GroupOps;
    hide Contiguous;
    hide Numbered;
    hide OpsOf;
    InvServed(s);
    ServedGrows(s, s');
    assert s'.arrived[..s.finished] == s.arrived[..s.finished];
    if s.phase.Writing? {
      assert Queue(s')[..s.phase.size] == Queue(s)[..s.phase.size];
      assert forall i :: 0 <= i < s.phase.size ==> Queue(s')[i] == Queue(s)[i];
    }
  }

  lemma InvServed(s: State)
    requires Inv(s)
    ensures Served(s)
  {
  }

  lemma KeepsLeadingNothing(s: State, s': State)
    requires Inv(s) && LeadNothing(s, s')
    ensures Inv(s')
  {
    hide Contiguous;
    hide Numbered;
    hide OpsOf;
    hide GroupOps;
    hide ServedBy;
    NothingDone(s);
    assert InMem(s') == [] && InLog(s') == [];
  }

  lemma NothingDone(s: State)
    requires s.finished < |s.arrived| && Queue(s)[0].batch.None?
    ensures GroupOps(s.arrived[..s.finished + 1]) == GroupOps(s.arrived[..s.finished])
  {
    var n := s.finished;
    assert s.arrived[..n + 1][..n] == s.arrived[..n] && s.arrived[..n + 1][n] == Queue(s)[0];
  }

  lemma KeepsLeading(s: State, n: nat, s': State)
    requires Inv(s) && Lead(s, n, s')
    ensures Inv(s')
  {
    hide Served;
    hide GroupOps;
    hide Contiguous;
    hide Numbered;
    hide OpsOf;
    InvServed(s);
    ServedGrows(s, s');
    hide IsGroup;
    GroupShape(Queue(s), n);
    assert s'.phase.record.ops[..0] == [];
  }

  lemma GroupShape(queue: seq<Writer>, n: nat)
    requires IsGroup(queue, n)
    ensures 1 <= n <= |queue| && forall i :: 0 <= i < n && queue[i].sync ==> queue[0].sync
  {
    forall i | 0 <= i < n && queue[i].sync
      ensures queue[0].sync
    {
      GroupSyncs(queue, n, i);
    }
  }

  lemma RecordsAppend(log: seq<Logged>, l: Logged)
    requires Contiguous(log) && l.record.first == 1 + |OpsOf(RecordsOf(log))|
    ensures OpsOf(RecordsOf(log + [l])) == OpsOf(RecordsOf(log)) + l.record.ops
    ensures Contiguous(log + [l])
  {
    hide OpsOf;
    var rs := RecordsOf(log + [l]);
    assert rs == RecordsOf(log) + [l.record];
    assert rs[..|log|] == RecordsOf(log);
    OpsOfAppend(RecordsOf(log), l.record);
    forall i | 0 <= i < |log + [l]|
      ensures (log + [l])[i].record.first == 1 + |OpsOf(rs[..i])|
    {
      if i < |log| {
        assert rs[..i] == RecordsOf(log)[..i];
      }
    }
  }

  lemma OpsOfAppend(rs: seq<Record>, r: Record)
    ensures OpsOf(rs + [r]) == OpsOf(rs) + r.ops
  {
    assert (rs + [r])[..|rs|] == rs;
  }

  lemma KeepsLogging(s: State, s': State)
    requires Inv(s) && AppendLog(s, s')
    ensures Inv(s')
  {
    hide Served;
    hide GroupOps;
    hide Contiguous;
    hide Numbered;
    hide OpsOf;
    InvServed(s);
    ServedGrows(s, s');
    assert Done(s) + [] == Done(s);
    RecordsAppend(s.log, Logged(s.phase.record, Queue(s)[0].sync));
  }

  lemma NumberedAppend(done: seq<Op>, r: Record, i: nat)
    requires i < |r.ops| && r.first == |done| + 1
    ensures Numbered(done + r.ops[..i + 1], 1) == Numbered(done + r.ops[..i], 1) + {Nth(r, i)}
  {
    hide Numbered;
    var all, n := done + r.ops, |done| + i;
    NumberedStep({}, all, n, 1);
    assert all[..n + 1] == done + r.ops[..i + 1] && all[..n] == done + r.ops[..i];
    assert {} + Numbered(all[..n + 1], 1) == Numbered(all[..n + 1], 1);
    assert {} + Numbered(all[..n], 1) == Numbered(all[..n], 1);
    assert Entry(IKey(all[n].key, 1 + n, all[n].kind), all[n].value) == Nth(r, i);
  }

  lemma KeepsApplying(s: State, s': State)
    requires Inv(s) && ApplyNext(s, s')
    ensures Inv(s')
  {
    hide Served;
    hide GroupOps;
    hide Contiguous;
    hide Numbered;
    hide OpsOf;
    InvServed(s);
    ServedGrows(s, s');
    NumberedAppend(Done(s), s.phase.record, s.phase.applied);
  }

  lemma KeepsPublishing(s: State, s': State)
    requires Inv(s) && Publish(s, s')
    ensures Inv(s')
  {
    hide GroupOps;
    hide Contiguous;
    hide Numbered;
    hide OpsOf;
    var n, p := s.finished, s.phase;
    assert s.arrived[..n + p.size] == s.arrived[..n] + Queue(s)[..p.size];
    GroupOpsConcat(s.arrived[..n], Queue(s)[..p.size]);
    assert p.record.ops[..p.applied] == p.record.ops;
    assert Done(s') + [] == Done(s');
    PublishedServed(s, s');
  }

  // The writers of the group are served by the last record.
  lemma PublishedServed(s: State, s': State)
    requires Inv(s) && Publish(s, s')
    ensures Served(s')
  {
    hide GroupOps;
    hide Contiguous;
    hide Numbered;
    hide OpsOf;
    hide ServedBy;
    var n, r := s.finished, |s.log| - 1;
    LastRecord(s);
    forall i | 0 <= i < s'.finished && s'.arrived[i].batch.Some?
      ensures s'.servedBy[i].Some? && ServedBy(s'.arrived, s'.log, i, s'.servedBy[i].value)
    {
      if i < n {
        assert s'.servedBy[i] == s.servedBy[i];
      } else {
        assert s.arrived[i] == Queue(s)[i - n];
        BeforeMonotone(s.arrived, n, i);
        BeforeMonotone(s.arrived, i + 1, n + s.phase.size);
        ServedByLast(s.arrived, s.log, i);
      }
    }
  }

  lemma ServedByLast(arrived: seq<Writer>, log: seq<Logged>, i: nat)
    requires i < |arrived| && log != [] && (arrived[i].sync ==> log[|log| - 1].synced)
    requires LoggedBefore(log, |log| - 1) <= Before(arrived, i) && Before(arrived, i + 1) <= LoggedBefore(log, |log|)
    ensures ServedBy(arrived, log, i, |log| - 1)
  {
  }

  // The record being published begins behind the finished writers and ends with
  // the group.
  lemma LastRecord(s: State)
    requires Inv(s) && s.phase.Writing? && s.phase.logged
    ensures LoggedBefore(s.log, |s.log| - 1) == Before(s.arrived, s.finished)
    ensures LoggedBefore(s.log, |s.log|) == Before(s.arrived, s.finished + s.phase.size)
  {
    hide GroupOps;
    hide Contiguous;
    hide Numbered;
    hide ServedBy;
    var n, p, rs := s.finished, s.phase, RecordsOf(s.log);
    assert rs[..|rs|] == rs;
    assert s.arrived[..n + p.size] == s.arrived[..n] + Queue(s)[..p.size];
    GroupOpsConcat(s.arrived[..n], Queue(s)[..p.size]);
  }

  lemma NextKeepsInv(s: State, step: Step, s': State)
    requires Inv(s) && Next(s, step, s')
    ensures Inv(s')
  {
    hide Inv;
    match step
    case Arriving(w) => KeepsArriving(s, w, s');
    case LeadingNothing => KeepsLeadingNothing(s, s');
    case Leading(n) => KeepsLeading(s, n, s');
    case Logging => KeepsLogging(s, s');
    case Applying => KeepsApplying(s, s');
    case Publishing => KeepsPublishing(s, s');
  }

  ghost predicate Run(states: seq<State>, steps: seq<Step>) {
    && |states| == |steps| + 1 && Init(states[0])
    && forall i :: 0 <= i < |steps| ==> Next(states[i], steps[i], states[i + 1])
  }

  lemma {:induction false} RunKeepsInv(states: seq<State>, steps: seq<Step>, i: nat)
    requires Run(states, steps) && i < |states|
    ensures Inv(states[i])
    decreases i
  {
    if i == 0 {
      assert Done(states[0]) == [] && RecordsOf(states[0].log) == [];
    } else {
      RunKeepsInv(states, steps, i - 1);
      NextKeepsInv(states[i - 1], steps[i - 1], states[i]);
    }
  }

  /* ---- what it means ---- */

  lemma {:induction false} OpsOfPrefix(rs: seq<Record>, k: nat)
    requires k <= |rs|
    ensures OpsOf(rs[..k]) <= OpsOf(rs)
  {
    if k < |rs| {
      OpsOfPrefix(rs[..|rs| - 1], k);
      assert rs[..|rs| - 1][..k] == rs[..k];
    } else {
      assert rs[..k] == rs;
    }
  }

  /** The record that serves writer j holds the updates of writer j. */
  ghost predicate HoldsBatch(s: State, j: nat)
    requires j < s.finished <= |s.arrived| && |s.servedBy| == s.finished
  {
    s.arrived[j].batch.Some? ==>
      && s.servedBy[j].Some? && s.servedBy[j].value < |s.log|
      && (s.arrived[j].sync ==> s.log[s.servedBy[j].value].synced)
      && var r, batch := s.servedBy[j].value, s.arrived[j].batch.value;
      var ops, at := s.log[r].record.ops, Before(s.arrived, j) - LoggedBefore(s.log, r);
      0 <= at && at + |batch| <= |ops| && ops[at..at + |batch|] == batch
  }

  // Where batches and records lie among all updates.
  lemma BatchPlace(s: State, j: nat)
    requires Inv(s) && j < s.finished && s.arrived[j].batch.Some?
    ensures
      var all, batch := OpsOf(RecordsOf(s.log)), s.arrived[j].batch.value;
      && Before(s.arrived, j + 1) == Before(s.arrived, j) + |batch| <= |all|
      && all[Before(s.arrived, j)..Before(s.arrived, j + 1)] == batch
  {
    hide OpsOf;
    hide Contiguous;
    hide Numbered;
    var ws := s.arrived[..s.finished];
    assert ws == s.arrived[..j + 1] + s.arrived[j + 1..s.finished];
    GroupOpsConcat(s.arrived[..j + 1], s.arrived[j + 1..s.finished]);
    assert s.arrived[..j + 1][..j] == s.arrived[..j];
  }

  lemma RecordPlace(log: seq<Logged>, r: nat)
    requires r < |log|
    ensures
      var all := OpsOf(RecordsOf(log));
      && LoggedBefore(log, r + 1) == LoggedBefore(log, r) + |log[r].record.ops| <= |all|
      && all[LoggedBefore(log, r)..LoggedBefore(log, r + 1)] == log[r].record.ops
  {
    var rs := RecordsOf(log);
    OpsOfPrefix(rs, r + 1);
    assert rs[..r + 1][..r] == rs[..r];
  }

  lemma SliceWithin(all: seq<Op>, a: nat, b: nat, lo: nat, hi: nat)
    requires lo <= a <= b <= hi <= |all|
    ensures all[lo..hi][a - lo..b - lo] == all[a..b]
  {
    var inner, outer := all[lo..hi][a - lo..b - lo], all[a..b];
    assert |inner| == |outer| && forall k :: 0 <= k < |inner| ==> inner[k] == outer[k];
  }

  lemma ServedHoldsBatch(s: State, j: nat)
    requires Inv(s) && j < s.finished
    ensures |s.servedBy| == s.finished <= |s.arrived| && HoldsBatch(s, j)
  {
    hide Contiguous;
    hide Numbered;
    hide OpsOf;
    hide GroupOps;
    hide Before;
    hide LoggedBefore;
    if s.arrived[j].batch.Some? {
      var r := s.servedBy[j].value;
      assert ServedBy(s.arrived, s.log, j, r);
      BatchPlace(s, j);
      RecordPlace(s.log, r);
      SliceWithin(OpsOf(RecordsOf(s.log)), Before(s.arrived, j), Before(s.arrived, j + 1),
                  LoggedBefore(s.log, r), LoggedBefore(s.log, r + 1));
    }
  }

  /** In every interleaving, the log holds the updates of the finished writers,
      each exactly once and in queue order, followed at most by those of the one
      group being written; the records are numbered contiguously from one; and
      every finished batch is in its record, which was synced before the writer
      was told that the write is done if the writer asked for that. */
  lemma WritesAreLoggedInOrder(states: seq<State>, steps: seq<Step>, i: nat)
    requires Run(states, steps) && i < |states|
    ensures
      var s := states[i];
      && Inv(s)
      && OpsOf(RecordsOf(s.log)) == Done(s) + InLog(s)
      && Contiguous(s.log) && s.lastSequence == |Done(s)|
      && |s.servedBy| == s.finished && forall j :: 0 <= j < s.finished ==> HoldsBatch(s, j)
  {
    hide HoldsBatch;
    RunKeepsInv(states, steps, i);
    forall j | 0 <= j < states[i].finished
      ensures HoldsBatch(states[i], j)
    {
      ServedHoldsBatch(states[i], j);
    }
  }

  lemma {:induction false} NumberedFacts(ops: seq<Op>)
    ensures UniqueSeqnos(Numbered(ops, 1)) && SeqnosWithin(Numbered(ops, 1), |ops|)
  {
    BatchLookup({}, ops, 0, 0, 0);
    assert {} + Numbered(ops, 1) == Numbered(ops, 1);
  }

  lemma {:induction false} NumberedConcat(a: seq<Op>, b: seq<Op>, first: nat)
    ensures Numbered(a + b, first) == Numbered(a, first) + Numbered(b, first + |a|)
    decreases |b|
  {
    if b == [] {
      assert a + b == a;
    } else {
      assert (a + b)[..|a + b| - 1] == a + b[..|b| - 1];
      NumberedConcat(a, b[..|b| - 1], first);
    }
  }

  // Reading at the sequence number of the first updates sees exactly those.
  lemma PrefixRead(a: seq<Op>, b: seq<Op>, k: Key)
    ensures Lookup(Numbered(a + b, 1), k, |a|) == After(a, k, None)
  {
    hide Lookup;
    hide Numbered;
    hide After;
    NumberedConcat(a, b, 1);
    NumberedFacts(a);
    BatchLookup(Numbered(a, 1), b, |a|, k, |a|);
    BatchLookup({}, a, 0, k, 0);
    assert {} + Numbered(a, 1) == Numbered(a, 1);
    LookupNone({}, k, 0);
  }

  /** A reader sees each batch entirely or not at all: at any moment, also while a
      group is half applied, the published sequence number shows exactly the
      batches of the finished writers, applied in queue order. */
  lemma ReadersSeeWholeBatches(states: seq<State>, steps: seq<Step>, i: nat, k: Key)
    requires Run(states, steps) && i < |states|
    ensures states[i].finished <= |states[i].arrived|
    ensures Lookup(states[i].mem, k, states[i].lastSequence) == After(Done(states[i]), k, None)
  {
    RunKeepsInv(states, steps, i);
    PrefixRead(Done(states[i]), InMem(states[i]), k);
  }

  lemma FinishedGrows(s: State, step: Step, s': State)
    requires Inv(s) && Next(s, step, s')
    ensures s.finished <= s'.finished && s.arrived <= s'.arrived
  {
  }

  lemma FinishedArrived(s: State)
    requires Inv(s)
    ensures s.finished <= |s.arrived|
  {
  }

  lemma {:induction false} DoneGrows(states: seq<State>, steps: seq<Step>, i: nat, j: nat)
    requires Run(states, steps) && i <= j < |states|
    ensures states[i].finished <= states[j].finished <= |states[j].arrived|
    ensures states[i].arrived <= states[j].arrived
    decreases j
  {
    hide Inv;
    hide Next;
    hide Init;
    RunKeepsInv(states, steps, j);
    FinishedArrived(states[j]);
    if i < j {
      DoneGrows(states, steps, i, j - 1);
      RunKeepsInv(states, steps, j - 1);
      FinishedGrows(states[j - 1], steps[j - 1], states[j]);
    }
  }

  // A later state has applied more behind what was done.
  lemma LaterMem(s: State, t: State) returns (more: seq<Op>)
    requires Inv(s) && Inv(t) && s.finished <= t.finished && s.arrived <= t.arrived
    ensures t.mem == Numbered(Done(s) + more, 1)
  {
    hide GroupOps;
    hide Numbered;
    hide Contiguous;
    hide OpsOf;
    hide Inv;
    MemAndSequence(s);
    MemAndSequence(t);
    var between := t.arrived[s.finished..t.finished];
    assert t.arrived[..t.finished] == s.arrived[..s.finished] + between;
    GroupOpsConcat(s.arrived[..s.finished], between);
    more := GroupOps(between) + InMem(t);
    assert Done(t) + InMem(t) == Done(s) + more;
  }

  lemma MemAndSequence(s: State)
    requires Inv(s)
    ensures s.finished <= |s.arrived| && s.lastSequence == |Done(s)|
    ensures s.phase.Writing? ==> s.phase.applied <= |s.phase.record.ops|
    ensures s.mem == Numbered(Done(s) + InMem(s), 1)
  {
  }

  /** A snapshot taken at one moment reads the same ever after. */
  lemma SnapshotsAreStable(states: seq<State>, steps: seq<Step>, i: nat, j: nat, k: Key)
    requires Run(states, steps) && i <= j < |states|
    ensures Lookup(states[j].mem, k, states[i].lastSequence) == Lookup(states[i].mem, k, states[i].lastSequence)
  {
    hide Lookup;
    hide Numbered;
    hide After;
    hide GroupOps;
    hide Next;
    hide Init;
    hide Inv;
    RunKeepsInv(states, steps, i);
    RunKeepsInv(states, steps, j);
    DoneGrows(states, steps, i, j);
    var s, t := states[i], states[j];
    MemAndSequence(s);
    var more := LaterMem(s, t);
    PrefixRead(Done(s), more, k);
    PrefixRead(Done(s), InMem(s), k);
  }
}
