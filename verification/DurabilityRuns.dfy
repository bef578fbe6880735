/** No acknowledged write is lost, over all runs. */
module DurabilityRuns {
  import opened Options
  import opened DbFormat
  import opened MemTables
  import opened LogReplay
  import opened Durability
  import opened DurabilityInvariant
  import opened DurabilitySteps
  import opened DurabilityRecovery

  /** Every step keeps the invariant. */
  lemma NextKeepsInv(s: State, step: Step, s': State)
    requires Inv(s) && Next(s, step, s')
    ensures Inv(s')
  {
    hide Inv;
    match step
    case Logging(ops) => KeepsLogging(s, ops, s');
    case Applying => KeepsApplying(s, s');
    case Switching => KeepsSwitching(s, s');
    case Flushing(level, f, w) => KeepsFlushing(s, level, f, w, s');
    case FlushingNothing => KeepsEmptyFlushing(s, s');
    case Compacting(job, ss) => KeepsCompacting(s, job, ss, s');
    case Moving(job, f) => KeepsMoving(s, job, f, s');
    case Committing =>
      if s.memory.install.value.flush {
        KeepsFlushCommit(s, s');
      } else {
        KeepsReplaceCommit(s, s');
      }
    case DeletingLog(n) => KeepsDeletingLog(s, n, s');
    case DeletingTable(n) => KeepsDeletingTable(s, n, s');
    case Crashing(survives) => KeepsCrashing(s, survives, s');
    case Recovery(logs) => KeepsStartRecovery(s, logs, s');
    case ReadingLog => KeepsOpenLog(s, s');
    case Replaying => KeepsReplaying(s, s');
    case RecoveryFlushing(f, w) => KeepsRecoveryFlush(s, f, w, s');
    case RecoveryFlushingNothing => KeepsRecoveryEmptyFlush(s, s');
    case LogDone => KeepsFinishLog(s, s');
    case CreatingLog => KeepsNewLog(s, s');
    case Finishing => KeepsFinishOpen(s, s');
  }

  /** A run: states from a new database on, and the steps between them. */
  ghost predicate Run(states: seq<State>, steps: seq<Step>) {
    && |states| == |steps| + 1 && Init(states[0])
    && forall i :: 0 <= i < |steps| ==> Next(states[i], steps[i], states[i + 1])
  }

  lemma {:induction false} RunKeepsInv(states: seq<State>, steps: seq<Step>, i: nat)
    requires Run(states, steps) && i < |states|
    ensures Inv(states[i])
    decreases i
  {
    hide Inv;
    hide Next;
    hide Init;
    if i == 0 {
      InitHolds(states[0]);
    } else {
      RunKeepsInv(states, steps, i - 1);
      NextKeepsInv(states[i - 1], steps[i - 1], states[i]);
    }
  }

  lemma AckedGrows(s: State, step: Step, s': State)
    requires Next(s, step, s')
    ensures s.acked <= s'.acked
  {
  }

  /** Nothing that was acknowledged is taken back. */
  lemma {:induction false} AckedIsKept(states: seq<State>, steps: seq<Step>, i: nat, j: nat)
    requires Run(states, steps) && i <= j < |states|
    ensures states[i].acked <= states[j].acked
    decreases j
  {
    hide Next;
    hide Init;
    if i < j {
      AckedIsKept(states, steps, i, j - 1);
      AckedGrows(states[j - 1], steps[j - 1], states[j]);
    }
  }

  /** At every moment of every run the files on disk alone give back exactly the
      acknowledged updates, in order, followed at most by the one batch that is
      logged but not acknowledged yet: the manifest's tables are all present, and
      replaying the logs from the manifest's log number on gives that content. */
  lemma DiskHoldsAcknowledged(states: seq<State>, steps: seq<Step>, i: nat, logs: seq<nat>, k: Key)
    requires Run(states, steps) && i < |states|
    requires IsLive(states[i].disk.logs, states[i].disk.manifest.logNumber, logs)
    ensures
      var d := states[i].disk;
      && TablesPresent(d.manifest.version, d.tables)
      && Reads(Durable(d, logs), k) == After(states[i].acked + OpsOf(PendingRecords(states[i].memory)), k, None)
  {
    hide Next;
    hide Init;
    RunKeepsInv(states, steps, i);
    LiveIsUnique(logs, states[i].live);
  }

  /** Whenever the database is open, a reader sees exactly the updates that were
      acknowledged, whatever crashes and recoveries came before. */
  lemma OpenSeesAcknowledged(states: seq<State>, steps: seq<Step>, i: nat, k: Key)
    requires Run(states, steps) && i < |states| && states[i].memory.Open?
    ensures Reads(Seen(states[i].disk, states[i].memory), k) == After(states[i].acked, k, None)
  {
    hide Next;
    hide Init;
    hide Chained;
    hide Logged;
    hide IsLive;
    hide OpsOf;
    hide Reads;
    hide After;
    RunKeepsInv(states, steps, i);
  }
}
