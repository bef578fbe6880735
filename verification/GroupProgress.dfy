/** Queued writers never get stuck: from every reachable state there are steps that finish
    all of them (Write in contrib/leveldb/db/db_impl.cc). */
module GroupProgress {
  import opened Options
  import opened MemTables
  import opened LogReplay
  import opened GroupCommit

  /** Steps from one state to another during which nobody arrives. */
  ghost predicate Path(states: seq<State>, steps: seq<Step>) {
    && |states| == |steps| + 1
    && forall i :: 0 <= i < |steps| ==> Next(states[i], steps[i], states[i + 1]) && !steps[i].Arriving?
  }

  function Last(states: seq<State>): State
    requires states != []
  {
    states[|states| - 1]
  }

  lemma Prepend(s: State, step: Step, states: seq<State>, steps: seq<Step>)
    requires Path(states, steps) && Next(s, step, states[0]) && !step.Arriving?
    ensures Path([s] + states, [step] + steps) && Last([s] + states) == Last(states)
  {
    hide Next;
    var all, does := [s] + states, [step] + steps;
    forall i | 0 <= i < |does|
      ensures Next(all[i], does[i], all[i + 1]) && !does[i].Arriving?
    {
      if i > 0 {
        assert all[i] == states[i - 1] && does[i] == steps[i - 1] && all[i + 1] == states[i];
      }
    }
  }

  /** Every queue has a group that the front writer can lead. */
  lemma GroupExists(queue: seq<Writer>, n: nat) returns (m: nat)
    requires 1 <= n <= |queue| && forall i :: 1 <= i < n ==> !MustWait(queue[..i], queue[i])
    ensures IsGroup(queue, m)
    decreases |queue| - n
  {
    if n == |queue| || MustWait(queue[..n], queue[n]) {
      m := n;
    } else {
      m := GroupExists(queue, n + 1);
    }
  }

  // What is left to do: writers, and the work of the group being written.
  function ToDo(s: State): (nat, nat, nat) {
    (if s.finished <= |s.arrived| then |s.arrived| - s.finished else 0,
     if s.phase == Free then 2 else if s.phase.logged then 0 else 1,
     if s.phase.Writing? && s.phase.applied <= |s.phase.record.ops| then |s.phase.record.ops| - s.phase.applied else 0)
  }

  predicate LessToDo(a: (nat, nat, nat), b: (nat, nat, nat)) {
    a.0 < b.0 || (a.0 == b.0 && (a.1 < b.1 || (a.1 == b.1 && a.2 < b.2)))
  }

  /** As long as writers queue or a group is being written, the work goes on. */
  lemma WorkGoesOn(s: State) returns (step: Step, s': State)
    requires Inv(s) && (s.phase.Writing? || s.finished < |s.arrived|)
    ensures Next(s, step, s') && !step.Arriving? && s'.arrived == s.arrived && LessToDo(ToDo(s'), ToDo(s))
  {
    hide Served;
    hide GroupOps;
    hide Contiguous;
    hide Numbered;
    hide OpsOf;
    if s.phase == Free {
      if Queue(s)[0].batch.None? {
        step, s' := LeadingNothing, s.(finished := s.finished + 1, servedBy := s.servedBy + [None]);
      } else {
        var n := GroupExists(Queue(s), 1);
        step := Leading(n);
        s' := s.(phase := Writing(n, Record(s.lastSequence + 1, GroupOps(Queue(s)[..n])), false, 0));
      }
    } else if !s.phase.logged {
      step := Logging;
      s' := s.(phase := s.phase.(logged := true), log := s.log + [Logged(s.phase.record, Queue(s)[0].sync)]);
    } else if s.phase.applied < |s.phase.record.ops| {
      step := Applying;
      s' := s.(phase := s.phase.(applied := s.phase.applied + 1), mem := s.mem + {Nth(s.phase.record, s.phase.applied)});
    } else {
      step := Publishing;
      s' := s.(phase := Free, lastSequence := s.lastSequence + |s.phase.record.ops|,
               finished := s.finished + s.phase.size,
               servedBy := s.servedBy + seq(s.phase.size, _ => Some(|s.log| - 1)));
    }
  }

  /** All writers that have arrived can be finished. */
  lemma {:induction false} AllCanFinish(s: State) returns (states: seq<State>, steps: seq<Step>)
    requires Inv(s)
    ensures Path(states, steps) && states[0] == s && Last(states).arrived == s.arrived
    ensures Last(states).phase == Free && Last(states).finished == |s.arrived|
    decreases ToDo(s).0, ToDo(s).1, ToDo(s).2
  {
    hide Inv;
    hide Next;
    hide ToDo;
    FinishedHaveArrived(s);
    if s.phase == Free && s.finished == |s.arrived| {
      states, steps := [s], [];
    } else {
      var step, s' := WorkGoesOn(s);
      NextKeepsInv(s, step, s');
      states, steps := AllCanFinish(s');
      Prepend(s, step, states, steps);
      states, steps := [s] + states, [step] + steps;
    }
  }

  lemma FinishedHaveArrived(s: State)
    requires Inv(s)
    ensures s.finished <= |s.arrived|
  {
  }

  /** From every state of every run. */
  lemma NobodyIsStuck(states: seq<State>, steps: seq<Step>) returns (more: seq<State>, does: seq<Step>)
    requires Run(states, steps)
    ensures Path(more, does) && more[0] == Last(states) && Last(more).arrived == Last(states).arrived
    ensures Last(more).phase == Free && Last(more).finished == |Last(states).arrived|
  {
    hide Next;
    hide Inv;
    RunKeepsInv(states, steps, |states| - 1);
    more, does := AllCanFinish(Last(states));
  }
}
