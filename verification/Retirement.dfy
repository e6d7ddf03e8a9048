/** What is lost when a context is retired: exactly the events committed after the publication that the
    last emptiness load observed, because the liveness flag is loaded only after it. */
module Retirement {
  import opened NodeList
  import opened Logger
  import Delivery
  import Registry
  import Spsc

  /** The last emptiness load accounts for everything that was read: up to the observed publication all
      events are processed, and nothing is published after a load that already saw the thread dead. */
  ghost predicate Accounted(th: Thread) {
    && th.load.observed <= th.load.published <= |th.q.committed|
    && th.q.consumed == th.q.committed[..th.load.observed]
    && (th.load.dead ==> th.load.published == |th.q.committed|)
  }

  ghost predicate Removing(s: State, t: Tid) {
    (s.pc.RemoveCas? || s.pc.Walk? || s.pc.Free?) && OnNode(s, t)
  }

  ghost predicate Retiring(s: State, t: Tid) {
    Removing(s, t) || (s.pc.Liveness? && OnNode(s, t))
  }

  ghost predicate Tracked(s: State, t: Tid)
    requires t in s.threads
  {
    var th := s.threads[t];
    && (th.load.dead ==> th.phase == Dead || th.phase == Retired)
    && (Retiring(s, t) || th.phase == Retired ==> Accounted(th))
    && (Removing(s, t) ==> th.phase == Dead)
    && (Removing(s, t) || th.phase == Retired ==> th.atLiveness == |th.q.committed|)
  }

  /** Thread t lives while the backend is on its node. */
  ghost predicate NotDeleted(s: State) {
    forall t :: OnNode(s, t) ==> s.threads[t].phase != Retired
  }

  lemma HeapGivesNotDeleted(s: State)
    requires Registry.HeapOk(s)
    ensures NotDeleted(s)
  {
    forall t | OnNode(s, t) ensures s.threads[t].phase != Retired {
      assert Registry.Owns(s, t, s.pc.node);
    }
  }

  lemma ReloadTracked(s: State, s': State, t: Tid, i: nat)
    requires PollReload(s, s', t, i) && Spsc.Inv(s.threads[t].q) && NotDeleted(s) && Tracked(s, t)
    ensures Tracked(s', t)
  {
    var q, q' := s.threads[t].q, s'.threads[t].q;
    Spsc.EmptyPollIsExact(q, q', i);
    Spsc.NothingBeyondPublication(q, i);
  }

  lemma ProducerTracked(s: State, s': State, step: Step, t: Tid)
    requires Does(s, s', step) && (step.SBegin? || step.SContinue?) && step.t == t
    requires t in s.threads && Tracked(s, t)
    ensures t in s'.threads && Tracked(s', t)
  {
    assert s.threads[t].q.committed <= s'.threads[t].q.committed;
  }

  ghost predicate LifeStep(step: Step) {
    step.SAllocate? || step.SPush? || step.SPushFails? || step.SKill?
  }

  ghost predicate ReadStep(step: Step) {
    step.SCheck? || step.SCopy? || step.SEmit? || step.SCommit?
  }

  lemma LifeStepTracked(s: State, s': State, step: Step, t: Tid)
    requires Does(s, s', step) && LifeStep(step) && NotDeleted(s)
    requires t in s.threads && Tracked(s, t)
    ensures t in s'.threads && Tracked(s', t)
  {
  }

  /** While a read goes on nothing is being retired, and the read does not touch what is recorded. */
  lemma ReadStepTracked(s: State, s': State, step: Step, t: Tid)
    requires Does(s, s', step) && ReadStep(step) && NotDeleted(s)
    requires t in s.threads && Tracked(s, t)
    ensures t in s'.threads && Tracked(s', t)
  {
    ReadStepQuiet(s, s', step, t);
  }

  lemma ReadStepQuiet(s: State, s': State, step: Step, t: Tid)
    requires Does(s, s', step) && ReadStep(step) && NotDeleted(s) && t in s.threads
    ensures t in s'.threads && !Retiring(s', t)
    ensures s'.threads[t].load == s.threads[t].load && s'.threads[t].phase == s.threads[t].phase
    ensures s'.threads[t] == s.threads[t] || s.threads[t].phase != Retired
    ensures s'.threads[t].atLiveness == s.threads[t].atLiveness
  {
  }

  lemma BackendStepTracked(s: State, s': State, step: Step, t: Tid)
    requires Does(s, s', step) && !LifeStep(step) && !ReadStep(step)
    requires !step.SReload? && !step.SBegin? && !step.SContinue?
    requires NotDeleted(s)
    requires t in s.threads && Tracked(s, t)
    ensures t in s'.threads && Tracked(s', t)
  {
  }

  lemma ReloadTrackedOther(s: State, s': State, t: Tid, i: nat, t': Tid)
    requires PollReload(s, s', t, i) && t' != t && t' in s.threads && Tracked(s, t')
    ensures t' in s'.threads && Tracked(s', t')
  {
  }

  lemma ProducerTrackedOther(s: State, s': State, step: Step, t: Tid)
    requires Does(s, s', step) && (step.SBegin? || step.SContinue?) && step.t != t
    requires t in s.threads && Tracked(s, t)
    ensures t in s'.threads && Tracked(s', t)
  {
  }

  lemma StepTracked(s: State, s': State, step: Step, t: Tid)
    requires Does(s, s', step) && NotDeleted(s)
    requires t in s.threads && Tracked(s, t) && Delivery.QueueOk(s.threads[t])
    ensures t in s'.threads && Tracked(s', t)
  {
    if step.SReload? {
      if step.t == t {
        ReloadTracked(s, s', t, step.i);
      } else {
        ReloadTrackedOther(s, s', step.t, step.i, t);
      }
    } else if step.SBegin? || step.SContinue? {
      if step.t == t {
        ProducerTracked(s, s', step, t);
      } else {
        ProducerTrackedOther(s, s', step, t);
      }
    } else if LifeStep(step) {
      LifeStepTracked(s, s', step, t);
    } else if ReadStep(step) {
      ReadStepTracked(s, s', step, t);
    } else {
      BackendStepTracked(s, s', step, t);
    }
  }

  ghost predicate Inv(s: State) {
    forall t :: t in s.threads ==> Tracked(s, t)
  }

  lemma FreshTracked(s: State, s': State, t: Tid, node: Ptr, capacity: nat)
    requires Allocate(s, s', t, node, capacity) && Registry.CursorAllocated(s)
    requires Registry.HeapOk(s)
    ensures Tracked(s', t)
  {
    if Retiring(s', t) {
      assert Registry.Owns(s, s.heap[s.pc.node].ctx, s.pc.node);
    }
  }

  lemma NewThread(s: State, s': State, step: Step, t: Tid)
    requires Does(s, s', step) && t !in s.threads && t in s'.threads
    ensures step.SAllocate? && step.t == t
  {
  }

  lemma StepInv(s: State, s': State, step: Step)
    requires Inv(s) && Does(s, s', step) && Delivery.Queues(s)
    requires Registry.CursorAllocated(s) && Registry.HeapOk(s)
    ensures Inv(s')
  {
    HeapGivesNotDeleted(s);
    forall t | t in s'.threads ensures Tracked(s', t) {
      if t in s.threads {
        StepTracked(s, s', step, t);
      } else {
        NewThread(s, s', step, t);
        FreshTracked(s, s', t, step.node, step.capacity);
      }
    }
  }

  lemma {:induction false} RunInv(run: seq<State>, i: nat)
    requires IsRun(run) && i < |run|
    ensures Inv(run[i])
    decreases i
  {
    if i > 0 {
      RunInv(run, i - 1);
      Delivery.RunQueues(run, i - 1);
      Registry.RunHeap(run, i - 1);
      var step := StepOf(run, i);
      StepInv(run[i - 1], run[i], step);
    }
  }

  // ---------------------------------------------------------------- main results

  /** The events that were deleted with their context without having been processed. */
  function Lost(th: Thread): seq<Spsc.Msg> {
    if th.load.observed <= |th.q.committed| then th.q.committed[th.load.observed..] else []
  }

  /** Retirement guarantee. In every run a deleted context belonged to a killed thread; everything up to the
      publication observed by the last emptiness load was processed; the lost events are exactly those behind
      it, none of them committed after the liveness load. If that load saw the newest publication, exactly
      the events committed between the two loads are lost; if the thread was already dead at that load,
      nothing is. */
  lemma RetirementGuarantee(run: seq<State>, i: nat, t: Tid)
    requires IsRun(run) && i < |run| && t in run[i].threads && run[i].threads[t].phase == Retired
    ensures var th := run[i].threads[t]; var n := |th.q.committed|;
      && th.load.observed <= th.load.published <= n
      && th.q.consumed == th.q.committed[..th.load.observed]
      && th.q.consumed + Lost(th) == th.q.committed
      && th.atLiveness == n
      && (Lost(th) == [] <==> th.load.observed == n)
      && (th.load.observed == th.load.published ==> Lost(th) == th.q.committed[th.load.published..th.atLiveness])
      && (th.load.observed == th.load.published && th.load.dead ==> Lost(th) == [])
  {
    RunInv(run, i);
    assert Tracked(run[i], t);
  }

  /** The deletion itself only ever hits a thread that was killed. */
  lemma OnlyDeadThreadsAreDeleted(run: seq<State>, i: nat, t: Tid)
    requires IsRun(run) && 0 < i < |run|
    requires t in run[i].threads && run[i].threads[t].phase == Retired
    requires t in run[i - 1].threads && run[i - 1].threads[t].phase != Retired
    ensures run[i - 1].threads[t].phase == Dead && run[i - 1].pc.Free? && OnNode(run[i - 1], t)
  {
    var step := StepOf(run, i);
    RetiredByFree(run[i - 1], run[i], step, t);
    FreeingIsDead(run, i - 1, t);
  }

  lemma FreeingIsDead(run: seq<State>, i: nat, t: Tid)
    requires IsRun(run) && i < |run| && run[i].pc.Free? && OnNode(run[i], t)
    ensures run[i].threads[t].phase == Dead
  {
    RunInv(run, i);
    assert Tracked(run[i], t);
  }

  lemma LifeKeeps(s: State, s': State, step: Step, t: Tid)
    requires Does(s, s', step) && LifeStep(step) && t in s.threads && s.threads[t].phase != Retired
    ensures t in s'.threads && s'.threads[t].phase != Retired
  {
  }

  lemma QueueKeeps(s: State, s': State, step: Step, t: Tid)
    requires Does(s, s', step) && (ReadStep(step) || step.SReload? || step.SBegin? || step.SContinue?)
    requires t in s.threads && s.threads[t].phase != Retired
    ensures t in s'.threads && s'.threads[t].phase != Retired
  {
  }

  lemma RetiredByFree(s: State, s': State, step: Step, t: Tid)
    requires Does(s, s', step) && t in s.threads && t in s'.threads
    requires s.threads[t].phase != Retired && s'.threads[t].phase == Retired
    ensures s.pc.Free? && OnNode(s, t)
  {
    if LifeStep(step) {
      LifeKeeps(s, s', step, t);
    } else if ReadStep(step) || step.SReload? || step.SBegin? || step.SContinue? {
      QueueKeeps(s, s', step, t);
    }
  }

  // ---------------------------------------------------------------- what the recorded loads mean

  /** The records the guarantee speaks of are what they are called: a reload of the write position records the
      publication it observed, how many there were, and whether the thread was dead; nothing else touches the record. */
  lemma ReloadsAreRecorded(s: State, s': State, t: Tid)
    requires Next(s, s') && t in s.threads
    ensures t in s'.threads
    ensures var th, th' := s.threads[t], s'.threads[t];
      if th.q.c.CReload? && !th'.q.c.CReload? then
        && th'.load.observed == th'.q.seenW && th'.load.published == |th.q.committed|
        && (th'.load.dead <==> th.phase == Dead)
      else th'.load == th.load
  {
    var step :| Does(s, s', step);
    if step.SReload? {
      ReloadIsRecorded(s, s', step, t);
    } else {
      OthersRecordNothing(s, s', step, t);
    }
  }

  lemma ReloadIsRecorded(s: State, s': State, step: Step, t: Tid)
    requires Does(s, s', step) && step.SReload? && t in s.threads
    ensures t in s'.threads
    ensures var th, th' := s.threads[t], s'.threads[t];
      if step.t == t then
        && th.q.c.CReload? && !th'.q.c.CReload?
        && th'.load.observed == th'.q.seenW && th'.load.published == |th.q.committed|
        && (th'.load.dead <==> th.phase == Dead)
      else th' == th
  {
  }

  lemma OthersRecordNothing(s: State, s': State, step: Step, t: Tid)
    requires Does(s, s', step) && !step.SReload? && t in s.threads
    ensures t in s'.threads && s'.threads[t].load == s.threads[t].load
    ensures s.threads[t].q.c.CReload? ==> s'.threads[t].q.c.CReload?
  {
    if step.SBegin? || step.SContinue? {
      ProducersRecordNothing(s, s', step, t);
    }
  }

  lemma ProducersRecordNothing(s: State, s': State, step: Step, t: Tid)
    requires Does(s, s', step) && (step.SBegin? || step.SContinue?) && t in s.threads
    ensures t in s'.threads && s'.threads[t].load == s.threads[t].load && s'.threads[t].q.c == s.threads[t].q.c
  {
  }

  /** The load of the liveness flag records how much was committed at that moment, and nothing else does. */
  lemma LivenessIsRecorded(s: State, s': State, t: Tid)
    requires Next(s, s') && t in s.threads
    ensures t in s'.threads
    ensures s'.threads[t].atLiveness
            == (if s.pc.Liveness? && OnNode(s, t) && s'.pc != s.pc then |s.threads[t].q.committed|
                else s.threads[t].atLiveness)
  {
    var step :| Does(s, s', step);
    if step.SAlive? {
    } else if LifeStep(step) || ReadStep(step) || step.SReload? || step.SBegin? || step.SContinue? {
      QueueStepsKeepRecord(s, s', step, t);
    } else {
      OtherStepsKeepRecord(s, s', step, t);
    }
  }

  lemma QueueStepsKeepRecord(s: State, s': State, step: Step, t: Tid)
    requires Does(s, s', step) && t in s.threads
    requires LifeStep(step) || ReadStep(step) || step.SReload? || step.SBegin? || step.SContinue?
    ensures t in s'.threads && s'.threads[t].atLiveness == s.threads[t].atLiveness
    ensures s.pc.Liveness? ==> s'.pc == s.pc
  {
  }

  lemma OtherStepsKeepRecord(s: State, s': State, step: Step, t: Tid)
    requires Does(s, s', step) && t in s.threads && !step.SAlive?
    requires !LifeStep(step) && !ReadStep(step) && !step.SReload? && !step.SBegin? && !step.SContinue?
    ensures t in s'.threads && s'.threads[t].atLiveness == s.threads[t].atLiveness
    ensures s.pc.Liveness? ==> s'.pc == s.pc
  {
  }
}
