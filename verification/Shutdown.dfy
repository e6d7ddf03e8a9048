/** The drain loop at shutdown, over the runs of the whole logger: once every thread is dead and none registers, the
    list is empty after exactly one pass more than the longest queue has events, and nothing is left unprocessed. */
module Shutdown {
  import opened NodeList
  import opened Logger
  import BoundedWait
  import Delivery
  import Progress
  import Registry
  import Retirement
  import Spsc

  // ---------------------------------------------------------------- the situation at shutdown

  /** Every thread is dead, and none is registering. */
  ghost predicate AllDead(s: State) {
    forall t :: t in s.threads ==> s.threads[t].phase == Dead || s.threads[t].phase == Retired
  }

  ghost predicate DrainsAt(run: seq<State>, i: nat) {
    && 0 < i < |run| && AllDead(run[i])
    && BoundedWait.FreshLoad(run[i - 1], run[i]) && BoundedWait.FreshLiveness(run[i - 1], run[i])
  }

  /** From a to b the backend drains: no thread is alive, and loads see the newest values. */
  ghost predicate Draining(run: seq<State>, a: nat, b: nat) {
    a < |run| && AllDead(run[a]) && forall i: nat :: a < i <= b ==> DrainsAt(run, i)
  }

  // ---------------------------------------------------------------- where a thread stands

  /** Since pass number p0, when c0 of its goal events were read: a thread loses exactly one event per pass, and in the
      pass that finds its queue empty, its context. */
  ghost predicate Drained(s: State, t: Tid, chain: seq<Ptr>, c0: nat, p0: nat, goal: nat) {
    && t in s.threads && p0 <= s.passes && BoundedWait.Published(s, t) == goal
    && var n, read := s.passes - p0, BoundedWait.Read(s, t);
    && read <= goal
    && match s.threads[t].phase
       case Retired => read == goal && (c0 + n > goal || (c0 + n == goal && !s.pc.Top?))
       case Dead =>
         if Retirement.Retiring(s, t) then read == goal == c0 + n
         else if BoundedWait.Waiting(s, t, chain) then read == c0 + n
         else read == c0 + n + 1
       case _ => false
  }

  // ---------------------------------------------------------------- single steps

  lemma OnlyBackendMoves(s: State, s': State, step: Step)
    requires Does(s, s', step) && AllDead(s)
    ensures !step.SBegin? && !step.SContinue? && !step.SKill? && !step.SPush? && !step.SPushFails?
  {
  }

  /** With no live thread nothing more is committed, and no dead thread comes back. */
  lemma NothingNew(s: State, s': State, step: Step, t: Tid)
    requires Does(s, s', step) && AllDead(s) && t in s.threads
    ensures t in s'.threads && BoundedWait.Published(s', t) == BoundedWait.Published(s, t)
    ensures s'.threads[t].phase == s.threads[t].phase || (step.SFree? && OnNode(s, t) && s'.threads[t].phase == Retired)
  {
    OnlyBackendMoves(s, s', step);
    if Retirement.ReadStep(step) {
      ReadStepKeeps(s, s', step, t);
    } else if step.SReload? {
      ReloadKeeps(s, s', step, t);
    } else {
      OtherStepKeeps(s, s', step, t);
    }
  }

  lemma ReadStepKeeps(s: State, s': State, step: Step, t: Tid)
    requires Does(s, s', step) && Retirement.ReadStep(step) && t in s.threads
    ensures t in s'.threads && BoundedWait.Published(s', t) == BoundedWait.Published(s, t)
    ensures s'.threads[t].phase == s.threads[t].phase
  {
  }

  lemma ReloadKeeps(s: State, s': State, step: Step, t: Tid)
    requires Does(s, s', step) && step.SReload? && t in s.threads
    ensures t in s'.threads && BoundedWait.Published(s', t) == BoundedWait.Published(s, t)
    ensures s'.threads[t].phase == s.threads[t].phase
  {
  }

  lemma OtherStepKeeps(s: State, s': State, step: Step, t: Tid)
    requires Does(s, s', step) && !Retirement.ReadStep(step) && !step.SReload? && t in s.threads
    requires !step.SBegin? && !step.SContinue? && !step.SKill? && !step.SPush? && !step.SPushFails?
    ensures t in s'.threads && s'.threads[t].q == s.threads[t].q
    ensures s'.threads[t].phase == s.threads[t].phase || (step.SFree? && OnNode(s, t) && s'.threads[t].phase == Retired)
  {
  }

  ghost predicate RemovalStep(step: Step) {
    step.SAlive? || step.SRemoveHead? || step.SRemoveMiss? || step.SWalkNext? || step.SUnlink? || step.SFree?
  }

  lemma RemovalGoesOn(s: State, s': State, step: Step, t: Tid)
    requires Does(s, s', step) && RemovalStep(step) && BoundedWait.FreshLiveness(s, s') && Retirement.Retiring(s, t)
    requires s.threads[t].phase == Dead
    ensures t in s'.threads && !s'.pc.Top?
    ensures Retirement.Retiring(s', t) || s'.threads[t].phase == Retired
  {
  }

  lemma OtherStepsWait(s: State, s': State, step: Step, t: Tid)
    requires Does(s, s', step) && !RemovalStep(step) && !step.SWalkNotFound? && Retirement.Retiring(s, t)
    ensures Retirement.Retiring(s', t) && !s'.pc.Top?
  {
  }

  /** A retirement that has begun goes on until the context is deleted. */
  lemma RetiringStep(s: State, s': State, step: Step, t: Tid)
    requires Does(s, s', step) && BoundedWait.FreshLiveness(s, s') && Retirement.Retiring(s, t)
    requires s.threads[t].phase == Dead && !step.SWalkNotFound?
    ensures t in s'.threads && !s'.pc.Top?
    ensures Retirement.Retiring(s', t) || s'.threads[t].phase == Retired
  {
    if RemovalStep(step) {
      RemovalGoesOn(s, s', step, t);
    } else {
      OtherStepsWait(s, s', step, t);
    }
  }

  /** Reading begins by entering the thread's node. */
  lemma ReadingBegins(s: State, s': State, step: Step, t: Tid)
    requires Does(s, s', step) && t in s.threads && Delivery.Reading(s', t) && !Delivery.Reading(s, t)
    requires Registry.CursorAllocated(s)
    ensures step.SEnter? && s.pc.node in s.heap && s.heap[s.pc.node].ctx == t
  {
  }

  lemma {:induction false} DistinctCtxs(s: State, chain: seq<Ptr>, i: nat, j: nat)
    requires Registry.Inv(s, chain) && i < j < |chain|
    ensures Ctxs(s.heap, chain)[i] != Ctxs(s.heap, chain)[j]
  {
    assert chain[i] in chain && chain[j] in chain;
    assert Registry.Owns(s, s.heap[chain[i]].ctx, chain[i]) && Registry.Owns(s, s.heap[chain[j]].ctx, chain[j]);
  }

  /** A thread whose node was entered in this pass is not entered again. */
  lemma CurrentNotPending(s: State, t: Tid, chain: seq<Ptr>)
    requires Registry.Inv(s, chain) && OnNode(s, t) && (s.pc.Poll? || s.pc.Commit?)
    ensures t !in BoundedWait.Pending(s, chain)
  {
    var j: nat :| j < |chain| && chain[j] == s.pc.node;
    LinkOf(s.heap, s.head, chain, j);
    NoNull(s.heap, s.head, chain);
    RestWithout(chain, j);
    var rest := chain[j + 1..];
    forall k | 0 <= k < |rest| ensures Ctxs(s.heap, rest)[k] != t {
      DistinctCtxs(s, chain, j, j + 1 + k);
      assert rest[k] == chain[j + 1 + k];
    }
  }

  /** A thread served in this pass stays served for the rest of it. */
  lemma ServedStays(s: State, s': State, step: Step, t: Tid, chain: seq<Ptr>, chain': seq<Ptr>)
    requires Does(s, s', step) && t in s.threads && Registry.Inv(s, chain)
    requires Registry.ListMoves(s, step, chain, chain')
    requires !s.pc.Top? && !s'.pc.Top? && !BoundedWait.Waiting(s, t, chain) && !Retirement.Retiring(s, t)
    ensures !BoundedWait.Waiting(s', t, chain') && !Retirement.Retiring(s', t)
  {
    BoundedWait.CursorIsAllocated(s, chain);
    BoundedWait.PlanStep(s, s', step, chain, chain');
    if Delivery.Reading(s', t) {
      ReadingBegins(s, s', step, t);
    }
    if Retirement.Retiring(s', t) {
      BoundedWait.StartsByReload(s, s', step, t);
    }
  }

  /** When its event is committed, the thread is served. */
  lemma ServedByFinish(s: State, s': State, step: Step, t: Tid, chain: seq<Ptr>, chain': seq<Ptr>)
    requires Does(s, s', step) && step == SCommit(t) && Registry.Inv(s, chain)
    requires Registry.ListMoves(s, step, chain, chain')
    ensures !BoundedWait.Waiting(s', t, chain') && !Retirement.Retiring(s', t) && !s'.pc.Top?
  {
    CurrentNotPending(s, t, chain);
    BoundedWait.PlanStep(s, s', step, chain, chain');
  }

  lemma FinishIsCommit(s: State, s': State, step: Step, kind: Delivery.Kind, t: Tid)
    requires Does(s, s', step) && Delivery.Effect(s, s', kind) && kind == Delivery.Finish(t)
    ensures step == SCommit(t)
  {
  }

  // ---------------------------------------------------------------- one step of the drain

  ghost predicate Steps(s: State, s': State, step: Step, kind: Delivery.Kind) {
    && Does(s, s', step) && Delivery.Effect(s, s', kind) && AllDead(s)
    && BoundedWait.FreshLoad(s, s') && BoundedWait.FreshLiveness(s, s')
  }

  /** How the counts change: a finish of t reads one event, the end of a pass counts it. */
  ghost predicate Counts(s: State, s': State, step: Step, kind: Delivery.Kind, t: Tid) {
    && t in s.threads && t in s'.threads
    && BoundedWait.Published(s', t) == BoundedWait.Published(s, t)
    && BoundedWait.Read(s', t) == BoundedWait.Read(s, t) + (if kind == Delivery.Finish(t) then 1 else 0)
    && s'.passes == s.passes + (if step.SEndPass? then 1 else 0)
    && (step.SEndPass? ==> s.pc == Visit(NULL) && s'.pc.Top? && kind != Delivery.Finish(t))
    && (s'.threads[t].phase == s.threads[t].phase || (step.SFree? && OnNode(s, t) && s'.threads[t].phase == Retired))
  }

  lemma StepCounts(s: State, s': State, step: Step, kind: Delivery.Kind, t: Tid)
    requires Steps(s, s', step, kind) && t in s.threads
    ensures Counts(s, s', step, kind, t)
  {
    NothingNew(s, s', step, t);
    BoundedWait.CountsGrow(s, s', kind, t);
    BoundedWait.PassBoundaries(s, s', step);
    if step.SEndPass? {
      BoundedWait.EndIsNoFinish(s, s', step, kind, t);
    }
  }

  /** A read is finished only while the backend is committing on the thread's node, which is not deleted, and one more
      event was there to read. */
  lemma FinishFacts(s: State, s': State, kind: Delivery.Kind, t: Tid, chain: seq<Ptr>)
    requires Registry.Inv(s, chain) && Delivery.Effect(s, s', kind) && kind == Delivery.Finish(t)
    requires Delivery.Queues(s)
    ensures s.pc.Commit? && OnNode(s, t) && s.threads[t].phase != Retired
    ensures BoundedWait.Read(s, t) < BoundedWait.Published(s, t)
  {
    assert Registry.Owns(s, t, s.pc.node);
    assert Delivery.QueueOk(s.threads[t]);
  }

  lemma PassEndsAtTop(s: State, s': State, step: Step)
    requires Does(s, s', step)
    ensures !s.pc.Top? && s'.pc.Top? ==> step.SEndPass?
    ensures step.SFree? ==> s.pc.Free? && !s'.pc.Top?
  {
    BoundedWait.PassBoundaries(s, s', step);
  }

  lemma DrainRetired(s: State, s': State, step: Step, kind: Delivery.Kind, t: Tid,
                     chain: seq<Ptr>, chain': seq<Ptr>, c0: nat, p0: nat, goal: nat)
    requires Counts(s, s', step, kind, t) && Drained(s, t, chain, c0, p0, goal) && s.threads[t].phase == Retired
    requires kind != Delivery.Finish(t) && (!s.pc.Top? && s'.pc.Top? ==> step.SEndPass?)
    ensures Drained(s', t, chain', c0, p0, goal)
  {
  }

  lemma DrainRetiring(s: State, s': State, step: Step, kind: Delivery.Kind, t: Tid,
                      chain: seq<Ptr>, chain': seq<Ptr>, c0: nat, p0: nat, goal: nat)
    requires Counts(s, s', step, kind, t) && Drained(s, t, chain, c0, p0, goal) && s.threads[t].phase == Dead
    requires Retirement.Retiring(s, t) && kind != Delivery.Finish(t) && !s'.pc.Top?
    requires Retirement.Retiring(s', t) || s'.threads[t].phase == Retired
    ensures Drained(s', t, chain', c0, p0, goal)
  {
  }

  lemma DrainWaiting(s: State, s': State, step: Step, kind: Delivery.Kind, t: Tid,
                     chain: seq<Ptr>, chain': seq<Ptr>, c0: nat, p0: nat, goal: nat)
    requires Counts(s, s', step, kind, t) && Drained(s, t, chain, c0, p0, goal) && s.threads[t].phase == Dead
    requires !Retirement.Retiring(s, t) && BoundedWait.Waiting(s, t, chain) && s'.threads[t].phase == Dead
    requires if kind == Delivery.Finish(t) then
               BoundedWait.Read(s, t) < goal && !BoundedWait.Waiting(s', t, chain') && !Retirement.Retiring(s', t)
             else if Retirement.Retiring(s', t) then BoundedWait.Read(s, t) == goal && !step.SEndPass?
             else BoundedWait.Waiting(s', t, chain') && !step.SEndPass?
    ensures Drained(s', t, chain', c0, p0, goal)
  {
  }

  lemma DrainServed(s: State, s': State, step: Step, kind: Delivery.Kind, t: Tid,
                    chain: seq<Ptr>, chain': seq<Ptr>, c0: nat, p0: nat, goal: nat)
    requires Counts(s, s', step, kind, t) && Drained(s, t, chain, c0, p0, goal) && s.threads[t].phase == Dead
    requires !Retirement.Retiring(s, t) && !BoundedWait.Waiting(s, t, chain) && s'.threads[t].phase == Dead
    requires kind != Delivery.Finish(t)
    requires step.SEndPass? || (!BoundedWait.Waiting(s', t, chain') && !Retirement.Retiring(s', t))
    ensures Drained(s', t, chain', c0, p0, goal)
  {
  }

  lemma WaitingFinishes(s: State, s': State, step: Step, kind: Delivery.Kind, t: Tid,
                        chain: seq<Ptr>, chain': seq<Ptr>)
    requires Steps(s, s', step, kind) && Delivery.Queues(s) && kind == Delivery.Finish(t)
    requires Registry.Inv(s, chain) && Registry.ListMoves(s, step, chain, chain')
    ensures BoundedWait.Read(s, t) < BoundedWait.Published(s, t)
    ensures !BoundedWait.Waiting(s', t, chain') && !Retirement.Retiring(s', t)
  {
    FinishFacts(s, s', kind, t, chain);
    FinishIsCommit(s, s', step, kind, t);
    ServedByFinish(s, s', step, t, chain, chain');
  }

  lemma WaitingRetires(s: State, s': State, step: Step, t: Tid, chain: seq<Ptr>)
    requires Does(s, s', step) && BoundedWait.FreshLoad(s, s') && Delivery.Queues(s) && Registry.Inv(s, chain)
    requires t in s.threads && !Retirement.Retiring(s, t) && Retirement.Retiring(s', t)
    ensures BoundedWait.Read(s, t) == BoundedWait.Published(s, t) && !step.SEndPass?
  {
    BoundedWait.CursorIsAllocated(s, chain);
    assert Delivery.QueueOk(s.threads[t]);
    BoundedWait.RetireNeedsEmpty(s, s', step, t);
    BoundedWait.StartsByReload(s, s', step, t);
  }

  lemma WaitingStays(s: State, s': State, step: Step, kind: Delivery.Kind, t: Tid, chain: seq<Ptr>, chain': seq<Ptr>)
    requires Does(s, s', step) && Delivery.Effect(s, s', kind) && kind != Delivery.Finish(t)
    requires Registry.Inv(s, chain) && Registry.ListMoves(s, step, chain, chain')
    requires t in s.threads && t in s'.threads && s.threads[t].phase == Dead && s'.threads[t].phase == Dead
    requires !Retirement.Retiring(s, t) && !Retirement.Retiring(s', t) && BoundedWait.Waiting(s, t, chain)
    ensures BoundedWait.Waiting(s', t, chain') && !step.SEndPass?
  {
    BoundedWait.WaitingStep(s, s', step, kind, t, chain, chain');
  }

  lemma NotFreed(s: State, s': State, step: Step, kind: Delivery.Kind, t: Tid)
    requires Counts(s, s', step, kind, t) && (step.SFree? ==> s.pc.Free?) && !Retirement.Retiring(s, t)
    ensures s'.threads[t].phase == s.threads[t].phase
  {
  }

  ghost predicate StillWaiting(s: State, s': State, step: Step, kind: Delivery.Kind, t: Tid,
                               chain: seq<Ptr>, chain': seq<Ptr>) {
    && Steps(s, s', step, kind) && Delivery.Queues(s)
    && Registry.Inv(s, chain) && Registry.ListMoves(s, step, chain, chain')
    && t in s.threads && s.threads[t].phase == Dead
    && !Retirement.Retiring(s, t) && BoundedWait.Waiting(s, t, chain)
  }

  lemma StepIsRead(s: State, s': State, step: Step, kind: Delivery.Kind, t: Tid,
                   chain: seq<Ptr>, chain': seq<Ptr>, c0: nat, p0: nat, goal: nat)
    requires StillWaiting(s, s', step, kind, t, chain, chain') && Drained(s, t, chain, c0, p0, goal)
    requires kind == Delivery.Finish(t)
    ensures Drained(s', t, chain', c0, p0, goal)
  {
    WaitingCounts(s, s', step, kind, t);
    WaitingFinishes(s, s', step, kind, t, chain, chain');
    DrainWaiting(s, s', step, kind, t, chain, chain', c0, p0, goal);
  }

  lemma StepRetires(s: State, s': State, step: Step, kind: Delivery.Kind, t: Tid,
                    chain: seq<Ptr>, chain': seq<Ptr>, c0: nat, p0: nat, goal: nat)
    requires StillWaiting(s, s', step, kind, t, chain, chain') && Drained(s, t, chain, c0, p0, goal)
    requires kind != Delivery.Finish(t) && Retirement.Retiring(s', t)
    ensures Drained(s', t, chain', c0, p0, goal)
  {
    WaitingCounts(s, s', step, kind, t);
    WaitingRetires(s, s', step, t, chain);
    DrainWaiting(s, s', step, kind, t, chain, chain', c0, p0, goal);
  }

  lemma StepWaits(s: State, s': State, step: Step, kind: Delivery.Kind, t: Tid,
                  chain: seq<Ptr>, chain': seq<Ptr>, c0: nat, p0: nat, goal: nat)
    requires StillWaiting(s, s', step, kind, t, chain, chain') && Drained(s, t, chain, c0, p0, goal)
    requires kind != Delivery.Finish(t) && !Retirement.Retiring(s', t)
    ensures Drained(s', t, chain', c0, p0, goal)
  {
    WaitingCounts(s, s', step, kind, t);
    WaitingStays(s, s', step, kind, t, chain, chain');
    DrainWaiting(s, s', step, kind, t, chain, chain', c0, p0, goal);
  }

  lemma WaitingCounts(s: State, s': State, step: Step, kind: Delivery.Kind, t: Tid)
    requires Steps(s, s', step, kind) && t in s.threads && !Retirement.Retiring(s, t)
    ensures Counts(s, s', step, kind, t) && s'.threads[t].phase == s.threads[t].phase
  {
    StepCounts(s, s', step, kind, t);
    PassEndsAtTop(s, s', step);
    NotFreed(s, s', step, kind, t);
  }

  lemma StepWaiting(s: State, s': State, step: Step, kind: Delivery.Kind, t: Tid,
                    chain: seq<Ptr>, chain': seq<Ptr>, c0: nat, p0: nat, goal: nat)
    requires StillWaiting(s, s', step, kind, t, chain, chain') && Drained(s, t, chain, c0, p0, goal)
    ensures Drained(s', t, chain', c0, p0, goal)
  {
    if kind == Delivery.Finish(t) {
      StepIsRead(s, s', step, kind, t, chain, chain', c0, p0, goal);
    } else if Retirement.Retiring(s', t) {
      StepRetires(s, s', step, kind, t, chain, chain', c0, p0, goal);
    } else {
      StepWaits(s, s', step, kind, t, chain, chain', c0, p0, goal);
    }
  }

  lemma StepServed(s: State, s': State, step: Step, kind: Delivery.Kind, t: Tid,
                   chain: seq<Ptr>, chain': seq<Ptr>, c0: nat, p0: nat, goal: nat)
    requires Steps(s, s', step, kind) && Drained(s, t, chain, c0, p0, goal) && Delivery.Queues(s)
    requires Registry.Inv(s, chain) && Registry.ListMoves(s, step, chain, chain')
    requires s.threads[t].phase == Dead && !Retirement.Retiring(s, t) && !BoundedWait.Waiting(s, t, chain)
    ensures Drained(s', t, chain', c0, p0, goal)
  {
    WaitingCounts(s, s', step, kind, t);
    PassEndsAtTop(s, s', step);
    if kind == Delivery.Finish(t) {
      FinishFacts(s, s', kind, t, chain);
    }
    if !step.SEndPass? {
      ServedStays(s, s', step, t, chain, chain');
    }
    DrainServed(s, s', step, kind, t, chain, chain', c0, p0, goal);
  }

  lemma StepRetiring(s: State, s': State, step: Step, kind: Delivery.Kind, t: Tid,
                     chain: seq<Ptr>, chain': seq<Ptr>, c0: nat, p0: nat, goal: nat)
    requires Steps(s, s', step, kind) && Drained(s, t, chain, c0, p0, goal) && Delivery.Queues(s)
    requires Registry.Inv(s, chain) && s.threads[t].phase == Dead && Retirement.Retiring(s, t)
    ensures Drained(s', t, chain', c0, p0, goal)
  {
    StepCounts(s, s', step, kind, t);
    if kind == Delivery.Finish(t) {
      FinishFacts(s, s', kind, t, chain);
    }
    RetiringGoesOn(s, s', step, t, chain);
    DrainRetiring(s, s', step, kind, t, chain, chain', c0, p0, goal);
  }

  lemma StepRetired(s: State, s': State, step: Step, kind: Delivery.Kind, t: Tid,
                    chain: seq<Ptr>, chain': seq<Ptr>, c0: nat, p0: nat, goal: nat)
    requires Steps(s, s', step, kind) && Drained(s, t, chain, c0, p0, goal) && Delivery.Queues(s)
    requires Registry.Inv(s, chain) && s.threads[t].phase == Retired
    ensures Drained(s', t, chain', c0, p0, goal)
  {
    StepCounts(s, s', step, kind, t);
    PassEndsAtTop(s, s', step);
    if kind == Delivery.Finish(t) {
      FinishFacts(s, s', kind, t, chain);
    }
    DrainRetired(s, s', step, kind, t, chain, chain', c0, p0, goal);
  }

  lemma DrainStep(s: State, s': State, step: Step, kind: Delivery.Kind, t: Tid,
                  chain: seq<Ptr>, chain': seq<Ptr>, c0: nat, p0: nat, goal: nat)
    requires Steps(s, s', step, kind) && Drained(s, t, chain, c0, p0, goal) && Delivery.Queues(s)
    requires Registry.Inv(s, chain) && Registry.ListMoves(s, step, chain, chain')
    ensures Drained(s', t, chain', c0, p0, goal)
  {
    if s.threads[t].phase == Retired {
      StepRetired(s, s', step, kind, t, chain, chain', c0, p0, goal);
    } else if Retirement.Retiring(s, t) {
      StepRetiring(s, s', step, kind, t, chain, chain', c0, p0, goal);
    } else if BoundedWait.Waiting(s, t, chain) {
      StepWaiting(s, s', step, kind, t, chain, chain', c0, p0, goal);
    } else {
      StepServed(s, s', step, kind, t, chain, chain', c0, p0, goal);
    }
  }

  lemma RetiringGoesOn(s: State, s': State, step: Step, t: Tid, chain: seq<Ptr>)
    requires Does(s, s', step) && AllDead(s) && BoundedWait.FreshLiveness(s, s') && Retirement.Retiring(s, t)
    requires s.threads[t].phase == Dead && Registry.Inv(s, chain)
    ensures t in s'.threads && !s'.pc.Top?
    ensures Retirement.Retiring(s', t) || s'.threads[t].phase == Retired
  {
    if s.pc.Walk? {
      Registry.WalkFinds(s, chain);
    }
    RetiringStep(s, s', step, t);
  }

  // ---------------------------------------------------------------- over a run

  lemma DrainNext(s: State, s': State, t: Tid, chain: seq<Ptr>, c0: nat, p0: nat, goal: nat)
    returns (chain': seq<Ptr>)
    requires Next(s, s') && AllDead(s) && BoundedWait.FreshLoad(s, s') && BoundedWait.FreshLiveness(s, s')
    requires Delivery.Queues(s) && Registry.Inv(s, chain) && Drained(s, t, chain, c0, p0, goal)
    ensures Registry.Inv(s', chain') && Drained(s', t, chain', c0, p0, goal)
  {
    var step :| Does(s, s', step);
    var kind := Delivery.KindOf(s, s', step);
    chain' := Registry.StepInv(s, s', step, chain);
    DrainStep(s, s', step, kind, t, chain, chain', c0, p0, goal);
  }

  lemma DrainStarts(s: State, t: Tid, chain: seq<Ptr>)
    requires s.pc.Top? && t in s.threads && s.threads[t].phase == Dead
    requires BoundedWait.Read(s, t) <= BoundedWait.Published(s, t)
    ensures Drained(s, t, chain, BoundedWait.Read(s, t), s.passes, BoundedWait.Published(s, t))
  {
  }

  lemma ReadIsPublished(s: State, t: Tid)
    requires t in s.threads && Delivery.Queues(s)
    ensures BoundedWait.Read(s, t) <= BoundedWait.Published(s, t)
  {
    assert Delivery.QueueOk(s.threads[t]);
    Delivery.QueueReadsInOrder(s.threads[t].q);
  }

  lemma DeadAt(run: seq<State>, a: nat, b: nat, i: nat)
    requires Draining(run, a, b) && a <= i <= b
    ensures i < |run| && AllDead(run[i])
  {
    if a < i {
      assert DrainsAt(run, i);
    }
  }

  lemma {:induction false} DrainRun(run: seq<State>, a: nat, b: nat, t: Tid) returns (chain: seq<Ptr>)
    requires IsRun(run) && a <= b < |run| && Draining(run, a, b)
    requires run[a].pc.Top? && t in run[a].threads && run[a].threads[t].phase == Dead
    ensures Registry.Inv(run[b], chain)
    ensures Drained(run[b], t, chain, BoundedWait.Read(run[a], t), run[a].passes, BoundedWait.Published(run[a], t))
    decreases b
  {
    if a == b {
      chain := Registry.RunInv(run, a);
      Delivery.RunQueues(run, a);
      ReadIsPublished(run[a], t);
      DrainStarts(run[a], t, chain);
    } else {
      var before := DrainRun(run, a, b - 1, t);
      Delivery.RunQueues(run, b - 1);
      DeadAt(run, a, b, b - 1);
      assert StepAt(run, b) && DrainsAt(run, b);
      chain := DrainNext(run[b - 1], run[b], t, before,
                         BoundedWait.Read(run[a], t), run[a].passes, BoundedWait.Published(run[a], t));
    }
  }

  /** A context that is there at the end was there at the start. */
  lemma {:induction false} DeadBefore(run: seq<State>, a: nat, b: nat, t: Tid)
    requires IsRun(run) && a <= b < |run| && Draining(run, a, b)
    requires t in run[b].threads && run[b].threads[t].phase == Dead
    ensures t in run[a].threads && run[a].threads[t].phase == Dead
    decreases b
  {
    if a < b {
      DeadAt(run, a, b, b - 1);
      var step := StepOf(run, b);
      DeadOneBefore(run[b - 1], run[b], step, t);
      DeadBefore(run, a, b - 1, t);
    }
  }

  lemma DeadOneBefore(s: State, s': State, step: Step, t: Tid)
    requires Does(s, s', step) && AllDead(s) && t in s'.threads && s'.threads[t].phase == Dead
    ensures t in s.threads && s.threads[t].phase == Dead
  {
    if t in s.threads {
      NothingNew(s, s', step, t);
    } else {
      Retirement.NewThread(s, s', step, t);
    }
  }

  /** Between passes, with every thread dead, the list is empty exactly if no context is left. */
  lemma EmptyList(s: State, chain: seq<Ptr>)
    requires Registry.Inv(s, chain) && s.pc.Top? && AllDead(s)
    ensures s.head == NULL <==> forall t :: t in s.threads ==> s.threads[t].phase == Retired
  {
    if chain == [] {
      forall t | t in s.threads ensures s.threads[t].phase == Retired {
        if s.threads[t].phase == Dead {
          BoundedWait.InPlan(s, t, chain);
        }
      }
    } else {
      LinkOf(s.heap, s.head, chain, 0);
      assert chain[0] in chain;
      assert Registry.Owns(s, s.heap[chain[0]].ctx, chain[0]);
    }
  }

  // ---------------------------------------------------------------- main results

  function Unread(s: State, t: Tid): int {
    BoundedWait.Published(s, t) - BoundedWait.Read(s, t)
  }

  /** Of the contexts that are left, that of t has the most unread events. */
  ghost predicate IsLongest(s: State, t: Tid) {
    && Has(s, t, Dead)
    && forall t' :: Has(s, t', Dead) ==> Unread(s, t') <= Unread(s, t)
  }

  /** While the backend drains, a dead thread with u unread events loses exactly one of them in each of the first u
      passes, and its context in the pass after them. */
  lemma ThreadDrains(run: seq<State>, a: nat, b: nat, t: Tid)
    requires IsRun(run) && a <= b < |run| && Draining(run, a, b) && run[a].pc.Top? && run[b].pc.Top?
    requires t in run[a].threads && run[a].threads[t].phase == Dead
    ensures run[a].passes <= run[b].passes && t in run[b].threads
    ensures var n := run[b].passes - run[a].passes;
      if n <= Unread(run[a], t) then
        run[b].threads[t].phase == Dead && Unread(run[b], t) == Unread(run[a], t) - n
      else
        run[b].threads[t].phase == Retired && Unread(run[b], t) == 0
  {
    var chain := DrainRun(run, a, b, t);
  }

  /** The drain loop: the list is empty exactly when one pass more is over than the longest queue had events. */
  lemma ListEmptyAfterLongest(run: seq<State>, a: nat, b: nat, longest: Tid)
    requires IsRun(run) && a <= b < |run| && Draining(run, a, b) && run[a].pc.Top? && run[b].pc.Top?
    requires IsLongest(run[a], longest)
    ensures run[b].head == NULL <==> run[b].passes >= run[a].passes + Unread(run[a], longest) + 1
  {
    var chain := Registry.RunInv(run, b);
    DeadAt(run, a, b, b);
    EmptyList(run[b], chain);
    ThreadDrains(run, a, b, longest);
    forall t | t in run[b].threads && run[b].threads[t].phase == Dead
      ensures Unread(run[a], longest) >= run[b].passes - run[a].passes
    {
      DeadBefore(run, a, b, t);
      ThreadDrains(run, a, b, t);
      assert Has(run[a], t, Dead);
    }
  }

  /** And by then every event that any queue accepted has been processed, in order. */
  lemma AllProcessedWhenEmpty(run: seq<State>, a: nat, b: nat, t: Tid)
    requires IsRun(run) && a <= b < |run| && Draining(run, a, b) && run[a].pc.Top? && run[b].pc.Top?
    requires t in run[a].threads && run[a].threads[t].phase == Dead && run[b].head == NULL
    ensures t in run[b].threads
    ensures Delivery.Events(Delivery.EntriesOf(run[b].log, t)) == Delivery.Accepted(run[b], t)
  {
    var chain := Registry.RunInv(run, b);
    DeadAt(run, a, b, b);
    EmptyList(run[b], chain);
    ThreadDrains(run, a, b, t);
    Delivery.RunInv(run, b);
    NothingUnread(run[b], t);
  }

  lemma NothingUnread(s: State, t: Tid)
    requires Delivery.Inv(s) && s.pc.Top? && t in s.threads && Unread(s, t) == 0
    ensures Delivery.Events(Delivery.EntriesOf(s.log, t)) == Delivery.Accepted(s, t)
  {
    assert Delivery.QueueOk(s.threads[t]);
    Delivery.QueueReadsInOrder(s.threads[t].q);
    assert s.threads[t].q.consumed == s.threads[t].q.committed;
    assert Delivery.InFlight(s, t) == [];
    assert Delivery.Processed(s, t) == Delivery.Accepted(s, t);
  }

  // ---------------------------------------------------------------- the drain comes to its end

  lemma DeadStays(s: State, s': State)
    requires AllDead(s) && Progress.BackendMoves(s, s')
    ensures AllDead(s')
  {
    var step :| Progress.BackendStep(step) && Does(s, s', step);
    forall t | t in s'.threads ensures s'.threads[t].phase == Dead || s'.threads[t].phase == Retired {
      if t in s.threads {
        NothingNew(s, s', step, t);
      } else {
        Retirement.NewThread(s, s', step, t);
      }
    }
  }

  /** The backend's own fresh steps keep draining. */
  lemma {:induction false} DrainExtends(run: seq<State>, a: nat, n: nat, b: nat)
    requires a <= n <= b < |run| && Draining(run, a, n)
    requires forall i: nat :: n < i <= b ==> Progress.FreshMovesAt(run, i)
    ensures Draining(run, a, b)
    decreases b
  {
    if n < b {
      DrainExtends(run, a, n, b - 1);
      assert Progress.FreshMovesAt(run, b);
      DrainOnce(run, a, b);
    }
  }

  lemma DrainOnce(run: seq<State>, a: nat, b: nat)
    requires a < b < |run| && Draining(run, a, b - 1) && Progress.FreshMovesAt(run, b)
    ensures Draining(run, a, b)
  {
    DeadAt(run, a, b - 1, b - 1);
    DrainsOn(run, b);
  }

  lemma DrainsOn(run: seq<State>, i: nat)
    requires Progress.FreshMovesAt(run, i) && AllDead(run[i - 1])
    ensures DrainsAt(run, i)
  {
    DeadStays(run[i - 1], run[i]);
  }

  lemma DrainPrefix(run: seq<State>, run': seq<State>, a: nat)
    requires a < |run| && run <= run' && Draining(run, a, |run| - 1)
    ensures Draining(run', a, |run| - 1)
  {
    forall i: nat | a < i <= |run| - 1 ensures DrainsAt(run', i) {
      assert DrainsAt(run, i);
      assert run'[i - 1] == run[i - 1] && run'[i] == run[i];
    }
  }

  lemma OneMorePass(run: seq<State>, a: nat) returns (run': seq<State>)
    requires IsRun(run) && a < |run| && Draining(run, a, |run| - 1) && run[|run| - 1].pc.Top?
    ensures IsRun(run') && run <= run' && Draining(run', a, |run'| - 1)
    ensures run'[|run'| - 1].pc.Top? && run'[|run'| - 1].passes == run[|run| - 1].passes + 1
  {
    run' := Progress.WholePass(run);
    DrainPrefix(run, run', a);
    DrainExtends(run', a, |run| - 1, |run'| - 1);
  }

  lemma {:induction false} SomePasses(run: seq<State>, a: nat, n: nat) returns (run': seq<State>)
    requires IsRun(run) && a < |run| && Draining(run, a, |run| - 1) && run[|run| - 1].pc.Top?
    ensures IsRun(run') && run <= run' && Draining(run', a, |run'| - 1)
    ensures run'[|run'| - 1].pc.Top? && run'[|run'| - 1].passes == run[|run| - 1].passes + n
    decreases n
  {
    run' := run;
    if n > 0 {
      var longer := OneMorePass(run, a);
      run' := SomePasses(longer, a, n - 1);
    }
  }

  /** Once all threads are dead the backend can empty the list by its own steps, so the drain loop ends: one pass more
      than the longest queue has events is enough. */
  lemma DrainCanFinish(run: seq<State>, longest: Tid) returns (run': seq<State>)
    requires IsRun(run) && AllDead(run[|run| - 1]) && run[|run| - 1].pc.Top?
    requires IsLongest(run[|run| - 1], longest)
    ensures IsRun(run') && run <= run' && Draining(run', |run| - 1, |run'| - 1)
    ensures run'[|run'| - 1].pc.Top? && run'[|run'| - 1].head == NULL
    ensures run'[|run'| - 1].passes == run[|run| - 1].passes + Unread(run[|run| - 1], longest) + 1
  {
    var a := |run| - 1;
    var n := UnreadCount(run, longest);
    run' := SomePasses(run, a, n + 1);
    assert run'[a] == run[a];
    ListEmptyAfterLongest(run', a, |run'| - 1, longest);
  }

  lemma UnreadCount(run: seq<State>, t: Tid) returns (n: nat)
    requires IsRun(run) && Has(run[|run| - 1], t, Dead)
    ensures n == Unread(run[|run| - 1], t)
  {
    Delivery.RunQueues(run, |run| - 1);
    ReadIsPublished(run[|run| - 1], t);
    n := Unread(run[|run| - 1], t);
  }
}
