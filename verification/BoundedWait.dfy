/** How long an event waits: a pass visits every node present at its head load exactly once, and takes one
    event from every queue that has one. */
module BoundedWait {
  import opened NodeList
  import opened Logger
  import Delivery
  import Registry
  import Retirement
  import Spsc

  // ---------------------------------------------------------------- what a pass still has to visit

  function NextNode(pc: Pc): Ptr
    requires !pc.Top?
  {
    if pc.Visit? then pc.node else pc.next
  }

  function Pending(s: State, chain: seq<Ptr>): seq<Tid>
    requires !s.pc.Top?
  {
    Ctxs(s.heap, Rest(chain, NextNode(s.pc)))
  }

  /** The pointer to the rest of the pass is null or in the list. */
  lemma NextNodeInChain(s: State, chain: seq<Ptr>)
    requires Registry.Inv(s, chain) && !s.pc.Top?
    ensures NextNode(s.pc) == NULL || NextNode(s.pc) in chain
    ensures NULL !in chain
  {
    if !s.pc.Visit? && !s.pc.Free? {
      Registry.NextInChain(s, chain, s.pc.node);
    }
  }

  ghost predicate CtxsKept(s: State, s': State, chain: seq<Ptr>) {
    forall a :: a in chain ==> a in s.heap && a in s'.heap && s'.heap[a].ctx == s.heap[a].ctx
  }

  lemma SamePending(s: State, s': State, chain: seq<Ptr>, chain': seq<Ptr>)
    requires !s.pc.Top? && !s'.pc.Top? && CtxsKept(s, s', chain)
    requires Rest(chain', NextNode(s'.pc)) == Rest(chain, NextNode(s.pc))
    ensures Pending(s', chain') == Pending(s, chain)
  {
    RestInChain(chain, NextNode(s.pc));
  }

  /** Only a free takes an address out of the heap, and no step changes the context of a node. */
  lemma NodesKept(s: State, s': State, step: Step)
    requires Does(s, s', step)
    ensures forall a :: a in s.heap ==>
              (a in s'.heap && s'.heap[a].ctx == s.heap[a].ctx) || (step.SFree? && s.pc.Free? && a == s.pc.node)
  {
  }

  lemma HeapKept(s: State, s': State, step: Step, chain: seq<Ptr>)
    requires Registry.Inv(s, chain) && Does(s, s', step)
    ensures CtxsKept(s, s', chain)
  {
    NodesKept(s, s', step);
    CursorNotListed(s, chain);
  }

  lemma CursorNotListed(s: State, chain: seq<Ptr>)
    requires Registry.Inv(s, chain)
    ensures s.pc.Free? ==> s.pc.node !in chain
    ensures forall a :: a in chain ==> a in s.heap
  {
  }

  lemma PointerKept(s: State, s': State, step: Step)
    requires Does(s, s', step) && !step.SEnter? && !s.pc.Top? && !s'.pc.Top?
    ensures NextNode(s'.pc) == NextNode(s.pc)
  {
  }

  lemma EnterPending(s: State, s': State, chain: seq<Ptr>)
    requires Registry.Inv(s, chain) && Enter(s, s')
    ensures Pending(s, chain) == [s.heap[s.pc.node].ctx] + Pending(s', chain)
  {
    RestStep(s.heap, s.head, chain, s.pc.node);
  }

  lemma RemovedPending(s: State, chain: seq<Ptr>, chain': seq<Ptr>)
    requires Registry.Inv(s, chain) && (s.pc.RemoveCas? || s.pc.Walk?)
    requires Registry.TakesOut(chain, s.pc.node, chain')
    ensures Rest(chain', NextNode(s.pc)) == Rest(chain, NextNode(s.pc))
  {
    var j: nat :| j < |chain| && chain[j] == s.pc.node && chain' == Without(chain, j);
    RemovedNext(s, chain, j);
    RestWithout(chain, j);
  }

  lemma RemovedNext(s: State, chain: seq<Ptr>, j: nat)
    requires Registry.Inv(s, chain) && (s.pc.RemoveCas? || s.pc.Walk?)
    requires j < |chain| && chain[j] == s.pc.node
    ensures NextNode(s.pc) == At(chain, j + 1) && NULL !in chain && Distinct(chain)
  {
    LinkOf(s.heap, s.head, chain, j);
    NoNull(s.heap, s.head, chain);
  }

  /** Inside a pass a step either enters the first pending node or leaves the plan as it is, whatever is
      pushed, removed, freed and reallocated meanwhile. */
  lemma PlanStep(s: State, s': State, step: Step, chain: seq<Ptr>, chain': seq<Ptr>)
    requires Registry.Inv(s, chain) && Does(s, s', step) && Registry.ListMoves(s, step, chain, chain')
    requires !s.pc.Top? && !s'.pc.Top?
    ensures if step.SEnter? then Enter(s, s') && Pending(s, chain) == [s.heap[s.pc.node].ctx] + Pending(s', chain')
            else Pending(s', chain') == Pending(s, chain)
  {
    if step.SEnter? {
      EnterPending(s, s', chain);
    } else {
      HeapKept(s, s', step, chain);
      PointerKept(s, s', step);
      if step.SPush? {
        PushedPending(s, s', step.t, chain);
      } else if step.SRemoveHead? || step.SUnlink? {
        RemovedPending(s, chain, chain');
      }
      SamePending(s, s', chain, chain');
    }
  }

  lemma PushedPending(s: State, s': State, t: Tid, chain: seq<Ptr>)
    requires Registry.Inv(s, chain) && Push(s, s', t) && !s.pc.Top?
    ensures Rest([s.threads[t].node] + chain, NextNode(s.pc)) == Rest(chain, NextNode(s.pc))
  {
    Registry.PushInv(s, s', t, chain);
    NextNodeInChain(s, chain);
    RestOfPushed(chain, s.threads[t].node, NextNode(s.pc));
  }

  // ---------------------------------------------------------------- one pass visits everything once

  lemma VisitedStep(s: State, s': State, step: Step, chain: seq<Ptr>, chain': seq<Ptr>)
    requires Registry.Inv(s, chain) && Does(s, s', step) && Registry.ListMoves(s, step, chain, chain')
    requires !s.pc.Top? && !s'.pc.Top?
    ensures s'.visited + Pending(s', chain') == s.visited + Pending(s, chain)
  {
    PlanStep(s, s', step, chain, chain');
    if step.SEnter? {
      VisitMoves(s.visited, s.heap[s.pc.node].ctx, Pending(s', chain'));
    } else {
      VisitedKept(s, s', step);
    }
  }

  lemma VisitMoves(visited: seq<Tid>, t: Tid, rest: seq<Tid>)
    ensures visited + [t] + rest == visited + ([t] + rest)
  {
  }

  lemma VisitedKept(s: State, s': State, step: Step)
    requires Does(s, s', step) && !step.SEnter? && !s.pc.Top?
    ensures s'.visited == s.visited
  {
  }

  /** From the head load at a to any later moment b of the same pass, the contexts already visited followed by
      those still to visit are exactly the contexts that were in the list at the head load, in list order. */
  lemma {:induction false} PassVisitsEachOnce(run: seq<State>, a: nat, b: nat, chain: seq<Ptr>) returns (now: seq<Ptr>)
    requires IsRun(run) && a < b < |run|
    requires run[a].pc.Top? && forall i :: a < i <= b ==> !run[i].pc.Top?
    requires Linked(run[a].heap, run[a].head, chain)
    ensures Registry.Inv(run[b], now)
    ensures run[b].visited + Pending(run[b], now) == Ctxs(run[a].heap, chain)
    ensures run[b].pc == Visit(NULL) ==> run[b].visited == Ctxs(run[a].heap, chain)
    decreases b
  {
    var s, s' := run[b - 1], run[b];
    var step := StepOf(run, b);
    if b == a + 1 {
      var before := Registry.RunInv(run, a);
      LinkedIsUnique(s.heap, s.head, chain, before);
      now := Registry.StepInv(s, s', step, before);
      PassStarts(s, s', step, before);
    } else {
      var before := PassVisitsEachOnce(run, a, b - 1, chain);
      now := Registry.StepInv(s, s', step, before);
      VisitedStep(s, s', step, before, now);
    }
    if s'.pc == Visit(NULL) {
      NextNodeInChain(s', now);
      RestOfNone(now, NULL);
    }
  }

  lemma PassStarts(s: State, s': State, step: Step, chain: seq<Ptr>)
    requires Registry.Inv(s, chain) && Does(s, s', step) && s.pc.Top? && !s'.pc.Top?
    ensures step.SLoadHead? && s'.visited == [] && s'.heap == s.heap && Pending(s', chain) == Ctxs(s.heap, chain)
  {
    if chain == [] {
      RestOfNone(chain, s.head);
    } else {
      RestAt(chain, 0);
    }
  }

  // ---------------------------------------------------------------- bounded wait

  /** When the backend leaves the reload of the write position, it has seen the newest publication. */
  ghost predicate FreshLoad(s: State, s': State) {
    forall t :: t in s.threads && t in s'.threads && s.threads[t].q.c.CReload? && !s'.threads[t].q.c.CReload? ==>
      s'.threads[t].q.seenW == |s.threads[t].q.committed|
  }

  /** A load of the liveness flag sees that the thread was killed. */
  ghost predicate FreshLiveness(s: State, s': State) {
    forall t :: s.pc.Liveness? && OnNode(s, t) && s.threads[t].phase == Dead ==> !s'.pc.Visit?
  }

  /** A step that finishes no reload loads nothing. */
  lemma NothingLoaded(s: State, s': State)
    requires forall t :: t in s.threads && t in s'.threads && s.threads[t].q.c.CReload? ==> s'.threads[t].q.c.CReload?
    ensures FreshLoad(s, s')
  {
  }

  ghost predicate FreshAt(run: seq<State>, i: nat) {
    0 < i < |run| && FreshLoad(run[i - 1], run[i])
  }

  /** All loads of write positions between two moments of a run see the newest publication. */
  ghost predicate FreshBetween(run: seq<State>, a: nat, b: nat) {
    forall i: nat :: a < i <= b ==> FreshAt(run, i)
  }

  ghost predicate Active(s: State, t: Tid) {
    && t in s.threads && (s.threads[t].phase == Running || s.threads[t].phase == Dead)
    && !Retirement.Retiring(s, t)
  }

  /** The current pass has not served thread t yet. */
  ghost predicate Waiting(s: State, t: Tid, chain: seq<Ptr>) {
    s.pc.Top? || t in Pending(s, chain) || Delivery.Reading(s, t)
  }

  function Read(s: State, t: Tid): nat {
    if t in s.threads then |s.threads[t].q.consumed| else 0
  }

  function Published(s: State, t: Tid): nat {
    if t in s.threads then |s.threads[t].q.committed| else 0
  }

  /** Since pass number p0, when c0 events of t were read, every finished pass has read one more, and the
      current pass has read one more or will still do so, until goal events are read. */
  ghost predicate OnSchedule(s: State, t: Tid, chain: seq<Ptr>, goal: nat, c0: nat, p0: nat) {
    && goal <= Published(s, t) && p0 <= s.passes
    && (Read(s, t) >= goal ||
        (Active(s, t) && (Read(s, t) >= c0 + (s.passes - p0) + 1
                          || (Read(s, t) >= c0 + (s.passes - p0) && Waiting(s, t, chain)))))
  }

  /** Reads and publications of a thread only grow, and a read is committed only while the backend is on the
      thread's node. */
  lemma CountsGrow(s: State, s': State, kind: Delivery.Kind, t: Tid)
    requires Delivery.Effect(s, s', kind) && t in s.threads
    ensures t in s'.threads && Published(s, t) <= Published(s', t)
    ensures Read(s', t) == Read(s, t) + (if kind == Delivery.Finish(t) then 1 else 0)
  {
    if kind.Produce? && kind.t == t {
      CommitsGrow(s.threads[t].q, s'.threads[t].q);
    }
  }

  lemma CommitsGrow(q: Spsc.State, q': Spsc.State)
    requires Spsc.ProducerNext(q, q')
    ensures |q.committed| <= |q'.committed|
  {
  }

  /** With fresh loads, only a thread whose events are all read can start to be retired. */
  lemma RetireNeedsEmpty(s: State, s': State, step: Step, t: Tid)
    requires Does(s, s', step) && t in s.threads && Delivery.QueueOk(s.threads[t]) && FreshLoad(s, s')
    requires Registry.CursorAllocated(s)
    requires !Retirement.Retiring(s, t) && Retirement.Retiring(s', t)
    ensures Read(s, t) == Published(s, t)
  {
    StartsByReload(s, s', step, t);
    Spsc.EmptyPollIsExact(s.threads[t].q, s'.threads[t].q, step.i);
    Spsc.NothingBeyondPublication(s.threads[t].q, step.i);
    assert s'.threads[t].q.seenW == step.i;
  }

  lemma StartsByReload(s: State, s': State, step: Step, t: Tid)
    requires Does(s, s', step) && t in s.threads && Registry.CursorAllocated(s)
    requires !Retirement.Retiring(s, t) && Retirement.Retiring(s', t)
    ensures step.SReload? && step.t == t && s'.threads[t].q.c.CIdle?
  {
    if Retirement.LifeStep(step) {
      LifeStartsNone(s, s', step, t);
    } else if Retirement.ReadStep(step) {
      ReadStartsNone(s, s', step, t);
    } else {
      RestStarts(s, s', step, t);
    }
  }

  lemma LifeStartsNone(s: State, s': State, step: Step, t: Tid)
    requires Does(s, s', step) && Retirement.LifeStep(step) && t in s.threads && Registry.CursorAllocated(s)
    requires !Retirement.Retiring(s, t)
    ensures !Retirement.Retiring(s', t)
  {
  }

  lemma ReadStartsNone(s: State, s': State, step: Step, t: Tid)
    requires Does(s, s', step) && Retirement.ReadStep(step) && t in s.threads
    requires !Retirement.Retiring(s, t)
    ensures !Retirement.Retiring(s', t)
  {
  }

  lemma RestStarts(s: State, s': State, step: Step, t: Tid)
    requires Does(s, s', step) && !Retirement.LifeStep(step) && !Retirement.ReadStep(step) && t in s.threads
    requires !Retirement.Retiring(s, t) && Retirement.Retiring(s', t)
    ensures step.SReload? && step.t == t && s'.threads[t].q.c.CIdle?
  {
  }

  lemma StaysActive(s: State, s': State, step: Step, t: Tid)
    requires Does(s, s', step) && Active(s, t) && !Retirement.Retiring(s', t)
    ensures Active(s', t)
  {
    PhaseKept(s, s', step, t);
  }

  lemma PhaseKept(s: State, s': State, step: Step, t: Tid)
    requires Does(s, s', step) && Active(s, t)
    ensures t in s'.threads && (s'.threads[t].phase == Running || s'.threads[t].phase == Dead)
  {
    if Retirement.LifeStep(step) {
    } else if Retirement.ReadStep(step) || step.SReload? || step.SBegin? || step.SContinue? {
      QueuePhase(s, s', step, t);
    } else {
    }
  }

  lemma QueuePhase(s: State, s': State, step: Step, t: Tid)
    requires Does(s, s', step) && t in s.threads
    requires Retirement.ReadStep(step) || step.SReload? || step.SBegin? || step.SContinue?
    ensures t in s'.threads && s'.threads[t].phase == s.threads[t].phase
  {
  }

  lemma InPlan(s: State, t: Tid, chain: seq<Ptr>)
    requires Registry.Inv(s, chain) && Active(s, t)
    ensures s.threads[t].node in chain && s.threads[t].node in s.heap && t in Ctxs(s.heap, chain)
  {
    var node := s.threads[t].node;
    assert Registry.Owns(s, t, node);
    assert Registry.Registered(s, node);
    var j: nat :| j < |chain| && chain[j] == node;
    assert Ctxs(s.heap, chain)[j] == t;
  }

  /** Where the passes are counted and where a pass begins. */
  lemma PassBoundaries(s: State, s': State, step: Step)
    requires Does(s, s', step)
    ensures s'.passes == s.passes + (if step.SEndPass? then 1 else 0)
    ensures step.SEndPass? ==> s.pc == Visit(NULL) && s'.pc.Top?
    ensures s.pc.Top? && !s'.pc.Top? ==> step.SLoadHead?
    ensures !s.pc.Top? && s'.pc.Top? ==> step.SEndPass?
  {
  }

  lemma EntersReading(s: State, s': State)
    requires Enter(s, s') && s.heap[s.pc.node].ctx in s.threads
    ensures Delivery.Reading(s', s.heap[s.pc.node].ctx)
  {
  }

  /** A read in progress goes on until it is committed, unless the thread starts to be retired. */
  lemma ReadingGoesOn(s: State, s': State, kind: Delivery.Kind, t: Tid)
    requires Delivery.Effect(s, s', kind) && Delivery.Reading(s, t) && s.pc.node in s'.heap
    requires kind != Delivery.Finish(t) && !Retirement.Retiring(s', t)
    ensures Delivery.Reading(s', t)
  {
  }

  /** With fresh loads a thread with unread events is not taken for retirement. */
  lemma UnreadIsKept(s: State, s': State, step: Step, t: Tid)
    requires Does(s, s', step) && t in s.threads && Delivery.Queues(s) && FreshLoad(s, s')
    requires Registry.CursorAllocated(s) && !Retirement.Retiring(s, t) && Read(s, t) < Published(s, t)
    ensures !Retirement.Retiring(s', t)
  {
    if Retirement.Retiring(s', t) {
      assert Delivery.QueueOk(s.threads[t]);
      RetireNeedsEmpty(s, s', step, t);
    }
  }

  ghost predicate WaitGoesOn(s: State, s': State, step: Step, kind: Delivery.Kind, t: Tid,
                             chain: seq<Ptr>, chain': seq<Ptr>) {
    Waiting(s, t, chain) && kind != Delivery.Finish(t) ==> Waiting(s', t, chain') && !step.SEndPass?
  }

  lemma ScheduleArithmetic(s: State, s': State, step: Step, kind: Delivery.Kind, t: Tid,
                           chain: seq<Ptr>, chain': seq<Ptr>, goal: nat, c0: nat, p0: nat)
    requires OnSchedule(s, t, chain, goal, c0, p0)
    requires Published(s, t) <= Published(s', t)
    requires Read(s', t) == Read(s, t) + (if kind == Delivery.Finish(t) then 1 else 0)
    requires s'.passes == s.passes + (if step.SEndPass? then 1 else 0)
    requires step.SEndPass? ==> s'.pc.Top? && kind != Delivery.Finish(t)
    requires Read(s, t) < goal ==> Active(s', t) && WaitGoesOn(s, s', step, kind, t, chain, chain')
    ensures OnSchedule(s', t, chain', goal, c0, p0)
  {
  }

  lemma EndIsNoFinish(s: State, s': State, step: Step, kind: Delivery.Kind, t: Tid)
    requires Does(s, s', step) && step.SEndPass? && Delivery.Effect(s, s', kind)
    ensures kind != Delivery.Finish(t)
  {
  }

  lemma ScheduleStep(s: State, s': State, step: Step, kind: Delivery.Kind, t: Tid,
                     chain: seq<Ptr>, chain': seq<Ptr>, goal: nat, c0: nat, p0: nat)
    requires OnSchedule(s, t, chain, goal, c0, p0) && t in s.threads
    requires Does(s, s', step) && Delivery.Effect(s, s', kind)
    requires Registry.Inv(s, chain) && Registry.ListMoves(s, step, chain, chain')
    requires Read(s, t) < goal ==> !Retirement.Retiring(s', t)
    ensures OnSchedule(s', t, chain', goal, c0, p0)
  {
    CountsGrow(s, s', kind, t);
    PassBoundaries(s, s', step);
    if step.SEndPass? {
      EndIsNoFinish(s, s', step, kind, t);
    }
    if Read(s, t) < goal {
      StaysActive(s, s', step, t);
      WaitingStep(s, s', step, kind, t, chain, chain');
    }
    ScheduleArithmetic(s, s', step, kind, t, chain, chain', goal, c0, p0);
  }

  /** At the end of a pass nobody waits any more. */
  lemma NobodyWaitsAtEnd(s: State, t: Tid, chain: seq<Ptr>)
    requires Registry.Inv(s, chain) && s.pc == Visit(NULL)
    ensures !Waiting(s, t, chain)
  {
    NextNodeInChain(s, chain);
    RestOfNone(chain, NULL);
  }

  lemma ReadingOrPlanned(s: State, s': State, step: Step, kind: Delivery.Kind, t: Tid, chain: seq<Ptr>, chain': seq<Ptr>)
    requires Does(s, s', step) && Delivery.Effect(s, s', kind)
    requires Registry.Inv(s, chain) && Registry.ListMoves(s, step, chain, chain')
    requires !s.pc.Top? && !s'.pc.Top? && Waiting(s, t, chain) && t in s.threads
    requires kind != Delivery.Finish(t) && !Retirement.Retiring(s', t)
    ensures Waiting(s', t, chain')
  {
    if Delivery.Reading(s, t) {
      HeapKept(s, s', step, chain);
      ReadingGoesOn(s, s', kind, t);
    } else {
      PlanStep(s, s', step, chain, chain');
      if step.SEnter? && s.heap[s.pc.node].ctx == t {
        EntersReading(s, s');
      }
    }
  }

  /** A thread that still waits in this pass keeps waiting until an event of it is read. */
  lemma WaitingStep(s: State, s': State, step: Step, kind: Delivery.Kind, t: Tid, chain: seq<Ptr>, chain': seq<Ptr>)
    requires Does(s, s', step) && Delivery.Effect(s, s', kind)
    requires Registry.Inv(s, chain) && Registry.ListMoves(s, step, chain, chain')
    requires Active(s, t) && Active(s', t)
    ensures WaitGoesOn(s, s', step, kind, t, chain, chain')
  {
    PassBoundaries(s, s', step);
    if step.SEndPass? {
      NobodyWaitsAtEnd(s, t, chain);
    } else if s.pc.Top? {
      if !s'.pc.Top? {
        PassStarts(s, s', step, chain);
        InPlan(s, t, chain);
        assert chain' == chain;
      }
    } else if Waiting(s, t, chain) && kind != Delivery.Finish(t) {
      ReadingOrPlanned(s, s', step, kind, t, chain, chain');
    }
  }

  lemma {:induction false} ScheduleRun(run: seq<State>, a: nat, b: nat, t: Tid, goal: nat) returns (chain: seq<Ptr>)
    requires IsRun(run) && a <= b < |run| && run[a].pc.Top? && Active(run[a], t)
    requires FreshBetween(run, a, b)
    requires goal <= Published(run[a], t)
    ensures Registry.Inv(run[b], chain)
    ensures t in run[b].threads && OnSchedule(run[b], t, chain, goal, Read(run[a], t), run[a].passes)
    decreases b
  {
    if a == b {
      chain := Registry.RunInv(run, a);
    } else {
      var before := ScheduleRun(run, a, b - 1, t, goal);
      Delivery.RunQueues(run, b - 1);
      assert StepAt(run, b) && FreshAt(run, b);
      chain := ScheduleNext(run[b - 1], run[b], t, before, goal, Read(run[a], t), run[a].passes);
    }
  }

  lemma ScheduleNext(s: State, s': State, t: Tid, chain: seq<Ptr>, goal: nat, c0: nat, p0: nat)
    returns (chain': seq<Ptr>)
    requires Next(s, s') && FreshLoad(s, s') && Delivery.Queues(s) && Registry.Inv(s, chain)
    requires t in s.threads && OnSchedule(s, t, chain, goal, c0, p0)
    ensures Registry.Inv(s', chain') && t in s'.threads && OnSchedule(s', t, chain', goal, c0, p0)
  {
    var step :| Does(s, s', step);
    var kind := Delivery.KindOf(s, s', step);
    CountsGrow(s, s', kind, t);
    KeptUntilRead(s, s', step, t, chain, goal, c0, p0);
    chain' := Registry.StepInv(s, s', step, chain);
    ScheduleStep(s, s', step, kind, t, chain, chain', goal, c0, p0);
  }

  lemma KeptUntilRead(s: State, s': State, step: Step, t: Tid, chain: seq<Ptr>, goal: nat, c0: nat, p0: nat)
    requires Does(s, s', step) && t in s.threads && Delivery.Queues(s) && FreshLoad(s, s')
    requires Registry.Inv(s, chain) && OnSchedule(s, t, chain, goal, c0, p0)
    ensures Read(s, t) < goal ==> !Retirement.Retiring(s', t)
  {
    if Read(s, t) < goal {
      CursorIsAllocated(s, chain);
      UnreadIsKept(s, s', step, t);
    }
  }

  lemma CursorIsAllocated(s: State, chain: seq<Ptr>)
    requires Registry.Inv(s, chain)
    ensures Registry.CursorAllocated(s)
  {
  }

  // ---------------------------------------------------------------- main result

  /** Bounded wait: if k unread events are ahead of an event in the queue of a registered thread when a pass
      starts, and loads see the newest publications, then once k + 1 passes are finished that event has been
      read, whatever other threads push, register or retire meanwhile. */
  lemma EventWaitsAtMost(run: seq<State>, a: nat, b: nat, t: Tid, k: nat)
    requires IsRun(run) && a <= b < |run|
    requires run[a].pc.Top? && t in run[a].threads && run[a].threads[t].phase in {Running, Dead}
    requires Read(run[a], t) + k < Published(run[a], t)
    requires FreshBetween(run, a, b)
    requires run[b].passes >= run[a].passes + k + 1
    ensures t in run[b].threads && Read(run[b], t) > Read(run[a], t) + k
  {
    var chain := ScheduleRun(run, a, b, t, Read(run[a], t) + k + 1);
  }
}
