/** The registry of thread contexts stays a well-formed list in every run of the logger. */
module Registry {
  import opened NodeList
  import opened Logger
  import Spsc

  // ---------------------------------------------------------------- invariant

  /** Node and thread agree on each other, and the context is not deleted yet. */
  ghost predicate Owns(s: State, t: Tid, node: Ptr) {
    && node in s.heap && s.heap[node].ctx == t
    && t in s.threads && s.threads[t].node == node && s.threads[t].phase != Retired
  }

  ghost predicate HeapOk(s: State) {
    && NULL !in s.heap
    && (forall a :: a in s.heap ==> Owns(s, s.heap[a].ctx, a))
    && (forall t :: t in s.threads && s.threads[t].phase != Retired ==> Owns(s, t, s.threads[t].node))
  }

  ghost predicate Unlinked(s: State, node: Ptr) {
    s.pc.Free? && s.pc.node == node
  }

  /** The context of this node is registered and not yet removed. */
  ghost predicate Registered(s: State, node: Ptr)
    requires HeapOk(s) && node in s.heap
  {
    var phase := s.threads[s.heap[node].ctx].phase;
    phase == Running || (phase == Dead && !Unlinked(s, node))
  }

  /** The list is well formed and holds every registered and not yet removed context exactly once, and
      nothing else. */
  ghost predicate Members(s: State, chain: seq<Ptr>)
    requires HeapOk(s)
  {
    && Linked(s.heap, s.head, chain) && Distinct(chain)
    && (forall a :: a in chain ==> a in s.heap)
    && (forall a :: a in s.heap ==> (a in chain <==> Registered(s, a)))
  }

  ghost predicate DeadNode(s: State, node: Ptr) {
    node in s.heap && Has(s, s.heap[node].ctx, Dead)
  }

  ghost predicate Current(s: State, chain: seq<Ptr>, node: Ptr, next: Ptr) {
    node in chain && node in s.heap && s.heap[node].next == next
  }

  /** What the backend holds in its local pointers. */
  ghost predicate Cursor(s: State, chain: seq<Ptr>) {
    match s.pc
    case Top => true
    case Visit(node) => node == NULL || node in chain
    case Poll(node, next) => Current(s, chain, node, next)
    case Commit(node, next) => Current(s, chain, node, next)
    case Liveness(node, next) => Current(s, chain, node, next)
    case RemoveCas(node, next) => Current(s, chain, node, next) && DeadNode(s, node)
    case Walk(node, next, prev, cur) =>
      && Current(s, chain, node, next) && DeadNode(s, node)
      && Walking(chain, node, prev, cur)
    case Free(node, next) => DeadNode(s, node) && node !in chain && (next == NULL || next in chain)
  }

  ghost predicate Inv(s: State, chain: seq<Ptr>) {
    HeapOk(s) && Members(s, chain) && Cursor(s, chain)
  }

  // ---------------------------------------------------------------- preservation

  /** Same nodes, same head, and every thread keeps its node and its phase. */
  ghost predicate SameRegistry(s: State, s': State) {
    && s'.heap == s.heap && s'.head == s.head && s'.threads.Keys == s.threads.Keys
    && forall t :: t in s.threads ==>
         s'.threads[t].node == s.threads[t].node && s'.threads[t].phase == s.threads[t].phase
  }

  lemma QuietInv(s: State, s': State, chain: seq<Ptr>)
    requires Inv(s, chain) && SameRegistry(s, s')
    requires s.pc.Free? || s'.pc.Free? ==> s'.pc == s.pc
    requires Cursor(s', chain)
    ensures Inv(s', chain)
  {
    forall a | a in s'.heap ensures Owns(s', s'.heap[a].ctx, a) {
      assert Owns(s, s.heap[a].ctx, a);
    }
    forall t | t in s'.threads && s'.threads[t].phase != Retired ensures Owns(s', t, s'.threads[t].node) {
      assert Owns(s, t, s.threads[t].node);
    }
    assert HeapOk(s');
    forall a | a in s'.heap ensures a in chain <==> Registered(s', a) {
      assert a in chain <==> Registered(s, a);
    }
  }

  lemma NextInChain(s: State, chain: seq<Ptr>, node: Ptr)
    requires HeapOk(s) && Members(s, chain) && node in chain
    ensures s.heap[node].next == NULL || s.heap[node].next in chain
  {
    var i :| 0 <= i < |chain| && chain[i] == node;
    LinkOf(s.heap, s.head, chain, i);
  }

  lemma AllocateInv(s: State, s': State, t: Tid, node: Ptr, capacity: nat, chain: seq<Ptr>)
    requires Inv(s, chain) && Allocate(s, s', t, node, capacity)
    ensures Inv(s', chain)
  {
    forall a | a in s'.heap ensures Owns(s', s'.heap[a].ctx, a) {
      if a != node {
        assert Owns(s, s.heap[a].ctx, a);
      }
    }
    forall t' | t' in s'.threads && s'.threads[t'].phase != Retired ensures Owns(s', t', s'.threads[t'].node) {
      if t' != t {
        assert Owns(s, t', s.threads[t'].node);
      }
    }
    assert HeapOk(s');
    LinkedFrame(s.heap, s'.heap, s.head, chain);
    forall a | a in s'.heap ensures a in chain <==> Registered(s', a) {
      if a != node {
        assert a in chain <==> Registered(s, a);
      }
    }
    assert Cursor(s', chain);
  }

  lemma PushInv(s: State, s': State, t: Tid, chain: seq<Ptr>)
    requires Inv(s, chain) && Push(s, s', t)
    ensures Inv(s', [s.threads[t].node] + chain)
  {
    var node := s.threads[t].node;
    assert Owns(s, t, node);
    assert node !in chain by {
      assert !Registered(s, node);
    }
    PushFront(s.heap, s.head, chain, node);
    var chain' := [node] + chain;
    forall a | a in s'.heap ensures Owns(s', s'.heap[a].ctx, a) {
      assert Owns(s, s.heap[a].ctx, a);
    }
    forall t' | t' in s'.threads && s'.threads[t'].phase != Retired ensures Owns(s', t', s'.threads[t'].node) {
      assert Owns(s, t', s.threads[t'].node);
    }
    assert HeapOk(s');
    forall a | a in s'.heap ensures a in chain' <==> Registered(s', a) {
      assert Owns(s, s.heap[a].ctx, a);
      assert a in chain <==> Registered(s, a);
    }
    PushCursor(s, s', t, chain);
  }

  lemma PushCursor(s: State, s': State, t: Tid, chain: seq<Ptr>)
    requires Inv(s, chain) && Push(s, s', t)
    ensures Cursor(s', [s.threads[t].node] + chain)
  {
    var node := s.threads[t].node;
    var chain' := [node] + chain;
    assert Owns(s, t, node);
    if s.pc.Walk? {
      WalkSurvivesPush(chain, s.pc.node, s.pc.prev, s.pc.cur, node);
    }
  }

  lemma PushFailsInv(s: State, s': State, t: Tid, chain: seq<Ptr>)
    requires Inv(s, chain) && PushFails(s, s', t)
    ensures Inv(s', chain)
  {
    var node := s.threads[t].node;
    assert node !in chain by {
      assert Owns(s, t, node) && !Registered(s, node);
    }
    forall a | a in s'.heap ensures Owns(s', s'.heap[a].ctx, a) {
      assert Owns(s, s.heap[a].ctx, a);
    }
    forall t' | t' in s'.threads && s'.threads[t'].phase != Retired ensures Owns(s', t', s'.threads[t'].node) {
      assert Owns(s, t', s.threads[t'].node);
    }
    assert HeapOk(s');
    LinkedFrame(s.heap, s'.heap, s.head, chain);
    forall a | a in s'.heap ensures a in chain <==> Registered(s', a) {
      assert a in chain <==> Registered(s, a);
    }
    assert Cursor(s', chain);
  }

  lemma KillInv(s: State, s': State, t: Tid, chain: seq<Ptr>)
    requires Inv(s, chain) && Kill(s, s', t)
    ensures Inv(s', chain)
  {
    forall a | a in s'.heap ensures Owns(s', s'.heap[a].ctx, a) {
      assert Owns(s, s.heap[a].ctx, a);
    }
    forall t' | t' in s'.threads && s'.threads[t'].phase != Retired ensures Owns(s', t', s'.threads[t'].node) {
      assert Owns(s, t', s.threads[t'].node);
    }
    assert HeapOk(s');
    forall a | a in s'.heap ensures a in chain <==> Registered(s', a) {
      assert a in chain <==> Registered(s, a);
    }
    assert Cursor(s', chain);
  }

  lemma FindNode(chain: seq<Ptr>, node: Ptr) returns (j: nat)
    requires node in chain
    ensures j < |chain| && chain[j] == node
  {
    j :| 0 <= j < |chain| && chain[j] == node;
  }

  /** The compare-and-swap on the head takes out exactly the node, which then is the first of the list. */
  lemma RemoveHeadInv(s: State, s': State, chain: seq<Ptr>)
    requires Inv(s, chain) && RemoveHead(s, s')
    ensures chain != [] && chain[0] == s.pc.node
    ensures Inv(s', Without(chain, 0))
  {
    UnlinkHead(s.heap, s.head, chain);
    assert Without(chain, 0) == chain[1..];
    TakenOut(s, s', chain, 0);
  }

  /** The walk takes out exactly the node, wherever newer pushes have displaced it to. */
  lemma UnlinkInv(s: State, s': State, chain: seq<Ptr>) returns (j: nat)
    requires Inv(s, chain) && Unlink(s, s')
    ensures j < |chain| && chain[j] == s.pc.node
    ensures Inv(s', Without(chain, j))
  {
    j := WalkArrives(s.heap, s.head, chain, s.pc.node, s.pc.prev);
    UnlinkMiddle(s.heap, s.head, chain, j);
    TakenOut(s, s', chain, j);
  }

  lemma TakenOut(s: State, s': State, chain: seq<Ptr>, j: nat)
    requires Inv(s, chain)
    requires s.pc.RemoveCas? || s.pc.Walk?
    requires j < |chain| && chain[j] == s.pc.node
    requires s'.pc == Free(s.pc.node, s.pc.next) && s'.threads == s.threads && s'.heap.Keys == s.heap.Keys
    requires forall a :: a in s.heap ==> s'.heap[a].ctx == s.heap[a].ctx
    requires Linked(s'.heap, s'.head, Without(chain, j))
    ensures Inv(s', Without(chain, j))
  {
    var chain' := Without(chain, j);
    WithoutDistinct(chain, j);
    forall a | a in s'.heap ensures Owns(s', s'.heap[a].ctx, a) {
      assert Owns(s, s.heap[a].ctx, a);
    }
    forall t' | t' in s'.threads && s'.threads[t'].phase != Retired ensures Owns(s', t', s'.threads[t'].node) {
      assert Owns(s, t', s.threads[t'].node);
    }
    assert HeapOk(s');
    forall a | a in s'.heap ensures a in chain' <==> Registered(s', a) {
      assert a in chain <==> Registered(s, a);
    }
    NextInChain(s, chain, s.pc.node);
    LinkOf(s.heap, s.head, chain, j);
    assert s.pc.next != s.pc.node;
  }

  lemma FreeNodeInv(s: State, s': State, t: Tid, chain: seq<Ptr>)
    requires Inv(s, chain) && FreeNode(s, s', t)
    ensures Inv(s', chain)
  {
    var node := s.pc.node;
    forall a | a in s'.heap ensures Owns(s', s'.heap[a].ctx, a) {
      assert Owns(s, s.heap[a].ctx, a);
    }
    forall t' | t' in s'.threads && s'.threads[t'].phase != Retired ensures Owns(s', t', s'.threads[t'].node) {
      assert Owns(s, t', s.threads[t'].node);
    }
    assert HeapOk(s');
    LinkedFrame(s.heap, s'.heap, s.head, chain);
    forall a | a in s'.heap ensures a in chain <==> Registered(s', a) {
      assert a in chain <==> Registered(s, a);
    }
  }

  /** The walk never runs off the list: the node is always found, and with a predecessor. */
  lemma WalkFinds(s: State, chain: seq<Ptr>)
    requires Linked(s.heap, s.head, chain) && Distinct(chain) && s.pc.Walk? && Walking(chain, s.pc.node, s.pc.prev, s.pc.cur)
    ensures s.pc.cur != NULL && s.pc.cur in s.heap
    ensures s.pc.cur == s.pc.node ==> s.pc.prev != NULL && s.pc.prev in s.heap
  {
    if s.pc.cur == s.pc.node {
      var j := WalkArrives(s.heap, s.head, chain, s.pc.node, s.pc.prev);
    } else {
      WalkAdvances(s.heap, s.head, chain, s.pc.node, s.pc.prev, s.pc.cur);
    }
  }

  /** Each step of the walk leaves less of the list ahead. */
  lemma WalkShortens(s: State, s': State, chain: seq<Ptr>)
    requires Linked(s.heap, s.head, chain) && Distinct(chain) && WalkNext(s, s')
    requires Walking(chain, s.pc.node, s.pc.prev, s.pc.cur)
    ensures |Rest(chain, s'.pc.cur)| < |Rest(chain, s.pc.cur)|
  {
    WalkInChain(chain, s.pc.node, s.pc.prev, s.pc.cur);
    RestStep(s.heap, s.head, chain, s.pc.cur);
  }

  ghost predicate Structural(step: Step) {
    step.SAllocate? || step.SPush? || step.SPushFails? || step.SKill? || step.SRemoveHead? || step.SUnlink? || step.SFree?
  }

  lemma QuietStep(s: State, s': State, step: Step)
    requires Does(s, s', step) && !Structural(step)
    ensures SameRegistry(s, s')
    ensures s.pc.Free? || s'.pc.Free? ==> s'.pc == s.pc
  {
  }

  ghost predicate WalkStep(step: Step) {
    step.SWalkNext? || step.SRemoveMiss? || step.SWalkNotFound?
  }

  lemma WalkStepCursor(s: State, s': State, step: Step, chain: seq<Ptr>)
    requires Inv(s, chain) && Does(s, s', step) && WalkStep(step)
    ensures Cursor(s', chain)
  {
    match step
    case SWalkNext => WalkAdvances(s.heap, s.head, chain, s.pc.node, s.pc.prev, s.pc.cur);
    case SRemoveMiss => WalkStarts(chain, s.pc.node, s.head);
    case SWalkNotFound => WalkFinds(s, chain);
  }

  lemma QuietCursor(s: State, s': State, step: Step, chain: seq<Ptr>)
    requires Inv(s, chain) && Does(s, s', step) && !Structural(step) && !WalkStep(step)
    ensures Cursor(s', chain)
  {
    QuietStep(s, s', step);
    if step.SCommit? || step.SAlive? {
      NextInChain(s, chain, s.pc.node);
    } else if step.SLoadHead? {
      assert chain != [] ==> chain[0] == s.head;
    }
  }

  lemma QuietStepInv(s: State, s': State, step: Step, chain: seq<Ptr>)
    requires Inv(s, chain) && Does(s, s', step) && !Structural(step)
    ensures Inv(s', chain)
  {
    QuietStep(s, s', step);
    if WalkStep(step) {
      WalkStepCursor(s, s', step, chain);
    } else {
      QuietCursor(s, s', step, chain);
    }
    QuietInv(s, s', chain);
  }

  ghost predicate TakesOut(chain: seq<Ptr>, node: Ptr, chain': seq<Ptr>) {
    exists j: nat :: j < |chain| && chain[j] == node && chain' == Without(chain, j)
  }

  /** How a step moves the list: a push at the front, a removal of the current node, or not at all. */
  ghost predicate ListMoves(s: State, step: Step, chain: seq<Ptr>, chain': seq<Ptr>) {
    if step.SPush? then step.t in s.threads && chain' == [s.threads[step.t].node] + chain
    else if step.SRemoveHead? || step.SUnlink? then !s.pc.Top? && TakesOut(chain, s.pc.node, chain')
    else chain' == chain
  }

  /** The list the registry holds after a step. */
  lemma StepInv(s: State, s': State, step: Step, chain: seq<Ptr>) returns (chain': seq<Ptr>)
    requires Inv(s, chain) && Does(s, s', step)
    ensures Inv(s', chain') && ListMoves(s, step, chain, chain')
  {
    if !Structural(step) {
      QuietStepInv(s, s', step, chain);
      return chain;
    }
    match step
    case SPush(t) =>
      PushInv(s, s', t, chain);
      chain' := [s.threads[t].node] + chain;
    case SRemoveHead =>
      RemoveHeadInv(s, s', chain);
      chain' := Without(chain, 0);
    case SUnlink =>
      var j := UnlinkInv(s, s', chain);
      chain' := Without(chain, j);
    case SAllocate(t, node, capacity) =>
      AllocateInv(s, s', t, node, capacity, chain);
      chain' := chain;
    case SPushFails(t) =>
      PushFailsInv(s, s', t, chain);
      chain' := chain;
    case SKill(t) =>
      KillInv(s, s', t, chain);
      chain' := chain;
    case SFree(t) =>
      FreeNodeInv(s, s', t, chain);
      chain' := chain;
  }

  lemma {:induction false} RunInv(run: seq<State>, i: nat) returns (chain: seq<Ptr>)
    requires IsRun(run) && i < |run|
    ensures Inv(run[i], chain)
    decreases i
  {
    if i == 0 {
      chain := [];
    } else {
      var before := RunInv(run, i - 1);
      var step := StepOf(run, i);
      chain := StepInv(run[i - 1], run[i], step, before);
    }
  }

  /** The node under the cursor is allocated. */
  ghost predicate CursorAllocated(s: State) {
    !s.pc.Top? && !s.pc.Visit? ==> s.pc.node in s.heap
  }

  lemma RunHeap(run: seq<State>, i: nat)
    requires IsRun(run) && i < |run|
    ensures HeapOk(run[i]) && CursorAllocated(run[i])
  {
    var chain := RunInv(run, i);
  }

  // ---------------------------------------------------------------- main results

  /** In every reachable state the registry is one acyclic list that ends in null and holds each registered
      and not yet removed context exactly once. */
  lemma ListIsCorrect(run: seq<State>, i: nat) returns (chain: seq<Ptr>)
    requires IsRun(run) && i < |run|
    ensures var s := run[i];
      && Linked(s.heap, s.head, chain) && Distinct(chain)
      && (forall t :: t in s.threads && s.threads[t].phase == Running ==> s.threads[t].node in chain)
      && (forall t :: t in s.threads && s.threads[t].phase == Dead && !Unlinked(s, s.threads[t].node) ==>
            s.threads[t].node in chain)
      && (forall a :: a in chain ==>
            && a in s.heap && s.heap[a].ctx in s.threads
            && s.threads[s.heap[a].ctx].node == a && s.threads[s.heap[a].ctx].phase in {Running, Dead})
  {
    chain := RunInv(run, i);
    var s := run[i];
    forall t | t in s.threads && s.threads[t].phase in {Running, Dead} ensures Owns(s, t, s.threads[t].node) {
    }
    forall a | a in chain ensures Registered(s, a) && Owns(s, s.heap[a].ctx, a) {
    }
  }

  /** No step ever follows a freed pointer: every node the backend is about to dereference is allocated,
      its context is not deleted, the saved next is still in the list, and the removal always finds its node
      with a predecessor to redirect. */
  lemma NoDanglingPointer(run: seq<State>, i: nat)
    requires IsRun(run) && i < |run|
    ensures var s := run[i];
      && (s.pc.Visit? && s.pc.node != NULL ==> s.pc.node in s.heap)
      && (!s.pc.Top? && !s.pc.Visit? ==>
            && s.pc.node in s.heap && OnNode(s, s.heap[s.pc.node].ctx)
            && s.threads[s.heap[s.pc.node].ctx].phase != Retired
            && (s.pc.next == NULL || s.pc.next in s.heap) && s.pc.next != s.pc.node)
      && (s.pc.Walk? ==> s.pc.cur in s.heap && (s.pc.cur == s.pc.node ==> s.pc.prev in s.heap))
      && (forall t :: Has(s, t, Registering) ==> s.threads[t].node in s.heap)
  {
    var s := run[i];
    var chain := RunInv(run, i);
    if s.pc.Walk? {
      WalkFinds(s, chain);
    }
    if !s.pc.Top? && !s.pc.Visit? {
      assert Owns(s, s.heap[s.pc.node].ctx, s.pc.node);
      if !s.pc.Free? {
        NextInChain(s, chain, s.pc.node);
        var j := FindNode(chain, s.pc.node);
        LinkOf(s.heap, s.head, chain, j);
      }
    }
    forall t | Has(s, t, Registering) ensures s.threads[t].node in s.heap {
      assert Owns(s, t, s.threads[t].node);
    }
  }

  /** Removal takes exactly the given node out of the list, whether by the swap of the head or behind
      newer pushes, and leaves every other node in its order. */
  lemma RemovalTakesOutOneNode(s: State, s': State, chain: seq<Ptr>) returns (j: nat)
    requires Inv(s, chain) && (RemoveHead(s, s') || Unlink(s, s'))
    ensures j < |chain| && chain[j] == s.pc.node
    ensures Linked(s'.heap, s'.head, Without(chain, j)) && s.pc.node !in Without(chain, j)
  {
    if RemoveHead(s, s') {
      RemoveHeadInv(s, s', chain);
      j := 0;
    } else {
      j := UnlinkInv(s, s', chain);
    }
    WithoutDistinct(chain, j);
  }

  // ---------------------------------------------------------------- registration comes to its end

  lemma CanPush(s: State, t: Tid)
    requires Has(s, t, Registering) && s.threads[t].node in s.heap && s.heap[s.threads[t].node].next == s.head
    ensures exists s' :: Push(s, s', t) && Has(s', t, Running)
  {
    var th := s.threads[t];
    assert Push(s, SetThread(s, t, th.(phase := Running)).(head := th.node), t);
  }

  /** A failed compare-and-swap leaves the thread ready for the next attempt, which succeeds unless the head changes
      again before it. */
  lemma NextAttemptCanSucceed(s: State, s': State, t: Tid)
    requires PushFails(s, s', t)
    ensures s'.heap[s.threads[t].node].next == s.head == s'.head && s'.threads == s.threads
    ensures exists s'' :: Push(s', s'', t) && Has(s'', t, Running)
  {
    CanPush(s', t);
  }

  /** So does the first attempt, if the head does not change after it was loaded. */
  lemma FirstAttemptCanSucceed(s: State, s': State, t: Tid, node: Ptr, capacity: nat)
    requires Allocate(s, s', t, node, capacity)
    ensures exists s'' :: Push(s', s'', t) && Has(s'', t, Running)
  {
    CanPush(s', t);
  }

  /** From every state of every run a registering thread can finish its registration by its own steps: by its swap, if
      the head is still the one it loaded, and else by one failed swap and a successful one. */
  lemma RegistrationCanFinish(run: seq<State>, i: nat, t: Tid) returns (mid: State, s': State)
    requires IsRun(run) && i < |run| && Has(run[i], t, Registering)
    ensures mid == run[i] || PushFails(run[i], mid, t)
    ensures Push(mid, s', t) && Has(s', t, Running) && s'.head == s'.threads[t].node
  {
    NoDanglingPointer(run, i);
    var s := run[i];
    var node := s.threads[t].node;
    mid := s;
    if s.heap[node].next != s.head {
      mid := s.(heap := s.heap[node := s.heap[node].(next := s.head)]);
    }
    CanPush(mid, t);
    s' :| Push(mid, s', t) && Has(s', t, Running);
  }
}
