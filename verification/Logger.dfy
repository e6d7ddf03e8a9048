/** The whole logger as a transition system: any number of producer threads that register, log and die, one
    backend thread that polls their queues and retires dead ones, level and formatter changes in between.

    Each access to shared memory is a step of its own. Queues are Spsc states, so queue positions may be
    read stale; the registry head is read and written sequentially consistently. Freed node addresses may
    be handed out again, and a weak compare-and-swap may fail at any time. */
module Logger {
  import opened Words
  import opened Framing
  import opened NodeList
  import Spsc

  // ---------------------------------------------------------------- state

  /** What is fixed for a program: its call sites, and how a formatter turns an event into a line. */
  datatype Config = Config(sites: Sites, render: (nat, Event) -> string)

  datatype Phase = Registering | Running | Dead | Retired

  /** History of the latest reload of the write position by the backend: which publication it observed,
      how many there were, and whether the thread was already dead. */
  datatype Load = Load(observed: nat, published: nat, dead: bool)

  /** A thread with its context. atLiveness is history: how many events were committed when the backend
      last loaded the liveness flag. */
  datatype Thread = Thread(phase: Phase, node: Ptr, q: Spsc.State, load: Load, atLiveness: nat)

  /** Program counter of the backend thread inside and between poll passes. */
  datatype Pc =
    | Top                                           // between passes
    | Visit(node: Ptr)                              // loop test of poll_threads
    | Poll(node: Ptr, next: Ptr)                    // reserve_read and copying the event
    | Commit(node: Ptr, next: Ptr)                  // event processed, read not yet committed
    | Liveness(node: Ptr, next: Ptr)                // queue looked empty
    | RemoveCas(node: Ptr, next: Ptr)               // thread is dead, try to swing the head
    | Walk(node: Ptr, next: Ptr, prev: Ptr, cur: Ptr)
    | Free(node: Ptr, next: Ptr)                    // unlinked, about to be deleted

  /** One processed event, with the minimum level and the formatter in force when it was processed. */
  datatype Entry = Entry(t: Tid, event: Event, level: nat, formatter: nat)

  datatype State = State(
    cfg: Config,
    heap: Heap, head: Ptr,
    threads: map<Tid, Thread>,
    level: nat, formatter: nat,
    pc: Pc,
    out: seq<string>,                               // lines handed to the sink
    log: seq<Entry>,                                // history: every processed event
    passes: nat, visited: seq<Tid>)                 // history: finished passes, contexts visited in this pass

  ghost predicate Init(s: State) {
    && s.heap == map[] && s.head == NULL && s.threads == map[]
    && s.pc == Top && s.out == [] && s.log == [] && s.passes == 0 && s.visited == []
  }

  // ---------------------------------------------------------------- steps of the logging threads

  ghost predicate Has(s: State, t: Tid, phase: Phase) {
    t in s.threads && s.threads[t].phase == phase
  }

  function SetThread(s: State, t: Tid, thread: Thread): State {
    s.(threads := s.threads[t := thread])
  }

  /** Allocate context and node at any unused address, and load the head. */
  ghost predicate Allocate(s: State, s': State, t: Tid, node: Ptr, capacity: nat) {
    && t !in s.threads && node != NULL && node !in s.heap && 2 * BitCeil(capacity) < TWO_64
    && s' == SetThread(s, t, Thread(Registering, node, Spsc.Init(EventFrame(), capacity), Load(0, 0, false), 0))
             .(heap := s.heap[node := Node(t, s.head)])
  }

  ghost predicate Push(s: State, s': State, t: Tid) {
    && Has(s, t, Registering)
    && var th := s.threads[t];
    && th.node in s.heap && s.heap[th.node].next == s.head
    && s' == SetThread(s, t, th.(phase := Running)).(head := th.node)
  }

  /** The weak compare-and-swap failed, for real or spuriously; it reloads the head into node->next. */
  ghost predicate PushFails(s: State, s': State, t: Tid) {
    && Has(s, t, Registering)
    && var node := s.threads[t].node;
    && node in s.heap
    && s' == s.(heap := s.heap[node := s.heap[node].(next := s.head)])
  }

  /** Only the queue of thread t changed. */
  ghost predicate QueueOnly(s: State, s': State, t: Tid) {
    && t in s.threads && t in s'.threads
    && s' == SetThread(s, t, s.threads[t].(q := s'.threads[t].q))
  }

  ghost predicate BeginEvent(s: State, s': State, t: Tid, e: Event) {
    && Has(s, t, Running) && ValidEvent(s.cfg.sites, e) && QueueOnly(s, s', t)
    && Spsc.Begin(s.threads[t].q, s'.threads[t].q, EncodeEvent(e))
  }

  ghost predicate ContinueEvent(s: State, s': State, t: Tid) {
    && Has(s, t, Running) && QueueOnly(s, s', t)
    && var q, q' := s.threads[t].q, s'.threads[t].q;
    && ((exists i :: Spsc.ReloadR(q, q', i)) || Spsc.CopyIn(q, q') || Spsc.CommitWrite(q, q'))
  }

  ghost predicate Kill(s: State, s': State, t: Tid) {
    && Has(s, t, Running) && s.threads[t].q.p.PIdle?
    && s' == SetThread(s, t, s.threads[t].(phase := Dead))
  }

  ghost predicate SetLevel(s: State, s': State, level: nat) {
    s' == s.(level := level)
  }

  // ---------------------------------------------------------------- steps of the backend

  ghost predicate SwitchFormatter(s: State, s': State, formatter: nat) {
    && s.pc == Top
    && s' == s.(formatter := formatter)
  }

  ghost predicate LoadHead(s: State, s': State) {
    && s.pc == Top
    && s' == s.(pc := Visit(s.head), visited := [])
  }

  ghost predicate EndPass(s: State, s': State) {
    && s.pc == Visit(NULL)
    && s' == s.(pc := Top, passes := s.passes + 1)
  }

  /** Read node->next, then turn to the node's queue. */
  ghost predicate Enter(s: State, s': State) {
    && s.pc.Visit? && s.pc.node != NULL && s.pc.node in s.heap
    && var n := s.heap[s.pc.node];
    && s' == s.(pc := Poll(s.pc.node, n.next), visited := s.visited + [n.ctx])
  }

  /** The backend is at pc on a node of the heap, whose thread is t. */
  ghost predicate OnNode(s: State, t: Tid) {
    && !s.pc.Top? && s.pc.node in s.heap && s.heap[s.pc.node].ctx == t && t in s.threads
  }

  ghost predicate PollCheck(s: State, s': State, t: Tid) {
    && s.pc.Poll? && OnNode(s, t) && QueueOnly(s, s', t)
    && Spsc.CheckEmpty(s.threads[t].q, s'.threads[t].q)
  }

  ghost predicate PollReload(s: State, s': State, t: Tid, i: nat) {
    && s.pc.Poll? && OnNode(s, t) && t in s'.threads
    && var th, q' := s.threads[t], s'.threads[t].q;
    && Spsc.ReloadW(th.q, q', i)
    && s' == SetThread(s, t, th.(q := q', load := Load(i, |th.q.committed|, th.phase.Dead?)))
             .(pc := if q'.c.CIdle? then Liveness(s.pc.node, s.pc.next) else s.pc)
  }

  ghost predicate PollCopy(s: State, s': State, t: Tid) {
    && s.pc.Poll? && OnNode(s, t) && QueueOnly(s, s', t)
    && Spsc.CopyOut(s.threads[t].q, s'.threads[t].q)
  }

  /** Lines produced by one entry: none below the minimum level. */
  function LinesOf(cfg: Config, entry: Entry): seq<string> {
    if entry.event.site in cfg.sites && cfg.sites[entry.event.site].level < entry.level then []
    else [cfg.render(entry.formatter, entry.event)]
  }

  /** Decode the copied event, load the minimum level, and write the line unless it is below. */
  ghost predicate Emit(s: State, s': State, t: Tid) {
    && s.pc.Poll? && OnNode(s, t)
    && var c := s.threads[t].q.c;
    && c.CCopy? && !Spsc.Wants(s.threads[t].q.frame, c.got)
    && var d := DecodeEvent(s.cfg.sites, c.got);
    && d.Some?
    && var entry := Entry(t, d.value.0, s.level, s.formatter);
    && s' == s.(pc := Commit(s.pc.node, s.pc.next), log := s.log + [entry], out := s.out + LinesOf(s.cfg, entry))
  }

  ghost predicate CommitEvent(s: State, s': State, t: Tid) {
    && s.pc.Commit? && OnNode(s, t) && t in s'.threads
    && Spsc.CommitRead(s.threads[t].q, s'.threads[t].q)
    && s' == SetThread(s, t, s.threads[t].(q := s'.threads[t].q)).(pc := Visit(s.pc.next))
  }

  /** The load may be stale and still see a killed thread as alive, but not the other way around. */
  ghost predicate LoadAlive(s: State, s': State, t: Tid, alive: bool) {
    && s.pc.Liveness? && OnNode(s, t)
    && (!alive ==> s.threads[t].phase == Dead)
    && s' == SetThread(s, t, s.threads[t].(atLiveness := |s.threads[t].q.committed|))
             .(pc := if alive then Visit(s.pc.next) else RemoveCas(s.pc.node, s.pc.next))
  }

  ghost predicate RemoveHead(s: State, s': State) {
    && s.pc.RemoveCas? && s.head == s.pc.node && s.pc.node in s.heap
    && s' == s.(head := s.heap[s.pc.node].next, pc := Free(s.pc.node, s.pc.next))
  }

  ghost predicate RemoveMiss(s: State, s': State) {
    && s.pc.RemoveCas? && s.head != s.pc.node
    && s' == s.(pc := Walk(s.pc.node, s.pc.next, NULL, s.head))
  }

  ghost predicate WalkNext(s: State, s': State) {
    && s.pc.Walk? && s.pc.cur != NULL && s.pc.cur != s.pc.node && s.pc.cur in s.heap
    && s' == s.(pc := Walk(s.pc.node, s.pc.next, s.pc.cur, s.heap[s.pc.cur].next))
  }

  ghost predicate WalkNotFound(s: State, s': State) {
    && s.pc.Walk? && s.pc.cur == NULL
    && s' == s.(pc := Visit(s.pc.next))
  }

  ghost predicate Unlink(s: State, s': State) {
    && s.pc.Walk? && s.pc.cur == s.pc.node && s.pc.cur != NULL
    && s.pc.prev in s.heap && s.pc.cur in s.heap
    && s' == s.(heap := s.heap[s.pc.prev := s.heap[s.pc.prev].(next := s.heap[s.pc.cur].next)],
                pc := Free(s.pc.node, s.pc.next))
  }

  /** Delete the context and the node; the address may be allocated again. */
  ghost predicate FreeNode(s: State, s': State, t: Tid) {
    && s.pc.Free? && OnNode(s, t)
    && s' == SetThread(s, t, s.threads[t].(phase := Retired)).(heap := s.heap - {s.pc.node}, pc := Visit(s.pc.next))
  }

  datatype Step =
    | SAllocate(t: Tid, node: Ptr, capacity: nat) | SPush(t: Tid) | SPushFails(t: Tid)
    | SBegin(t: Tid, e: Event) | SContinue(t: Tid) | SKill(t: Tid) | SLevel(level: nat)
    | SFormatter(formatter: nat) | SLoadHead | SEndPass | SEnter
    | SCheck(t: Tid) | SReload(t: Tid, i: nat) | SCopy(t: Tid) | SEmit(t: Tid) | SCommit(t: Tid)
    | SAlive(t: Tid, alive: bool) | SRemoveHead | SRemoveMiss | SWalkNext | SWalkNotFound | SUnlink | SFree(t: Tid)

  ghost predicate Does(s: State, s': State, step: Step) {
    match step
    case SAllocate(t, node, capacity) => Allocate(s, s', t, node, capacity)
    case SPush(t) => Push(s, s', t)
    case SPushFails(t) => PushFails(s, s', t)
    case SBegin(t, e) => BeginEvent(s, s', t, e)
    case SContinue(t) => ContinueEvent(s, s', t)
    case SKill(t) => Kill(s, s', t)
    case SLevel(level) => SetLevel(s, s', level)
    case SFormatter(formatter) => SwitchFormatter(s, s', formatter)
    case SLoadHead => LoadHead(s, s')
    case SEndPass => EndPass(s, s')
    case SEnter => Enter(s, s')
    case SCheck(t) => PollCheck(s, s', t)
    case SReload(t, i) => PollReload(s, s', t, i)
    case SCopy(t) => PollCopy(s, s', t)
    case SEmit(t) => Emit(s, s', t)
    case SCommit(t) => CommitEvent(s, s', t)
    case SAlive(t, alive) => LoadAlive(s, s', t, alive)
    case SRemoveHead => RemoveHead(s, s')
    case SRemoveMiss => RemoveMiss(s, s')
    case SWalkNext => WalkNext(s, s')
    case SWalkNotFound => WalkNotFound(s, s')
    case SUnlink => Unlink(s, s')
    case SFree(t) => FreeNode(s, s', t)
  }

  ghost predicate Next(s: State, s': State) {
    exists step :: Does(s, s', step)
  }

  ghost predicate StepAt(run: seq<State>, i: nat) {
    0 < i < |run| && Next(run[i - 1], run[i])
  }

  ghost predicate IsRun(run: seq<State>) {
    && |run| > 0 && Init(run[0])
    && forall i: nat :: 0 < i < |run| ==> StepAt(run, i)
  }

  lemma StepOf(run: seq<State>, i: nat) returns (step: Step)
    requires IsRun(run) && 0 < i < |run|
    ensures Does(run[i - 1], run[i], step)
  {
    assert StepAt(run, i);
    step :| Does(run[i - 1], run[i], step);
  }
}
