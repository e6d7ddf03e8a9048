/** An event can really be lost: the backend loads "queue empty", the thread then logs and exits, the backend
    loads "thread dead" and deletes the context with the event in it. */
module LostEvent {
  import opened Words
  import opened Framing
  import opened NodeList
  import opened Logger
  import BoundedWait
  import Delivery
  import Registry
  import Retirement
  import Spsc

  // ---------------------------------------------------------------- continuing a run

  /** One step in which every load of a write position sees the newest publication. */
  ghost predicate FreshNext(s: State, s': State) {
    Next(s, s') && BoundedWait.FreshLoad(s, s')
  }

  ghost predicate Path(path: seq<State>, s: State, s': State) {
    && |path| > 0 && path[0] == s && path[|path| - 1] == s'
    && forall i: nat :: 0 < i < |path| ==> PathStep(path, i)
  }

  ghost predicate PathStep(path: seq<State>, i: nat) {
    0 < i < |path| && FreshNext(path[i - 1], path[i])
  }

  ghost predicate Reaches(s: State, s': State) {
    exists path :: Path(path, s, s')
  }

  lemma ReachSelf(s: State)
    ensures Reaches(s, s)
  {
    assert Path([s], s, s);
  }

  lemma ReachStep(s: State, mid: State, s': State)
    requires Reaches(s, mid) && FreshNext(mid, s')
    ensures Reaches(s, s')
  {
    var path :| Path(path, s, mid);
    var path' := path + [s'];
    forall i: nat | 0 < i < |path'| ensures PathStep(path', i) {
      if i < |path| {
        assert PathStep(path, i);
      }
    }
    assert Path(path', s, s');
  }

  lemma ReachDoes(s: State, mid: State, s': State, step: Step)
    requires Reaches(s, mid) && Does(mid, s', step) && BoundedWait.FreshLoad(mid, s')
    ensures Reaches(s, s')
  {
    ReachStep(s, mid, s');
  }

  lemma {:induction false} PathInv(path: seq<State>, s: State, s': State, chain: seq<Ptr>) returns (chain': seq<Ptr>)
    requires Path(path, s, s') && Registry.Inv(s, chain)
    ensures Registry.Inv(s', chain')
    decreases |path|
  {
    if |path| == 1 {
      chain' := chain;
    } else {
      var init := path[..|path| - 1];
      var mid := init[|init| - 1];
      assert PathStep(path, |path| - 1);
      forall i: nat | 0 < i < |init| ensures PathStep(init, i) {
        assert PathStep(path, i);
      }
      var before := PathInv(init, s, mid, chain);
      var step :| Does(mid, s', step);
      chain' := Registry.StepInv(mid, s', step, before);
    }
  }

  lemma ReachInv(s: State, s': State, chain: seq<Ptr>) returns (chain': seq<Ptr>)
    requires Reaches(s, s') && Registry.Inv(s, chain)
    ensures Registry.Inv(s', chain')
  {
    var path :| Path(path, s, s');
    chain' := PathInv(path, s, s', chain);
  }

  lemma FreshJoin(path: seq<State>, run: seq<State>)
    requires |path| > 0 && path <= run
    requires BoundedWait.FreshBetween(path, 0, |path| - 1) && BoundedWait.FreshBetween(run, |path| - 1, |run| - 1)
    ensures BoundedWait.FreshBetween(run, 0, |run| - 1)
  {
    forall i: nat | 0 < i <= |run| - 1 ensures BoundedWait.FreshAt(run, i) {
      if i < |path| {
        assert BoundedWait.FreshAt(path, i);
      }
    }
  }

  lemma ContinueRun(run: seq<State>, s': State) returns (run': seq<State>)
    requires IsRun(run) && Reaches(run[|run| - 1], s')
    ensures IsRun(run') && run <= run' && run'[|run'| - 1] == s'
    ensures BoundedWait.FreshBetween(run', |run| - 1, |run'| - 1)
  {
    var path :| Path(path, run[|run| - 1], s');
    run' := run + path[1..];
    forall i: nat | 0 < i < |run'| ensures StepAt(run', i) && (i >= |run| ==> BoundedWait.FreshAt(run', i)) {
      if i < |run| {
        assert StepAt(run, i);
      } else {
        assert run'[i - 1] == path[i - |run|] && run'[i] == path[i - |run| + 1];
        assert PathStep(path, i - |run| + 1);
      }
    }
  }

  // ---------------------------------------------------------------- a write that fits can be finished

  /** The message fits the space that is really free. */
  ghost predicate Fits(q: Spsc.State, size: nat) {
    |q.consumed| <= |q.committed| && Spsc.Tail(q) - Spsc.Pos(q.committed, |q.consumed|) + size <= q.cap
  }

  /** Thread t has done nothing but producer steps. */
  ghost predicate OnlyProduced(s: State, s': State, t: Tid) {
    && QueueOnly(s, s', t)
    && var q, q' := s.threads[t].q, s'.threads[t].q;
    && Spsc.Inv(q') && q'.frame == q.frame && q'.c == q.c && q'.consumed == q.consumed
  }

  lemma ReachBegin(s0: State, s: State, s': State, t: Tid, e: Event)
    requires Reaches(s0, s) && BeginEvent(s, s', t, e) && s'.threads[t].q.c == s.threads[t].q.c
    ensures Reaches(s0, s')
  {
    BoundedWait.NothingLoaded(s, s');
    ReachDoes(s0, s, s', SBegin(t, e));
  }

  lemma ReachContinue(s0: State, s: State, s': State, t: Tid)
    requires Reaches(s0, s) && ContinueEvent(s, s', t) && s'.threads[t].q.c == s.threads[t].q.c
    ensures Reaches(s0, s')
  {
    BoundedWait.NothingLoaded(s, s');
    ReachDoes(s0, s, s', SContinue(t));
  }

  /** An event that fits is granted, if need be after a reload. */
  lemma CanBegin(s0: State, s: State, t: Tid, e: Event) returns (s': State)
    requires Reaches(s0, s) && Has(s, t, Running) && s.threads[t].q.p.PIdle? && Delivery.QueueOk(s.threads[t])
    requires ValidEvent(s.cfg.sites, e) && Fits(s.threads[t].q, |EncodeEvent(e)|)
    ensures Reaches(s0, s') && OnlyProduced(s, s', t)
    ensures s'.threads[t].q.p == Spsc.PCopy(EncodeEvent(e), 0)
    ensures s'.threads[t].q.committed == s.threads[t].q.committed
  {
    var q, m := s.threads[t].q, EncodeEvent(e);
    EventIsFramed(s.cfg.sites, e);
    var q1 := q.(p := if Spsc.Free(q, q.cachedR) < |m| then Spsc.PReload(m) else Spsc.PCopy(m, 0));
    BeginStep(q, q1, m);
    s' := SetThread(s, t, s.threads[t].(q := q1));
    ReachBegin(s0, s, s', t, e);
    if q1.p.PReload? {
      var mid := s';
      s' := CanReload(s0, mid, t);
      SameButQueue(s, mid, s', t);
    }
  }

  lemma CanReload(s0: State, s: State, t: Tid) returns (s': State)
    requires Reaches(s0, s) && Has(s, t, Running) && Spsc.Inv(s.threads[t].q)
    requires s.threads[t].q.p.PReload? && Fits(s.threads[t].q, |s.threads[t].q.p.msg|)
    ensures Reaches(s0, s') && OnlyProduced(s, s', t)
    ensures s'.threads[t].q.p == Spsc.PCopy(s.threads[t].q.p.msg, 0)
    ensures s'.threads[t].q.committed == s.threads[t].q.committed
  {
    var q' := ReloadStep(s.threads[t].q);
    s' := SetThread(s, t, s.threads[t].(q := q'));
    ReachContinue(s0, s, s', t);
  }

  lemma BeginStep(q: Spsc.State, q': Spsc.State, m: Spsc.Msg)
    requires Spsc.Inv(q) && q.p.PIdle? && Spsc.Framed(EventFrame(), m) && q.frame == EventFrame()
    requires q' == q.(p := if Spsc.Free(q, q.cachedR) < |m| then Spsc.PReload(m) else Spsc.PCopy(m, 0))
    ensures Spsc.Begin(q, q', m) && Spsc.Inv(q')
  {
    assert Spsc.Begin(q, q', m);
    assert Spsc.ProducerNext(q, q');
    Spsc.ProducerInv(q, q');
  }

  /** The reload that sees the newest read position grants the write. */
  lemma ReloadStep(q: Spsc.State) returns (q': Spsc.State)
    requires Spsc.Inv(q) && q.p.PReload? && Fits(q, |q.p.msg|)
    ensures Spsc.Inv(q') && Spsc.ReloadR(q, q', |q.consumed|) && q'.p == Spsc.PCopy(q.p.msg, 0)
    ensures q'.c == q.c && q'.consumed == q.consumed && q'.committed == q.committed && q'.frame == q.frame
  {
    var i := |q.consumed|;
    Spsc.FreeIsExact(q, i);
    q' := q.(cachedR := q.pubR[i], seenR := i, p := Spsc.PCopy(q.p.msg, 0));
    assert Spsc.ReloadR(q, q', i);
    assert Spsc.ProducerNext(q, q');
    Spsc.ProducerInv(q, q');
  }

  /** Copying the remaining bytes and committing is always possible. */
  lemma {:induction false} CanFinishWrite(s0: State, s: State, t: Tid) returns (s': State)
    requires Reaches(s0, s) && Has(s, t, Running) && Spsc.Inv(s.threads[t].q) && s.threads[t].q.p.PCopy?
    ensures Reaches(s0, s') && QueueOnly(s, s', t)
    ensures var q, q' := s.threads[t].q, s'.threads[t].q;
      && q'.p.PIdle? && q'.c == q.c && q'.consumed == q.consumed && q'.committed == q.committed + [q.p.msg]
    decreases |s.threads[t].q.p.msg| - s.threads[t].q.p.done
  {
    var q := s.threads[t].q;
    if q.p.done == |q.p.msg| {
      var w := Add64(q.w, |q.p.msg|);
      var q' := q.(w := w, pubW := q.pubW + [w], p := Spsc.PIdle, committed := q.committed + [q.p.msg]);
      s' := SetThread(s, t, s.threads[t].(q := q'));
      assert Spsc.CommitWrite(q, q');
      ReachContinue(s0, s, s', t);
    } else {
      var q' := CopyByte(q);
      var mid := SetThread(s, t, s.threads[t].(q := q'));
      ReachContinue(s0, s, mid, t);
      s' := CanFinishWrite(s0, mid, t);
      SameButQueue(s, mid, s', t);
    }
  }

  lemma SameButQueue(s: State, mid: State, s': State, t: Tid)
    requires QueueOnly(s, mid, t) && QueueOnly(mid, s', t)
    ensures QueueOnly(s, s', t)
  {
    assert s'.threads == s.threads[t := s.threads[t].(q := s'.threads[t].q)];
  }

  lemma CopyByte(q: Spsc.State) returns (q': Spsc.State)
    requires Spsc.Inv(q) && q.p.PCopy? && q.p.done < |q.p.msg|
    ensures Spsc.Inv(q') && Spsc.CopyIn(q, q') && q'.p == Spsc.PCopy(q.p.msg, q.p.done + 1)
    ensures q'.c == q.c && q'.consumed == q.consumed && q'.committed == q.committed
  {
    Spsc.RoomToCopy(q);
    var at := Spsc.Offset(q, q.w) + q.p.done;
    q' := q.(buf := q.buf[at := q.p.msg[q.p.done]], p := Spsc.PCopy(q.p.msg, q.p.done + 1));
    Spsc.CopyInInv(q, q');
  }

  // ---------------------------------------------------------------- a dead context can be removed

  /** The threads and the current node are the same; only the backend has moved on. */
  ghost predicate OnlyBackend(s: State, s': State, t: Tid) {
    s'.threads == s.threads && OnNode(s', t)
  }

  /** The walk to the node can be finished, and the node unlinked, wherever it is. */
  lemma {:induction false} CanUnlink(s0: State, s: State, t: Tid, chain: seq<Ptr>) returns (s': State)
    requires Reaches(s0, s) && s.pc.Walk? && OnNode(s, t) && Registry.Inv(s, chain)
    ensures Reaches(s0, s') && s'.pc.Free? && OnlyBackend(s, s', t)
    decreases |Rest(chain, s.pc.cur)|
  {
    Registry.WalkFinds(s, chain);
    var pc := s.pc;
    if pc.cur == pc.node {
      s' := s.(heap := s.heap[pc.prev := s.heap[pc.prev].(next := s.heap[pc.cur].next)], pc := Free(pc.node, pc.next));
      BoundedWait.NothingLoaded(s, s');
      ReachDoes(s0, s, s', SUnlink);
    } else {
      var mid := s.(pc := Walk(pc.node, pc.next, pc.cur, s.heap[pc.cur].next));
      BoundedWait.NothingLoaded(s, mid);
      ReachDoes(s0, s, mid, SWalkNext);
      var chain' := Registry.StepInv(s, mid, SWalkNext, chain);
      Registry.WalkShortens(s, mid, chain);
      s' := CanUnlink(s0, mid, t, chain);
    }
  }

  lemma CanRetire(s0: State, s: State, t: Tid, chain: seq<Ptr>) returns (s': State)
    requires Reaches(s0, s) && s.pc.Liveness? && OnNode(s, t) && Has(s, t, Dead) && Registry.Inv(s, chain)
    ensures Reaches(s0, s') && Has(s', t, Retired)
    ensures s'.threads[t].q == s.threads[t].q && s'.threads[t].load == s.threads[t].load
  {
    var node, next := s.pc.node, s.pc.next;
    var s1 := SetThread(s, t, s.threads[t].(atLiveness := |s.threads[t].q.committed|)).(pc := RemoveCas(node, next));
    BoundedWait.NothingLoaded(s, s1);
    ReachDoes(s0, s, s1, SAlive(t, false));
    var chain1 := Registry.StepInv(s, s1, SAlive(t, false), chain);
    var s2 := CanTakeOut(s0, s1, t, chain1);
    s' := SetThread(s2, t, s2.threads[t].(phase := Retired)).(heap := s2.heap - {s2.pc.node}, pc := Visit(s2.pc.next));
    BoundedWait.NothingLoaded(s2, s');
    ReachDoes(s0, s2, s', SFree(t));
  }

  lemma CanTakeOut(s0: State, s: State, t: Tid, chain: seq<Ptr>) returns (s': State)
    requires Reaches(s0, s) && s.pc.RemoveCas? && OnNode(s, t) && Registry.Inv(s, chain)
    ensures Reaches(s0, s') && s'.pc.Free? && OnlyBackend(s, s', t)
  {
    var node, next := s.pc.node, s.pc.next;
    if s.head == node {
      s' := s.(head := s.heap[node].next, pc := Free(node, next));
      BoundedWait.NothingLoaded(s, s');
      ReachDoes(s0, s, s', SRemoveHead);
    } else {
      var mid := s.(pc := Walk(node, next, NULL, s.head));
      BoundedWait.NothingLoaded(s, mid);
      ReachDoes(s0, s, mid, SRemoveMiss);
      var chain' := Registry.StepInv(s, mid, SRemoveMiss, chain);
      s' := CanUnlink(s0, mid, t, chain');
    }
  }

  // ---------------------------------------------------------------- losing an event

  /** The queue of thread t looked empty and the liveness load is next, while the thread is between two log calls. */
  ghost predicate AboutToCheck(s: State, t: Tid) {
    s.pc.Liveness? && OnNode(s, t) && Has(s, t, Running) && s.threads[t].q.p.PIdle?
  }

  /** However a run came to such a state, any event that fits can be accepted by the queue and deleted unprocessed,
      along with whatever the emptiness load had not seen. */
  lemma EventCanBeLost(run: seq<State>, t: Tid, e: Event) returns (run': seq<State>)
    requires IsRun(run) && AboutToCheck(run[|run| - 1], t)
    requires ValidEvent(run[|run| - 1].cfg.sites, e)
    requires Fits(run[|run| - 1].threads[t].q, |EncodeEvent(e)|)
    ensures IsRun(run') && run <= run'
    ensures BoundedWait.FreshBetween(run', |run| - 1, |run'| - 1)
    ensures Has(run'[|run'| - 1], t, Retired)
    ensures var th, th' := run[|run| - 1].threads[t], run'[|run'| - 1].threads[t];
      && th'.load == th.load && th'.q.consumed == th.q.consumed
      && th'.q.committed == th.q.committed + [EncodeEvent(e)]
      && th.load.observed <= |th.q.committed|
      && Retirement.Lost(th') == th.q.committed[th.load.observed..] + [EncodeEvent(e)]
  {
    var s := run[|run| - 1];
    var chain := LastState(run, t);
    ReachSelf(s);
    var s' := CanLose(s, t, e, chain);
    run' := ContinueRun(run, s');
    LostBehind(s.threads[t], s'.threads[t], EncodeEvent(e));
  }

  lemma LostBehind(th: Thread, th': Thread, m: Spsc.Msg)
    requires th'.load == th.load && th'.q.committed == th.q.committed + [m]
    requires th.load.observed <= |th.q.committed|
    ensures Retirement.Lost(th') == th.q.committed[th.load.observed..] + [m]
  {
  }

  lemma LastState(run: seq<State>, t: Tid) returns (chain: seq<Ptr>)
    requires IsRun(run) && AboutToCheck(run[|run| - 1], t)
    ensures var s := run[|run| - 1];
      && Registry.Inv(s, chain) && Delivery.QueueOk(s.threads[t])
      && s.threads[t].load.observed <= |s.threads[t].q.committed|
  {
    Delivery.RunQueues(run, |run| - 1);
    Retirement.RunInv(run, |run| - 1);
    chain := Registry.RunInv(run, |run| - 1);
    assert Retirement.Tracked(run[|run| - 1], t);
  }

  lemma CanLose(s: State, t: Tid, e: Event, chain: seq<Ptr>) returns (s': State)
    requires Reaches(s, s) && AboutToCheck(s, t) && Delivery.QueueOk(s.threads[t]) && Registry.Inv(s, chain)
    requires ValidEvent(s.cfg.sites, e) && Fits(s.threads[t].q, |EncodeEvent(e)|)
    ensures Reaches(s, s') && Has(s', t, Retired)
    ensures s'.threads[t].load == s.threads[t].load && s'.threads[t].q.consumed == s.threads[t].q.consumed
    ensures s'.threads[t].q.committed == s.threads[t].q.committed + [EncodeEvent(e)]
  {
    var s1 := CanLog(s, t, e);
    var s2 := SetThread(s1, t, s1.threads[t].(phase := Dead));
    ReachKill(s, s1, s2, t);
    var chain2 := ReachInv(s, s2, chain);
    s' := CanRetire(s, s2, t, chain2);
  }

  lemma CanLog(s: State, t: Tid, e: Event) returns (s': State)
    requires Reaches(s, s) && Has(s, t, Running) && s.threads[t].q.p.PIdle? && Delivery.QueueOk(s.threads[t])
    requires ValidEvent(s.cfg.sites, e) && Fits(s.threads[t].q, |EncodeEvent(e)|)
    ensures Reaches(s, s') && QueueOnly(s, s', t) && s'.threads[t].q.p.PIdle?
    ensures s'.threads[t].q.consumed == s.threads[t].q.consumed
    ensures s'.threads[t].q.committed == s.threads[t].q.committed + [EncodeEvent(e)]
  {
    var mid := CanBegin(s, s, t, e);
    s' := CanFinishWrite(s, mid, t);
    SameButQueue(s, mid, s', t);
  }

  lemma ReachKill(s0: State, s: State, s': State, t: Tid)
    requires Reaches(s0, s) && Kill(s, s', t)
    ensures Reaches(s0, s')
  {
    BoundedWait.NothingLoaded(s, s');
    ReachDoes(s0, s, s', SKill(t));
  }

  // ---------------------------------------------------------------- a run that gets there

  const SITE: Site := Site(0, [])

  function Config0(): Config {
    Config(map[1 := SITE], (_, _) => "")
  }

  function Start(): State {
    State(Config0(), map[], NULL, map[], 0, 0, Top, [], [], 0, [])
  }

  /** One thread registers, and the backend looks into its empty queue. */
  lemma CanLookIntoEmptyQueue() returns (s: State)
    ensures Reaches(Start(), s) && Init(Start())
    ensures AboutToCheck(s, 7) && s.cfg == Config0() && s.threads[7].load == Load(0, 0, false)
    ensures s.threads[7].q == Spsc.Init(EventFrame(), 64) && s.threads[7].q.cap == 64
  {
    var s0 := Start();
    var q0 := Spsc.Init(EventFrame(), 64);
    CapacityOf64();
    ReachSelf(s0);
    var s1 := SetThread(s0, 7, Thread(Registering, 1, q0, Load(0, 0, false), 0)).(heap := s0.heap[1 := Node(7, NULL)]);
    BoundedWait.NothingLoaded(s0, s1);
    ReachDoes(s0, s0, s1, SAllocate(7, 1, 64));
    var s2 := SetThread(s1, 7, s1.threads[7].(phase := Running)).(head := 1);
    BoundedWait.NothingLoaded(s1, s2);
    ReachDoes(s0, s1, s2, SPush(7));
    s := CanPollEmpty(s0, s2, q0);
  }

  lemma CapacityOf64()
    ensures BitCeil(64) == 64
  {
    assert Pow2(6) == 64;
    var k: nat :| BitCeil(64) == Pow2(k);
  }

  lemma CanPollEmpty(s0: State, s2: State, q0: Spsc.State) returns (s: State)
    requires Reaches(s0, s2) && s2.pc.Top? && s2.head == 1 && s2.heap == map[1 := Node(7, NULL)] && Has(s2, 7, Running)
    requires s2.threads.Keys == {7}
    requires s2.cfg == Config0() && s2.threads[7].q == q0 == Spsc.Init(EventFrame(), 64) && BitCeil(64) == 64
    ensures Reaches(s0, s)
    ensures AboutToCheck(s, 7) && s.cfg == Config0() && s.threads[7].q == q0 && s.threads[7].load == Load(0, 0, false)
  {
    var s3 := s2.(pc := Visit(1), visited := []);
    BoundedWait.NothingLoaded(s2, s3);
    ReachDoes(s0, s2, s3, SLoadHead);
    var s4 := s3.(pc := Poll(1, NULL), visited := [7]);
    BoundedWait.NothingLoaded(s3, s4);
    ReachDoes(s0, s3, s4, SEnter);
    s := CanSeeNothing(s0, s4, q0);
  }

  lemma CanSeeNothing(s0: State, s4: State, q0: Spsc.State) returns (s: State)
    requires Reaches(s0, s4) && s4.pc == Poll(1, NULL) && s4.heap == map[1 := Node(7, NULL)] && Has(s4, 7, Running)
    requires s4.threads.Keys == {7} && s4.threads[7].q == q0 == Spsc.Init(EventFrame(), 64)
    ensures Reaches(s0, s) && AboutToCheck(s, 7) && s.cfg == s4.cfg
    ensures s.threads[7].q == q0 && s.threads[7].load == Load(0, 0, false)
  {
    var q1 := q0.(c := Spsc.CReload);
    var s5 := SetThread(s4, 7, s4.threads[7].(q := q1));
    assert Spsc.CheckEmpty(q0, q1);
    ReachDoes(s0, s4, s5, SCheck(7));
    s := SetThread(s5, 7, s5.threads[7].(q := q0, load := Load(0, 0, false))).(pc := Liveness(1, NULL));
    assert Spsc.ReloadW(q1, q0, 0);
    ReachDoes(s0, s5, s, SReload(7, 0));
  }

  // ---------------------------------------------------------------- main result

  /** The intent that a context is deleted only when no event is left to process does not hold in every run:
      here is one, with fresh loads throughout, that ends with a retired context holding an unprocessed event. */
  lemma SomeRunLosesAnEvent() returns (run: seq<State>, t: Tid)
    ensures IsRun(run)
    ensures BoundedWait.FreshBetween(run, 0, |run| - 1)
    ensures var s := run[|run| - 1];
      && Has(s, t, Retired)
      && s.threads[t].q.committed == Retirement.Lost(s.threads[t]) && |s.threads[t].q.committed| == 1
      && s.threads[t].q.consumed == []
      && s.threads[t].load.observed == s.threads[t].load.published && !s.threads[t].load.dead
  {
    t := 7;
    var mid := CanLookIntoEmptyQueue();
    var path := RunTo(Start(), mid);
    var e := Event(1, 0, 0, []);
    NoArgsFit(e);
    run := EventCanBeLost(path, t, e);
    FreshJoin(path, run);
  }

  lemma RunTo(s: State, s': State) returns (run: seq<State>)
    requires Init(s) && Reaches(s, s')
    ensures IsRun(run) && run[|run| - 1] == s' && BoundedWait.FreshBetween(run, 0, |run| - 1)
  {
    run :| Path(run, s, s');
    forall i: nat | 0 < i < |run| ensures StepAt(run, i) && BoundedWait.FreshAt(run, i) {
      assert PathStep(run, i);
    }
  }

  lemma NoArgsFit(e: Event)
    requires e == Event(1, 0, 0, [])
    ensures ValidEvent(Config0().sites, e) && |EncodeEvent(e)| == 32
  {
    assert ValidEvent(Config0().sites, e);
    EventIsFramed(Config0().sites, e);
  }
}
