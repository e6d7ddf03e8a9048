/** The logging threads: a log call never waits for anybody, and no interleaving is left out that the program allows. */
module Threads {
  import opened Words
  import opened Framing
  import opened NodeList
  import opened Logger
  import Delivery
  import LostEvent
  import Spsc

  // ---------------------------------------------------------------- a log call never waits

  /** How many steps a log call has still to take at most: the reload, the bytes of the event, and the commit. */
  function StepsLeft(p: Spsc.Producer): nat {
    match p
    case PIdle => 0
    case PReload(msg) => |msg| + 2
    case PCopy(msg, done) => if done <= |msg| then |msg| - done + 1 else 0
  }

  ghost predicate Calling(s: State, t: Tid) {
    t in s.threads && !s.threads[t].q.p.PIdle?
  }

  lemma QueueGoesOn(q: Spsc.State) returns (q': Spsc.State)
    requires Spsc.Inv(q) && !q.p.PIdle?
    ensures (exists i :: Spsc.ReloadR(q, q', i)) || Spsc.CopyIn(q, q') || Spsc.CommitWrite(q, q')
  {
    match q.p
    case PReload(msg) =>
      var i := |q.pubR| - 1;
      q' := q.(cachedR := q.pubR[i], seenR := i,
               p := if Spsc.Free(q, q.pubR[i]) < |msg| then Spsc.PIdle else Spsc.PCopy(msg, 0));
      assert Spsc.ReloadR(q, q', i);
    case PCopy(msg, done) =>
      if done < |msg| {
        q' := LostEvent.CopyByte(q);
      } else {
        var w := Add64(q.w, |msg|);
        q' := q.(w := w, pubW := q.pubW + [w], p := Spsc.PIdle, committed := q.committed + [msg]);
      }
  }

  /** In every state of every run, a running thread that is in a log call can take the next step of it. */
  lemma LogCallGoesOn(run: seq<State>, i: nat, t: Tid)
    requires IsRun(run) && i < |run| && Has(run[i], t, Running) && Calling(run[i], t)
    ensures exists s' :: ContinueEvent(run[i], s', t)
  {
    Delivery.RunInv(run, i);
    assert Delivery.QueueOk(run[i].threads[t]);
    var q' := QueueGoesOn(run[i].threads[t].q);
    var s' := SetThread(run[i], t, run[i].threads[t].(q := q'));
    assert ContinueEvent(run[i], s', t);
  }

  lemma OwnStep(s: State, s': State, t: Tid)
    requires ContinueEvent(s, s', t) && Spsc.Inv(s.threads[t].q)
    ensures t in s'.threads && StepsLeft(s'.threads[t].q.p) < StepsLeft(s.threads[t].q.p)
  {
  }

  lemma OtherStep(s: State, s': State, t: Tid)
    requires Next(s, s') && !ContinueEvent(s, s', t) && Calling(s, t)
    ensures t in s'.threads && s'.threads[t].q.p == s.threads[t].q.p
  {
    var step :| Does(s, s', step);
    if step.SBegin? || step.SContinue? {
      assert step.t != t;
    } else if step.SCheck? || step.SReload? || step.SCopy? || step.SCommit? {
      ReadingKeepsCall(s, s', step, t);
    } else {
      NothingRead(s, s', step, t);
    }
  }

  lemma ReadingKeepsCall(s: State, s': State, step: Step, t: Tid)
    requires Does(s, s', step) && t in s.threads
    requires step.SCheck? || step.SReload? || step.SCopy? || step.SCommit?
    ensures t in s'.threads && s'.threads[t].q.p == s.threads[t].q.p
  {
  }

  lemma NothingRead(s: State, s': State, step: Step, t: Tid)
    requires Does(s, s', step) && t in s.threads && !step.SBegin? && !step.SContinue?
    requires !step.SCheck? && !step.SReload? && !step.SCopy? && !step.SCommit?
    ensures t in s'.threads && s'.threads[t].q == s.threads[t].q
  {
  }

  /** The steps of thread t's log call among those from a to b. */
  ghost function CallSteps(run: seq<State>, t: Tid, a: nat, b: nat): nat
    requires a <= b < |run|
  {
    if a == b then 0
    else CallSteps(run, t, a, b - 1) + (if ContinueEvent(run[b - 1], run[b], t) then 1 else 0)
  }

  /** A log call is over after a number of its own steps that is fixed when it begins, whatever the backend and the
      other threads do: there is no loop in it that waits for them. */
  lemma {:induction false} LogCallIsBounded(run: seq<State>, t: Tid, a: nat, b: nat)
    requires IsRun(run) && a <= b < |run| && t in run[a].threads
    requires forall j :: a <= j < b ==> Calling(run[j], t)
    ensures t in run[b].threads
    ensures CallSteps(run, t, a, b) + StepsLeft(run[b].threads[t].q.p) <= StepsLeft(run[a].threads[t].q.p)
    decreases b
  {
    if a < b {
      LogCallIsBounded(run, t, a, b - 1);
      CallStep(run, t, b);
    }
  }

  lemma CallStep(run: seq<State>, t: Tid, b: nat)
    requires IsRun(run) && 0 < b < |run| && Calling(run[b - 1], t)
    ensures t in run[b].threads
    ensures (if ContinueEvent(run[b - 1], run[b], t) then 1 else 0) + StepsLeft(run[b].threads[t].q.p)
            <= StepsLeft(run[b - 1].threads[t].q.p)
  {
    Delivery.RunInv(run, b - 1);
    var s, s' := run[b - 1], run[b];
    assert Delivery.QueueOk(s.threads[t]);
    assert StepAt(run, b);
    if ContinueEvent(s, s', t) {
      OwnStep(s, s', t);
    } else {
      OtherStep(s, s', t);
    }
  }

  // ---------------------------------------------------------------- what can happen at any time

  /** A new thread can register at any address that is not in use. */
  lemma AnyThreadCanRegister(s: State, t: Tid, node: Ptr, capacity: nat)
    requires t !in s.threads && node != NULL && node !in s.heap && 2 * BitCeil(capacity) < TWO_64
    ensures exists s' :: Next(s, s') && Has(s', t, Registering) && s'.heap == s.heap[node := Node(t, s.head)]
  {
    var th := Thread(Registering, node, Spsc.Init(EventFrame(), capacity), Load(0, 0, false), 0);
    var s' := SetThread(s, t, th).(heap := s.heap[node := Node(t, s.head)]);
    assert Does(s, s', SAllocate(t, node, capacity));
  }

  /** A weak compare-and-swap can fail although the head is the one expected. */
  lemma AnySwapCanFail(s: State, t: Tid)
    requires Has(s, t, Registering) && s.threads[t].node in s.heap
    ensures exists s' :: Next(s, s') && Has(s', t, Registering) && s'.head == s.head
  {
    var node := s.threads[t].node;
    assert Does(s, s.(heap := s.heap[node := s.heap[node].(next := s.head)]), SPushFails(t));
  }

  /** A running thread that is not in a log call can log any event, or die. */
  lemma AnyEventCanBeLogged(s: State, t: Tid, e: Event) returns (s': State)
    requires Delivery.Queues(s) && Has(s, t, Running) && !Calling(s, t) && ValidEvent(s.cfg.sites, e)
    ensures Next(s, s') && Calling(s', t) && s'.threads[t].q.p.msg == EncodeEvent(e)
  {
    assert Delivery.QueueOk(s.threads[t]);
    EventIsFramed(s.cfg.sites, e);
    s' := Beginning(s, t, e, EncodeEvent(e));
  }

  lemma Beginning(s: State, t: Tid, e: Event, m: Spsc.Msg) returns (s': State)
    requires Has(s, t, Running) && !Calling(s, t) && Delivery.QueueOk(s.threads[t])
    requires ValidEvent(s.cfg.sites, e) && m == EncodeEvent(e) && Spsc.Framed(EventFrame(), m)
    ensures Next(s, s') && Calling(s', t) && s'.threads[t].q.p.msg == m
  {
    var q := s.threads[t].q;
    var q' := q.(p := if Spsc.Free(q, q.cachedR) < |m| then Spsc.PReload(m) else Spsc.PCopy(m, 0));
    s' := SetThread(s, t, s.threads[t].(q := q'));
    assert BeginEvent(s, s', t, e);
    assert Does(s, s', SBegin(t, e));
  }

  lemma AnyThreadCanDie(s: State, t: Tid) returns (s': State)
    requires Has(s, t, Running) && !Calling(s, t)
    ensures Next(s, s') && Has(s', t, Dead) && s'.threads[t].q == s.threads[t].q
  {
    s' := SetThread(s, t, s.threads[t].(phase := Dead));
    assert Does(s, s', SKill(t));
  }

  /** A reload can see any publication that is not older than the one last seen, on either side. */
  lemma AnyReadPositionCanBeSeen(s: State, t: Tid, i: nat)
    requires Has(s, t, Running) && s.threads[t].q.p.PReload?
    requires s.threads[t].q.seenR <= i < |s.threads[t].q.pubR|
    ensures exists s' :: Next(s, s') && t in s'.threads && s'.threads[t].q.seenR == i
              && s'.threads[t].q.cachedR == s.threads[t].q.pubR[i]
  {
    var q := s.threads[t].q;
    var q' := q.(cachedR := q.pubR[i], seenR := i,
                 p := if Spsc.Free(q, q.pubR[i]) < |q.p.msg| then Spsc.PIdle else Spsc.PCopy(q.p.msg, 0));
    assert Spsc.ReloadR(q, q', i);
    assert Does(s, SetThread(s, t, s.threads[t].(q := q')), SContinue(t));
  }

  lemma AnyWritePositionCanBeSeen(s: State, t: Tid, i: nat)
    requires s.pc.Poll? && OnNode(s, t) && s.threads[t].q.c.CReload?
    requires s.threads[t].q.seenW <= i < |s.threads[t].q.pubW|
    ensures exists s' :: Next(s, s') && t in s'.threads && s'.threads[t].q.seenW == i
              && s'.threads[t].q.cachedW == s.threads[t].q.pubW[i]
  {
    var th := s.threads[t];
    var q' := th.q.(cachedW := th.q.pubW[i], seenW := i,
                    c := if th.q.pubW[i] == th.q.r then Spsc.CIdle else Spsc.CCopy([]));
    assert Spsc.ReloadW(th.q, q', i);
    var s' := SetThread(s, t, th.(q := q', load := Load(i, |th.q.committed|, th.phase.Dead?)))
              .(pc := if q'.c.CIdle? then Liveness(s.pc.node, s.pc.next) else s.pc);
    assert Does(s, s', SReload(t, i));
  }

  /** The liveness load can still see a dead thread as alive. */
  lemma FlagCanBeStale(s: State, t: Tid)
    requires s.pc.Liveness? && OnNode(s, t)
    ensures exists s' :: Next(s, s') && s'.pc == Visit(s.pc.next)
    ensures s.threads[t].phase == Dead ==> exists s' :: Next(s, s') && s'.pc == RemoveCas(s.pc.node, s.pc.next)
  {
    var th := s.threads[t].(atLiveness := |s.threads[t].q.committed|);
    assert Does(s, SetThread(s, t, th).(pc := Visit(s.pc.next)), SAlive(t, true));
    if s.threads[t].phase == Dead {
      assert Does(s, SetThread(s, t, th).(pc := RemoveCas(s.pc.node, s.pc.next)), SAlive(t, false));
    }
  }
}
