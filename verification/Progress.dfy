/** The backend always has a next step, and every pass comes to its end. */
module Progress {
  import opened Words
  import opened Framing
  import opened NodeList
  import opened Logger
  import BoundedWait
  import Delivery
  import Registry
  import Spsc

  ghost predicate BackendStep(step: Step) {
    || step.SLoadHead? || step.SEndPass? || step.SEnter? || step.SCheck? || step.SReload? || step.SCopy?
    || step.SEmit? || step.SCommit? || step.SAlive? || step.SRemoveHead? || step.SRemoveMiss?
    || step.SWalkNext? || step.SWalkNotFound? || step.SUnlink? || step.SFree?
  }

  // ---------------------------------------------------------------- the backend is never stuck

  /** Loads in this step see the newest values. */
  ghost predicate Fresh(s: State, s': State) {
    BoundedWait.FreshLoad(s, s') && BoundedWait.FreshLiveness(s, s')
  }

  ghost predicate CanMove(s: State) {
    exists s', step :: BackendStep(step) && Does(s, s', step) && Fresh(s, s')
  }

  lemma Moves(s: State, s': State, step: Step)
    requires BackendStep(step) && Does(s, s', step) && Fresh(s, s')
    ensures CanMove(s)
  {
  }

  lemma MovesQuietly(s: State, s': State, step: Step)
    requires BackendStep(step) && Does(s, s', step) && !s.pc.Liveness?
    requires forall t :: t in s.threads && t in s'.threads && s.threads[t].q.c.CReload? ==> s'.threads[t].q.c.CReload?
    ensures CanMove(s)
  {
    BoundedWait.NothingLoaded(s, s');
    Moves(s, s', step);
  }

  lemma MovesAtNode(s: State)
    requires Registry.HeapOk(s) && Registry.CursorAllocated(s)
    requires s.pc.Top? || s.pc.Visit? || s.pc.Liveness? || s.pc.Free?
    requires s.pc.Visit? && s.pc.node != NULL ==> s.pc.node in s.heap
    ensures CanMove(s)
  {
    match s.pc
    case Top => MovesQuietly(s, s.(pc := Visit(s.head), visited := []), SLoadHead);
    case Visit(node) =>
      if node == NULL {
        MovesQuietly(s, s.(pc := Top, passes := s.passes + 1), SEndPass);
      } else {
        var n := s.heap[node];
        MovesQuietly(s, s.(pc := Poll(node, n.next), visited := s.visited + [n.ctx]), SEnter);
      }
    case Liveness(node, next) =>
      var t := s.heap[node].ctx;
      assert Registry.Owns(s, t, node);
      var alive := s.threads[t].phase != Dead;
      var th := s.threads[t].(atLiveness := |s.threads[t].q.committed|);
      var s' := SetThread(s, t, th).(pc := if alive then Visit(next) else RemoveCas(node, next));
      BoundedWait.NothingLoaded(s, s');
      Moves(s, s', SAlive(t, alive));
    case Free(node, next) =>
      var t := s.heap[node].ctx;
      assert Registry.Owns(s, t, node);
      var th := s.threads[t].(phase := Retired);
      MovesQuietly(s, SetThread(s, t, th).(heap := s.heap - {node}, pc := Visit(next)), SFree(t));
  }

  lemma MovesInRemoval(s: State, chain: seq<Ptr>)
    requires Linked(s.heap, s.head, chain) && Distinct(chain) && Registry.CursorAllocated(s)
    requires s.pc.RemoveCas? || (s.pc.Walk? && Walking(chain, s.pc.node, s.pc.prev, s.pc.cur))
    ensures CanMove(s)
  {
    match s.pc
    case RemoveCas(node, next) =>
      if s.head == node {
        MovesQuietly(s, s.(head := s.heap[node].next, pc := Free(node, next)), SRemoveHead);
      } else {
        MovesQuietly(s, s.(pc := Walk(node, next, NULL, s.head)), SRemoveMiss);
      }
    case Walk(node, next, prev, cur) =>
      Registry.WalkFinds(s, chain);
      if cur == node {
        var heap := s.heap[prev := s.heap[prev].(next := s.heap[cur].next)];
        MovesQuietly(s, s.(heap := heap, pc := Free(node, next)), SUnlink);
      } else {
        MovesQuietly(s, s.(pc := Walk(node, next, cur, s.heap[cur].next)), SWalkNext);
      }
  }

  /** The consumer's side of a queue can always go on: with the emptiness check, the reload or the next byte. */
  lemma ConsumerCanGoOn(q: Spsc.State) returns (q': Spsc.State, i: nat)
    requires Spsc.Inv(q) && !Delivery.Complete(q)
    ensures q.c.CIdle? ==> Spsc.CheckEmpty(q, q')
    ensures q.c.CReload? ==> Spsc.ReloadW(q, q', i) && q'.seenW == |q.committed|
    ensures q.c.CCopy? ==> Spsc.CopyOut(q, q')
  {
    i := 0;
    match q.c
    case CIdle =>
      q' := q.(c := if q.cachedW <= q.r then Spsc.CReload else Spsc.CCopy([]));
    case CReload =>
      i := |q.pubW| - 1;
      q' := q.(cachedW := q.pubW[i], seenW := i, c := if q.pubW[i] == q.r then Spsc.CIdle else Spsc.CCopy([]));
    case CCopy(got) =>
      Spsc.PrefixFindsLength(q);
      Spsc.NextByte(q);
      q' := q.(c := Spsc.CCopy(got + [q.buf[Spsc.Offset(q, q.r) + |got|]]));
  }

  lemma MovesInPoll(s: State, t: Tid)
    requires s.pc.Poll? && OnNode(s, t) && Spsc.Inv(s.threads[t].q) && !Delivery.Complete(s.threads[t].q)
    ensures CanMove(s)
  {
    var th := s.threads[t];
    var q', i := ConsumerCanGoOn(th.q);
    match th.q.c
    case CIdle => MovesQuietly(s, SetThread(s, t, th.(q := q')), SCheck(t));
    case CReload =>
      var s' := SetThread(s, t, th.(q := q', load := Load(i, |th.q.committed|, th.phase.Dead?)))
                .(pc := if q'.c.CIdle? then Liveness(s.pc.node, s.pc.next) else s.pc);
      Moves(s, s', SReload(t, i));
    case CCopy(_) => MovesQuietly(s, SetThread(s, t, th.(q := q')), SCopy(t));
  }

  lemma MovesWithEvent(s: State, t: Tid)
    requires OnNode(s, t) && Delivery.Complete(s.threads[t].q)
    requires s.pc.Commit? || (s.pc.Poll? && DecodeEvent(s.cfg.sites, s.threads[t].q.c.got).Some?)
    ensures CanMove(s)
  {
    var th := s.threads[t];
    if s.pc.Commit? {
      var r := Add64(th.q.r, th.q.frame.size(th.q.c.got));
      var q' := th.q.(r := r, pubR := th.q.pubR + [r], c := Spsc.CIdle, consumed := th.q.consumed + [th.q.c.got]);
      MovesQuietly(s, SetThread(s, t, th.(q := q')).(pc := Visit(s.pc.next)), SCommit(t));
    } else {
      var entry := Entry(t, DecodeEvent(s.cfg.sites, th.q.c.got).value.0, s.level, s.formatter);
      var s' := s.(pc := Commit(s.pc.node, s.pc.next), log := s.log + [entry], out := s.out + LinesOf(s.cfg, entry));
      MovesQuietly(s, s', SEmit(t));
    }
  }

  ghost predicate Sound(s: State, chain: seq<Ptr>) {
    Registry.Inv(s, chain) && Delivery.Inv(s)
  }

  lemma CursorFacts(s: State, chain: seq<Ptr>)
    requires Registry.Inv(s, chain)
    ensures Registry.HeapOk(s) && Registry.CursorAllocated(s) && Linked(s.heap, s.head, chain) && Distinct(chain)
    ensures s.pc.Visit? && s.pc.node != NULL ==> s.pc.node in s.heap
    ensures s.pc.Walk? ==> Walking(chain, s.pc.node, s.pc.prev, s.pc.cur)
  {
  }

  lemma SoundMoves(s: State, chain: seq<Ptr>)
    requires Sound(s, chain)
    ensures CanMove(s)
  {
    CursorFacts(s, chain);
    match s.pc
    case RemoveCas(_, _) => MovesInRemoval(s, chain);
    case Walk(_, _, _, _) => MovesInRemoval(s, chain);
    case Poll(_, _) => ReadingMoves(s, chain);
    case Commit(_, _) => ReadingMoves(s, chain);
    case _ => MovesAtNode(s);
  }

  lemma ReadingMoves(s: State, chain: seq<Ptr>)
    requires Sound(s, chain) && (s.pc.Poll? || s.pc.Commit?)
    ensures CanMove(s)
  {
    var t := CurrentThread(s, chain);
    ReaderMoves(s, t);
  }

  lemma ReaderMoves(s: State, t: Tid)
    requires Delivery.Inv(s) && OnNode(s, t) && (s.pc.Poll? || s.pc.Commit?)
    ensures CanMove(s)
  {
    assert Delivery.QueueOk(s.threads[t]);
    if Delivery.Complete(s.threads[t].q) {
      Delivery.CompleteDecodes(s, t);
      MovesWithEvent(s, t);
    } else {
      MovesInPoll(s, t);
    }
  }

  // ---------------------------------------------------------------- how much of a pass is left

  /** How far the backend is from being done with the current node. */
  function Stage(s: State): nat
    requires !s.pc.Top?
  {
    match s.pc
    case Visit(_) => 0
    case Free(_, _) => 1
    case Walk(_, _, _, _) => 2
    case RemoveCas(_, _) => 3
    case Liveness(_, _) => 4
    case Commit(_, _) => 5
    case Poll(_, _) => PollStage(s)
    case Top => 0
  }

  function PollStage(s: State): nat
    requires s.pc.Poll?
  {
    if s.pc.node in s.heap && s.heap[s.pc.node].ctx in s.threads then
      match s.threads[s.heap[s.pc.node].ctx].q.c
      case CCopy(_) => 6
      case CReload => 7
      case CIdle => 8
    else 8
  }

  /** Bytes of the oldest message that are still to be copied. */
  function BytesLeft(q: Spsc.State): nat {
    if q.c.CCopy? && |q.consumed| < |q.committed| && |q.c.got| <= |q.committed[|q.consumed|]|
    then |q.committed[|q.consumed|]| - |q.c.got|
    else 0
  }

  /** What is left within a stage: nodes to walk, or bytes to copy. */
  function Inner(s: State, chain: seq<Ptr>): nat
    requires !s.pc.Top?
  {
    if s.pc.Walk? then |Rest(chain, s.pc.cur)|
    else if s.pc.Poll? && s.pc.node in s.heap && s.heap[s.pc.node].ctx in s.threads then
      BytesLeft(s.threads[s.heap[s.pc.node].ctx].q)
    else 0
  }

  /** Nodes to visit, stage at the current one, and what is left within the stage. */
  datatype Rank = Rank(pending: nat, stage: nat, inner: nat)

  function RankOf(s: State, chain: seq<Ptr>): Rank
    requires !s.pc.Top?
  {
    Rank(|BoundedWait.Pending(s, chain)|, Stage(s), Inner(s, chain))
  }

  /** The lexicographic order. */
  predicate Less(x: Rank, y: Rank) {
    || x.pending < y.pending
    || (x.pending == y.pending && x.stage < y.stage)
    || (x.pending == y.pending && x.stage == y.stage && x.inner < y.inner)
  }

  lemma StageFalls(s: State, s': State, step: Step)
    requires Does(s, s', step) && BackendStep(step) && !s.pc.Top? && !s'.pc.Top?
    requires !step.SEnter? && !step.SCopy? && !step.SWalkNext?
    ensures Stage(s') < Stage(s)
  {
  }

  lemma CopyFalls(s: State, s': State, t: Tid, chain: seq<Ptr>)
    requires PollCopy(s, s', t) && Spsc.Inv(s.threads[t].q)
    ensures Stage(s') == Stage(s) && Inner(s', chain) < Inner(s, chain)
  {
    Spsc.PrefixFindsLength(s.threads[t].q);
  }

  lemma WalkFalls(s: State, s': State, chain: seq<Ptr>)
    requires Registry.Inv(s, chain) && WalkNext(s, s')
    ensures Stage(s') == Stage(s) && Inner(s', chain) < Inner(s, chain)
  {
    Registry.WalkShortens(s, s', chain);
  }

  /** The other threads touch a queue from the producer's side at most. */
  lemma OthersOnlyProduce(s: State, s': State, step: Step, t: Tid)
    requires Does(s, s', step) && !BackendStep(step) && t in s.threads
    ensures t in s'.threads
    ensures s'.threads[t].q == s.threads[t].q || Spsc.ProducerNext(s.threads[t].q, s'.threads[t].q)
  {
  }

  lemma OthersKeepPc(s: State, s': State, step: Step)
    requires Does(s, s', step) && !BackendStep(step) && !s.pc.Top?
    ensures s'.pc == s.pc
    ensures s.pc.node in s.heap && !s.pc.Visit? ==> s.pc.node in s'.heap && s'.heap[s.pc.node].ctx == s.heap[s.pc.node].ctx
  {
  }

  lemma OthersKeepWalk(s: State, s': State, step: Step, chain: seq<Ptr>, chain': seq<Ptr>)
    requires Registry.Inv(s, chain) && Does(s, s', step) && !BackendStep(step) && s.pc.Walk?
    requires Registry.ListMoves(s, step, chain, chain')
    ensures Rest(chain', s.pc.cur) == Rest(chain, s.pc.cur)
  {
    if step.SPush? {
      Registry.PushInv(s, s', step.t, chain);
      WalkInChain(chain, s.pc.node, s.pc.prev, s.pc.cur);
      RestOfPushed(chain, s.threads[step.t].node, s.pc.cur);
    }
  }

  /** Another step of other threads, seen from the backend. */
  ghost predicate SameView(s: State, s': State, chain: seq<Ptr>, chain': seq<Ptr>) {
    && !s.pc.Top? && s'.pc == s.pc
    && (s.pc.Walk? ==> Rest(chain', s.pc.cur) == Rest(chain, s.pc.cur))
    && (s.pc.Poll? ==> exists t :: SameReader(s, s', t))
  }

  ghost predicate SameReader(s: State, s': State, t: Tid) {
    && OnNode(s, t) && OnNode(s', t)
    && s'.threads[t].q.c == s.threads[t].q.c && BytesLeft(s'.threads[t].q) == BytesLeft(s.threads[t].q)
  }

  lemma SameRank(s: State, s': State, chain: seq<Ptr>, chain': seq<Ptr>)
    requires SameView(s, s', chain, chain')
    ensures Stage(s') == Stage(s) && Inner(s', chain') == Inner(s, chain)
  {
    if s.pc.Poll? {
      var t :| SameReader(s, s', t);
    }
  }

  /** What other threads do neither helps nor hinders the backend. */
  lemma OthersKeepRank(s: State, s': State, step: Step, chain: seq<Ptr>, chain': seq<Ptr>)
    requires Registry.Inv(s, chain) && Does(s, s', step) && !BackendStep(step) && !s.pc.Top?
    requires Registry.ListMoves(s, step, chain, chain') && Delivery.Queues(s)
    ensures SameView(s, s', chain, chain')
  {
    OthersKeepPc(s, s', step);
    if s.pc.Walk? {
      OthersKeepWalk(s, s', step, chain, chain');
    } else if s.pc.Poll? {
      var t := CurrentThread(s, chain);
      OthersKeepReader(s, s', step, t);
    }
  }

  lemma OthersKeepReader(s: State, s': State, step: Step, t: Tid)
    requires Does(s, s', step) && !BackendStep(step) && s.pc.Poll? && OnNode(s, t) && Spsc.Inv(s.threads[t].q)
    ensures SameReader(s, s', t)
  {
    OthersKeepPc(s, s', step);
    OthersOnlyProduce(s, s', step, t);
    if s'.threads[t].q != s.threads[t].q {
      ProducerKeepsBytes(s.threads[t].q, s'.threads[t].q);
    }
  }

  lemma CurrentThread(s: State, chain: seq<Ptr>) returns (t: Tid)
    requires Registry.Inv(s, chain) && (s.pc.Poll? || s.pc.Commit?) && Delivery.Queues(s)
    ensures OnNode(s, t) && Delivery.QueueOk(s.threads[t])
  {
    t := s.heap[s.pc.node].ctx;
    assert Registry.Owns(s, t, s.pc.node);
  }

  lemma ProducerKeepsBytes(q: Spsc.State, q': Spsc.State)
    requires Spsc.Inv(q) && Spsc.ProducerNext(q, q')
    ensures q'.c == q.c && BytesLeft(q') == BytesLeft(q)
  {
  }

  lemma BackendFalls(s: State, s': State, step: Step, chain: seq<Ptr>)
    requires Registry.Inv(s, chain) && Does(s, s', step) && BackendStep(step) && !step.SEnter?
    requires Delivery.Queues(s) && !s.pc.Top? && !s'.pc.Top?
    ensures Stage(s') < Stage(s)
         || (Stage(s') == Stage(s) && (step.SCopy? || step.SWalkNext?) && Inner(s', chain) < Inner(s, chain))
  {
    if step.SCopy? {
      assert Delivery.QueueOk(s.threads[step.t]);
      CopyFalls(s, s', step.t, chain);
    } else if step.SWalkNext? {
      WalkFalls(s, s', chain);
    } else {
      StageFalls(s, s', step);
    }
  }

  lemma PendingStep(s: State, s': State, step: Step, chain: seq<Ptr>, chain': seq<Ptr>)
    requires Registry.Inv(s, chain) && Does(s, s', step) && Registry.ListMoves(s, step, chain, chain')
    requires !s.pc.Top? && !s'.pc.Top?
    ensures |BoundedWait.Pending(s', chain')| == |BoundedWait.Pending(s, chain)| - (if step.SEnter? then 1 else 0)
  {
    BoundedWait.PlanStep(s, s', step, chain, chain');
  }

  lemma SameChain(s: State, step: Step, chain: seq<Ptr>, chain': seq<Ptr>)
    requires Registry.ListMoves(s, step, chain, chain') && (step.SCopy? || step.SWalkNext?)
    ensures chain' == chain
  {
  }

  /** Within a pass, every step of the backend lowers the rank, and no other step changes it. */
  lemma StepRank(s: State, s': State, step: Step, chain: seq<Ptr>, chain': seq<Ptr>)
    requires Registry.Inv(s, chain) && Does(s, s', step) && Registry.ListMoves(s, step, chain, chain')
    requires Delivery.Queues(s) && !s.pc.Top? && !s'.pc.Top?
    ensures if BackendStep(step) then Less(RankOf(s', chain'), RankOf(s, chain))
            else RankOf(s', chain') == RankOf(s, chain)
  {
    PendingStep(s, s', step, chain, chain');
    if !BackendStep(step) {
      OthersKeepRank(s, s', step, chain, chain');
      SameRank(s, s', chain, chain');
    } else if !step.SEnter? {
      BackendFalls(s, s', step, chain);
      if step.SCopy? || step.SWalkNext? {
        SameChain(s, step, chain, chain');
      }
    }
  }

  // ---------------------------------------------------------------- main results

  ghost predicate BackendMoves(s: State, s': State) {
    exists step :: BackendStep(step) && Does(s, s', step)
  }

  ghost predicate BackendMovesAt(run: seq<State>, i: nat) {
    0 < i < |run| && BackendMoves(run[i - 1], run[i])
  }

  ghost predicate BackendMovedBetween(run: seq<State>, a: nat, b: nat) {
    a < b && (BackendMovesAt(run, b) || BackendMovedBetween(run, a, b - 1))
  }

  predicate Fell(moved: bool, after: Rank, before: Rank) {
    if moved then Less(after, before) else after == before
  }

  lemma FellTwice(first: bool, second: bool, x: Rank, y: Rank, z: Rank)
    requires Fell(first, y, x) && Fell(second, z, y)
    ensures Fell(first || second, z, x)
  {
  }

  /** No pass goes on for ever: within a pass the rank never grows, and it falls with every step of the backend,
      whatever the other threads do in between. */
  lemma {:induction false} PassMakesProgress(run: seq<State>, a: nat, b: nat, chain: seq<Ptr>)
    returns (now: seq<Ptr>)
    requires IsRun(run) && a <= b < |run| && Registry.Inv(run[a], chain)
    requires forall i :: a <= i <= b ==> !run[i].pc.Top?
    ensures Registry.Inv(run[b], now)
    ensures Fell(BackendMovedBetween(run, a, b), RankOf(run[b], now), RankOf(run[a], chain))
    decreases b
  {
    if a == b {
      now := chain;
    } else {
      var before := PassMakesProgress(run, a, b - 1, chain);
      now := RankAt(run, b, before);
      FellTwice(BackendMovedBetween(run, a, b - 1), BackendMovesAt(run, b),
                RankOf(run[a], chain), RankOf(run[b - 1], before), RankOf(run[b], now));
    }
  }

  ghost predicate FreshMoves(s: State, s': State) {
    BackendMoves(s, s') && Fresh(s, s')
  }

  /** In every state of every run the backend has a step it can take, with loads that see the newest values. */
  lemma BackendNeverStuck(run: seq<State>, i: nat)
    requires IsRun(run) && i < |run|
    ensures exists s' :: FreshMoves(run[i], s')
  {
    var chain := Registry.RunInv(run, i);
    Delivery.RunInv(run, i);
    SoundMoves(run[i], chain);
    var s', step :| BackendStep(step) && Does(run[i], s', step) && Fresh(run[i], s');
    assert FreshMoves(run[i], s');
  }

  ghost predicate BackendPath(path: seq<State>) {
    |path| > 0 && forall i: nat :: 0 < i < |path| ==> FreshMovesAt(path, i)
  }

  ghost predicate FreshMovesAt(path: seq<State>, i: nat) {
    0 < i < |path| && FreshMoves(path[i - 1], path[i])
  }

  /** From every state of every run the backend can finish its pass on its own. */
  lemma PassCanEnd(run: seq<State>, i: nat) returns (path: seq<State>)
    requires IsRun(run) && i < |run|
    ensures BackendPath(path) && path[0] == run[i] && path[|path| - 1].pc.Top?
  {
    if run[i].pc.Top? {
      path := [run[i]];
    } else {
      var chain := Registry.RunInv(run, i);
      Delivery.RunInv(run, i);
      path := PathToEnd(run[i], chain, RankOf(run[i], chain));
    }
  }

  /** The backend's own steps from s to the end of the pass it is in. */
  ghost predicate FinishesPass(path: seq<State>, s: State) {
    BackendPath(path) && path[0] == s && EndsPass(path[|path| - 1], s)
  }

  ghost predicate EndsPass(last: State, s: State) {
    last.pc.Top? && last.passes == s.passes + 1
  }

  lemma {:induction false} PathToEnd(s: State, chain: seq<Ptr>, rank: Rank) returns (path: seq<State>)
    requires Sound(s, chain) && !s.pc.Top? && rank == RankOf(s, chain)
    ensures FinishesPass(path, s)
    decreases rank.pending, rank.stage, rank.inner
  {
    var s', chain' := OneMove(s, chain);
    if s'.pc.Top? {
      path := [s, s'];
      FinishedAtOnce(s, s');
    } else {
      var rest := PathToEnd(s', chain', RankOf(s', chain'));
      path := [s] + rest;
      FinishedLater(s, s', rest);
    }
  }

  lemma FinishedAtOnce(s: State, s': State)
    requires FreshMoves(s, s') && EndsPass(s', s)
    ensures FinishesPass([s, s'], s)
  {
    assert FreshMovesAt([s, s'], 1);
  }

  lemma FinishedLater(s: State, s': State, rest: seq<State>)
    requires FreshMoves(s, s') && s'.passes == s.passes && FinishesPass(rest, s')
    ensures FinishesPass([s] + rest, s)
  {
    PathPrepend(s, rest);
  }

  lemma PathPrepend(s: State, path: seq<State>)
    requires BackendPath(path) && FreshMoves(s, path[0])
    ensures BackendPath([s] + path)
  {
    var path' := [s] + path;
    forall i: nat | 0 < i < |path'| ensures FreshMovesAt(path', i) {
      if i > 1 {
        assert FreshMovesAt(path, i - 1);
      }
    }
  }

  lemma OneMove(s: State, chain: seq<Ptr>) returns (s': State, chain': seq<Ptr>)
    requires Sound(s, chain) && !s.pc.Top?
    ensures Sound(s', chain') && FreshMoves(s, s') && s'.passes == s.passes + (if s'.pc.Top? then 1 else 0)
    ensures !s'.pc.Top? ==> Less(RankOf(s', chain'), RankOf(s, chain))
  {
    SoundMoves(s, chain);
    var next, step :| BackendStep(step) && Does(s, next, step) && Fresh(s, next);
    s' := next;
    BoundedWait.PassBoundaries(s, s', step);
    chain' := Registry.StepInv(s, s', step, chain);
    var kind := Delivery.KindOf(s, s', step);
    Delivery.EffectInv(s, s', kind);
    if !s'.pc.Top? {
      StepRank(s, s', step, chain, chain');
    }
  }

  /** A run can be continued by a path of the backend. */
  lemma ContinueBy(run: seq<State>, path: seq<State>) returns (run': seq<State>)
    requires IsRun(run) && BackendPath(path) && path[0] == run[|run| - 1]
    ensures IsRun(run') && run <= run' && run'[|run'| - 1] == path[|path| - 1] && |run'| == |run| + |path| - 1
    ensures forall i: nat :: |run| <= i < |run'| ==> FreshMovesAt(run', i)
  {
    run' := run + path[1..];
    forall i: nat | 0 < i < |run'| ensures StepAt(run', i) && (i >= |run| ==> FreshMovesAt(run', i)) {
      if i < |run| {
        assert StepAt(run, i);
      } else {
        Appended(run, path, i);
        MoveIsStep(run'[i - 1], run'[i]);
      }
    }
  }

  lemma Appended(run: seq<State>, path: seq<State>, i: nat)
    requires |run| > 0 && BackendPath(path) && path[0] == run[|run| - 1] && |run| <= i < |run| + |path| - 1
    ensures FreshMoves((run + path[1..])[i - 1], (run + path[1..])[i])
  {
    var k := i - |run| + 1;
    assert FreshMovesAt(path, k);
    assert (run + path[1..])[i - 1] == path[k - 1] && (run + path[1..])[i] == path[k];
  }

  lemma MoveIsStep(s: State, s': State)
    requires FreshMoves(s, s')
    ensures Next(s, s')
  {
  }

  /** From between two passes the backend can do a whole pass by its own steps. */
  lemma WholePass(run: seq<State>) returns (run': seq<State>)
    requires IsRun(run) && run[|run| - 1].pc.Top?
    ensures IsRun(run') && run <= run' && run'[|run'| - 1].pc.Top?
    ensures run'[|run'| - 1].passes == run[|run| - 1].passes + 1
    ensures forall i: nat :: |run| <= i < |run'| ==> FreshMovesAt(run', i)
  {
    var s := run[|run| - 1];
    var s' := s.(pc := Visit(s.head), visited := []);
    BoundedWait.NothingLoaded(s, s');
    assert Does(s, s', SLoadHead);
    var chain := Registry.RunInv(run, |run| - 1);
    Delivery.RunInv(run, |run| - 1);
    var chain' := Registry.StepInv(s, s', SLoadHead, chain);
    var kind := Delivery.KindOf(s, s', SLoadHead);
    Delivery.EffectInv(s, s', kind);
    var path := PathToEnd(s', chain', RankOf(s', chain'));
    PathPrepend(s, path);
    run' := ContinueBy(run, [s] + path);
  }

  /** The step at i, as a step of the backend if it can be seen as one. */
  lemma StepWithOwner(run: seq<State>, i: nat) returns (step: Step)
    requires IsRun(run) && 0 < i < |run|
    ensures Does(run[i - 1], run[i], step) && (BackendMovesAt(run, i) <==> BackendStep(step))
  {
    if BackendMovesAt(run, i) {
      step :| BackendStep(step) && Does(run[i - 1], run[i], step);
    } else {
      step := StepOf(run, i);
    }
  }

  lemma RankAt(run: seq<State>, b: nat, chain: seq<Ptr>) returns (now: seq<Ptr>)
    requires IsRun(run) && 0 < b < |run| && Registry.Inv(run[b - 1], chain)
    requires !run[b - 1].pc.Top? && !run[b].pc.Top?
    ensures Registry.Inv(run[b], now)
    ensures Fell(BackendMovesAt(run, b), RankOf(run[b], now), RankOf(run[b - 1], chain))
  {
    Delivery.RunQueues(run, b - 1);
    var step := StepWithOwner(run, b);
    now := Registry.StepInv(run[b - 1], run[b], step, chain);
    StepRank(run[b - 1], run[b], step, chain, now);
  }
}
