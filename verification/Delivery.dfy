/** End to end: what reaches the sink is, thread by thread, a prefix of what the thread's queue accepted. */
module Delivery {
  import opened Words
  import opened Framing
  import opened Wrappers
  import opened NodeList
  import opened Logger
  import opened Sequences
  import Spsc

  // ---------------------------------------------------------------- queues

  /** Every queue satisfies the invariant of the byte-level protocol. */
  ghost predicate QueueOk(th: Thread) {
    Spsc.Inv(th.q) && th.q.frame == EventFrame()
  }

  ghost predicate Queues(s: State) {
    forall t :: t in s.threads ==> QueueOk(s.threads[t])
  }

  lemma EventFrameIsGood()
    ensures Spsc.GoodFrame(EventFrame())
  {
    forall m: Spsc.Msg, n: nat | HEADER_SIZE <= n <= |m| ensures EventSize(m[..n]) == EventSize(m) {
      assert m[..n][24..32] == m[24..32];
    }
  }

  // ---------------------------------------------------------------- messages are events

  function EventsOf(sites: Sites, ms: seq<Spsc.Msg>): (es: seq<Event>)
    ensures |es| == |ms|
    ensures forall i :: 0 <= i < |ms| ==> es[i] == EventOf(sites, ms[i])
  {
    seq(|ms|, i requires 0 <= i < |ms| => EventOf(sites, ms[i]))
  }

  ghost predicate OnlyEvents(sites: Sites, q: Spsc.State) {
    && (forall k :: 0 <= k < |q.committed| ==> IsEvent(sites, q.committed[k]))
    && (q.p.PReload? || q.p.PCopy? ==> IsEvent(sites, q.p.msg))
  }

  ghost predicate Messages(s: State) {
    forall t :: t in s.threads ==> OnlyEvents(s.cfg.sites, s.threads[t].q)
  }

  // ---------------------------------------------------------------- kinds of steps

  /** What a step does to the queues and the log: a new queue, one producer step or one consumer step of one
      queue, the end of a read, the processing of an event, or nothing. */
  datatype Kind = Spawn(t: Tid) | Produce(t: Tid) | Consume(t: Tid) | Finish(t: Tid) | Process(t: Tid) | Quiet

  ghost predicate SameOutput(s: State, s': State) {
    s'.cfg == s.cfg && s'.log == s.log && s'.out == s.out
  }

  ghost predicate OthersSame(s: State, s': State, t: Tid) {
    && t in s.threads && s'.threads.Keys == s.threads.Keys && s'.heap == s.heap
    && forall t' :: t' in s.threads && t' != t ==> s'.threads[t'] == s.threads[t']
  }

  ghost predicate Spawned(s: State, s': State, t: Tid) {
    && t !in s.threads && s'.threads.Keys == s.threads.Keys + {t} && s'.pc == s.pc && SameOutput(s, s')
    && (exists capacity: nat ::
          Spsc.CanStart(EventFrame(), capacity) && s'.threads[t].q == Spsc.Init(EventFrame(), capacity))
    && (forall t' :: t' in s.threads ==> s'.threads[t'] == s.threads[t'])
    && (forall a :: a in s.heap ==> a in s'.heap && s'.heap[a] == s.heap[a])
    && (forall a :: a in s'.heap && a !in s.heap ==> s'.heap[a].ctx == t)
  }

  ghost predicate Produced(s: State, s': State, t: Tid) {
    && OthersSame(s, s', t) && SameOutput(s, s') && s'.pc == s.pc
    && var q, q' := s.threads[t].q, s'.threads[t].q;
    && Spsc.ProducerNext(q, q') && q'.frame == q.frame && q'.c == q.c && q'.consumed == q.consumed
    && (OnlyEvents(s.cfg.sites, q) ==> OnlyEvents(s.cfg.sites, q'))
  }

  ghost predicate Consumed(s: State, s': State, t: Tid) {
    && OthersSame(s, s', t) && SameOutput(s, s') && s.pc.Poll? && OnNode(s, t)
    && var q, q' := s.threads[t].q, s'.threads[t].q;
    && Spsc.ConsumerNext(q, q')
    && q'.frame == q.frame && q'.p == q.p && q'.committed == q.committed && q'.consumed == q.consumed
    && (s'.pc == s.pc || (s'.pc == Liveness(s.pc.node, s.pc.next) && q'.c.CIdle?))
  }

  ghost predicate Finished(s: State, s': State, t: Tid) {
    && OthersSame(s, s', t) && SameOutput(s, s') && s.pc.Commit? && OnNode(s, t) && s'.pc.Visit?
    && var q, q' := s.threads[t].q, s'.threads[t].q;
    && Spsc.ConsumerNext(q, q') && q.c.CCopy? && q'.c.CIdle?
    && q'.frame == q.frame && q'.p == q.p && q'.committed == q.committed && q'.consumed == q.consumed + [q.c.got]
  }

  ghost predicate Untouched(s: State, s': State) {
    && s'.threads.Keys == s.threads.Keys && SameOutput(s, s')
    && (forall t :: t in s.threads ==> s'.threads[t].q == s.threads[t].q)
    && (s.pc.Poll? || s.pc.Commit? ==>
          && s'.pc == s.pc
          && (s.pc.node in s.heap ==> s.pc.node in s'.heap && s'.heap[s.pc.node].ctx == s.heap[s.pc.node].ctx))
    && (s'.pc.Commit? ==> s.pc.Commit?)
  }

  ghost predicate Effect(s: State, s': State, kind: Kind) {
    match kind
    case Spawn(t) => Spawned(s, s', t)
    case Produce(t) => Produced(s, s', t)
    case Consume(t) => Consumed(s, s', t)
    case Finish(t) => Finished(s, s', t)
    case Process(t) => Emit(s, s', t)
    case Quiet => Untouched(s, s')
  }

  lemma KindOf(s: State, s': State, step: Step) returns (kind: Kind)
    requires Does(s, s', step)
    ensures Effect(s, s', kind)
  {
    if step.SAllocate? {
      kind := Spawn(step.t);
      AllocateSpawns(s, s', step);
    } else if step.SBegin? || step.SContinue? {
      kind := Produce(step.t);
      StepProduces(s, s', step);
    } else if step.SCheck? || step.SReload? || step.SCopy? {
      kind := Consume(step.t);
      StepConsumes(s, s', step);
    } else if step.SCommit? {
      kind := Finish(step.t);
    } else if step.SEmit? {
      kind := Process(step.t);
    } else {
      kind := Quiet;
      OtherIsQuiet(s, s', step);
    }
  }

  lemma AllocateSpawns(s: State, s': State, step: Step)
    requires Does(s, s', step) && step.SAllocate?
    ensures Spawned(s, s', step.t)
  {
    EventFrameIsGood();
    assert Spsc.CanStart(EventFrame(), step.capacity);
  }

  lemma StepProduces(s: State, s': State, step: Step)
    requires Does(s, s', step) && (step.SBegin? || step.SContinue?)
    ensures Produced(s, s', step.t)
  {
    if step.SBegin? {
      assert IsEvent(s.cfg.sites, EncodeEvent(step.e));
    }
  }

  lemma StepConsumes(s: State, s': State, step: Step)
    requires Does(s, s', step) && (step.SCheck? || step.SReload? || step.SCopy?)
    ensures Consumed(s, s', step.t)
  {
  }

  lemma OtherIsQuiet(s: State, s': State, step: Step)
    requires Does(s, s', step) && !step.SAllocate? && !step.SBegin? && !step.SContinue?
    requires !step.SCheck? && !step.SReload? && !step.SCopy? && !step.SCommit? && !step.SEmit?
    ensures Untouched(s, s')
  {
  }

  lemma QueuesStep(s: State, s': State, kind: Kind)
    requires Queues(s) && Effect(s, s', kind)
    ensures Queues(s')
  {
    forall t | t in s'.threads ensures QueueOk(s'.threads[t]) {
      if t in s.threads {
        assert QueueOk(s.threads[t]);
      }
      QueueStays(s, s', kind, t);
    }
  }

  /** Whatever the step, a queue stays in its protocol. */
  lemma QueueStays(s: State, s': State, kind: Kind, t: Tid)
    requires Effect(s, s', kind) && t in s'.threads
    requires t in s.threads ==> QueueOk(s.threads[t])
    ensures QueueOk(s'.threads[t])
  {
    if kind.Spawn? && kind.t == t {
      var capacity: nat :|
        Spsc.CanStart(EventFrame(), capacity) && s'.threads[t].q == Spsc.Init(EventFrame(), capacity);
      Spsc.InitInv(EventFrame(), capacity);
    } else if kind.Produce? && kind.t == t {
      Spsc.ProducerInv(s.threads[t].q, s'.threads[t].q);
    } else if (kind.Consume? || kind.Finish?) && kind.t == t {
      Spsc.ConsumerInv(s.threads[t].q, s'.threads[t].q);
    } else {
      assert s'.threads[t].q == s.threads[t].q;
    }
  }

  lemma MessagesStep(s: State, s': State, kind: Kind)
    requires Messages(s) && Effect(s, s', kind)
    ensures Messages(s')
  {
    forall t | t in s'.threads ensures OnlyEvents(s.cfg.sites, s'.threads[t].q) {
      if t in s.threads {
        assert OnlyEvents(s.cfg.sites, s.threads[t].q);
      }
    }
  }

  // ---------------------------------------------------------------- who reads

  ghost predicate Reading(s: State, t: Tid) {
    (s.pc.Poll? || s.pc.Commit?) && OnNode(s, t)
  }

  /** Only the queue of the node being polled is in the middle of a read, and the event being committed has
      been copied completely. */
  ghost predicate Readers(s: State) {
    && (forall t :: t in s.threads && !s.threads[t].q.c.CIdle? ==> Reading(s, t))
    && (forall t :: t in s.threads && s.pc.Commit? && OnNode(s, t) ==> Complete(s.threads[t].q))
    && (s.pc.Commit? ==> s.pc.node in s.heap && s.heap[s.pc.node].ctx in s.threads)
  }

  ghost predicate Complete(q: Spsc.State) {
    q.c.CCopy? && !Spsc.Wants(q.frame, q.c.got)
  }

  lemma ReadersStep(s: State, s': State, kind: Kind)
    requires Readers(s) && Effect(s, s', kind)
    ensures Readers(s')
  {
    forall t | t in s'.threads && !s'.threads[t].q.c.CIdle? ensures Reading(s', t) {
      if t in s.threads && !s.threads[t].q.c.CIdle? {
        assert Reading(s, t);
      }
    }
  }

  // ---------------------------------------------------------------- the log

  function EntriesOf(log: seq<Entry>, t: Tid): seq<Entry> {
    if log == [] then []
    else
      var last := log[|log| - 1];
      EntriesOf(log[..|log| - 1], t) + (if last.t == t then [last] else [])
  }

  function Events(entries: seq<Entry>): (es: seq<Event>)
    ensures |es| == |entries|
    ensures forall i :: 0 <= i < |entries| ==> es[i] == entries[i].event
  {
    seq(|entries|, i requires 0 <= i < |entries| => entries[i].event)
  }

  /** The lines of a log, each tagged with the thread it came from. */
  function Tagged(cfg: Config, log: seq<Entry>): seq<(Tid, string)> {
    if log == [] then []
    else
      var last := log[|log| - 1];
      Tagged(cfg, log[..|log| - 1]) + Tag(last.t, LinesOf(cfg, last))
  }

  function Tag(t: Tid, lines: seq<string>): (tagged: seq<(Tid, string)>)
    ensures |tagged| == |lines|
  {
    seq(|lines|, i requires 0 <= i < |lines| => (t, lines[i]))
  }

  function Texts(tagged: seq<(Tid, string)>): (lines: seq<string>)
    ensures |lines| == |tagged|
  {
    seq(|tagged|, i requires 0 <= i < |tagged| => tagged[i].1)
  }

  /** The formatted images of the entries that are not below the minimum level, in order. */
  function Images(cfg: Config, entries: seq<Entry>): seq<string> {
    if entries == [] then []
    else Images(cfg, entries[..|entries| - 1]) + LinesOf(cfg, entries[|entries| - 1])
  }

  /** The event that is processed but whose read is not committed yet. */
  function InFlight(s: State, t: Tid): seq<Event> {
    if s.pc.Commit? && s.pc.node in s.heap && s.heap[s.pc.node].ctx == t && t in s.threads && s.threads[t].q.c.CCopy?
    then [EventOf(s.cfg.sites, s.threads[t].q.c.got)]
    else []
  }

  function Processed(s: State, t: Tid): seq<Event> {
    (if t in s.threads then EventsOf(s.cfg.sites, s.threads[t].q.consumed) else []) + InFlight(s, t)
  }

  ghost predicate Logged(s: State) {
    && s.out == Texts(Tagged(s.cfg, s.log))
    && forall t :: Events(EntriesOf(s.log, t)) == Processed(s, t)
  }

  lemma EntriesAppend(log: seq<Entry>, e: Entry, t: Tid)
    ensures EntriesOf(log + [e], t) == EntriesOf(log, t) + (if e.t == t then [e] else [])
  {
    assert (log + [e])[..|log|] == log;
  }

  lemma TextsAppend(cfg: Config, log: seq<Entry>, e: Entry)
    ensures Texts(Tagged(cfg, log + [e])) == Texts(Tagged(cfg, log)) + LinesOf(cfg, e)
  {
    assert (log + [e])[..|log|] == log;
  }

  lemma LoggedStep(s: State, s': State, kind: Kind)
    requires Logged(s) && Readers(s) && Effect(s, s', kind)
    ensures Logged(s')
  {
    if kind.Process? {
      TextsAppend(s.cfg, s.log, s'.log[|s.log|]);
    }
    forall t ensures Events(EntriesOf(s'.log, t)) == Processed(s', t) {
      assert Events(EntriesOf(s.log, t)) == Processed(s, t);
      match kind
      case Process(t') => EmitProcessed(s, s', t', t);
      case Finish(t') => FinishProcessed(s, s', t', t);
      case _ => SameProcessed(s, s', kind, t);
    }
  }

  lemma EmitProcessed(s: State, s': State, t: Tid, t': Tid)
    requires Emit(s, s', t) && Events(EntriesOf(s.log, t')) == Processed(s, t')
    ensures Events(EntriesOf(s'.log, t')) == Processed(s', t')
  {
    EntriesAppend(s.log, s'.log[|s.log|], t');
  }

  lemma FinishProcessed(s: State, s': State, t: Tid, t': Tid)
    requires Finished(s, s', t)
    ensures Processed(s', t') == Processed(s, t')
  {
  }

  /** No other step changes what counts as processed. */
  lemma SameProcessed(s: State, s': State, kind: Kind, t: Tid)
    requires Readers(s) && Effect(s, s', kind) && !kind.Process? && !kind.Finish?
    ensures Processed(s', t) == Processed(s, t)
  {
  }

  // ---------------------------------------------------------------- every run

  ghost predicate Inv(s: State) {
    Queues(s) && Messages(s) && Readers(s) && Logged(s)
  }

  lemma EffectInv(s: State, s': State, kind: Kind)
    requires Inv(s) && Effect(s, s', kind)
    ensures Inv(s')
  {
    QueuesStep(s, s', kind);
    MessagesStep(s, s', kind);
    ReadersStep(s, s', kind);
    LoggedStep(s, s', kind);
  }

  lemma {:induction false} RunInv(run: seq<State>, i: nat)
    requires IsRun(run) && i < |run|
    ensures Inv(run[i])
    decreases i
  {
    if i > 0 {
      RunInv(run, i - 1);
      var step := StepOf(run, i);
      var kind := KindOf(run[i - 1], run[i], step);
      EffectInv(run[i - 1], run[i], kind);
    }
  }

  lemma RunQueues(run: seq<State>, i: nat)
    requires IsRun(run) && i < |run|
    ensures Queues(run[i])
  {
    RunInv(run, i);
  }

  // ---------------------------------------------------------------- main results

  /** The events a thread's queue has accepted so far, in order. */
  function Accepted(s: State, t: Tid): seq<Event>
    requires t in s.threads
  {
    EventsOf(s.cfg.sites, s.threads[t].q.committed)
  }

  /** Each committed message is the encoding of a well-typed event, and the accepted event is that event. */
  lemma AcceptedAreEvents(run: seq<State>, i: nat, t: Tid, k: nat)
    requires IsRun(run) && i < |run| && t in run[i].threads && k < |run[i].threads[t].q.committed|
    ensures var e := Accepted(run[i], t)[k];
            ValidEvent(run[i].cfg.sites, e) && run[i].threads[t].q.committed[k] == EncodeEvent(e)
  {
    RunInv(run, i);
    AcceptedIsEvent(run[i], t, k);
  }

  lemma AcceptedIsEvent(s: State, t: Tid, k: nat)
    requires Inv(s) && t in s.threads && k < |s.threads[t].q.committed|
    ensures var e := Accepted(s, t)[k];
            ValidEvent(s.cfg.sites, e) && s.threads[t].q.committed[k] == EncodeEvent(e)
  {
    assert OnlyEvents(s.cfg.sites, s.threads[t].q);
    assert IsEvent(s.cfg.sites, s.threads[t].q.committed[k]);
    var e :| ValidEvent(s.cfg.sites, e) && s.threads[t].q.committed[k] == EncodeEvent(e);
    EventSurvives(s.cfg.sites, e);
  }

  lemma {:induction false} LinesPerThread(cfg: Config, log: seq<Entry>, t: Tid)
    ensures OfThread(Tagged(cfg, log), t) == Images(cfg, EntriesOf(log, t))
  {
    if log != [] {
      var init, last := log[..|log| - 1], log[|log| - 1];
      LinesPerThread(cfg, init, t);
      OfThreadAppend(Tagged(cfg, init), last.t, LinesOf(cfg, last), t);
      ImagesAppend(cfg, EntriesOf(init, t), last);
      assert EntriesOf(init, t) + [] == EntriesOf(init, t);
    }
  }

  lemma OfThreadAppend(tagged: seq<(Tid, string)>, t: Tid, lines: seq<string>, t': Tid)
    requires |lines| <= 1
    ensures OfThread(tagged + Tag(t, lines), t') == OfThread(tagged, t') + (if t == t' then lines else [])
  {
    var all := tagged + Tag(t, lines);
    if lines == [] {
      assert all == tagged;
    } else {
      assert all[..|all| - 1] == tagged && all[|all| - 1] == (t, lines[0]);
      assert lines == [lines[0]];
    }
  }

  lemma ImagesAppend(cfg: Config, entries: seq<Entry>, last: Entry)
    ensures Images(cfg, entries + [last]) == Images(cfg, entries) + LinesOf(cfg, last)
  {
    assert (entries + [last])[..|entries|] == entries;
  }

  /** What the byte-level protocol promises about reads. */
  ghost predicate ReadsInOrder(q: Spsc.State) {
    && q.consumed <= q.committed
    && (Complete(q) ==> |q.consumed| < |q.committed| && q.c.got == q.committed[|q.consumed|])
  }

  lemma QueueReadsInOrder(q: Spsc.State)
    requires Spsc.Inv(q)
    ensures ReadsInOrder(q)
  {
    if Complete(q) {
      Spsc.WholeMessage(q);
    }
  }

  lemma ProcessedIsPrefix(s: State, t: Tid)
    requires Readers(s) && t in s.threads && ReadsInOrder(s.threads[t].q)
    ensures Processed(s, t) <= Accepted(s, t)
  {
    if InFlight(s, t) != [] {
      assert Complete(s.threads[t].q);
    }
  }

  /** End to end: in every run, with any number of threads and any level and formatter changes, the sink holds
      the lines of the processing log; the lines of one thread are exactly the formatted images, in order, of
      its entries that were not below the minimum level when processed; and its entries are, in order, a prefix
      of the events its queue accepted. */
  lemma Delivered(run: seq<State>, i: nat, t: Tid)
    requires IsRun(run) && i < |run| && t in run[i].threads
    ensures var s, entries := run[i], EntriesOf(run[i].log, t);
      && s.out == Texts(Tagged(s.cfg, s.log))
      && OfThread(Tagged(s.cfg, s.log), t) == Images(s.cfg, entries)
      && Events(entries) <= Accepted(s, t)
  {
    RunInv(run, i);
    var s := run[i];
    assert QueueOk(s.threads[t]);
    QueueReadsInOrder(s.threads[t].q);
    LinesPerThread(s.cfg, s.log, t);
    ProcessedIsPrefix(s, t);
    assert Events(EntriesOf(s.log, t)) == Processed(s, t);
  }

  /** The decoder never fails on a completely copied event, so processing is never stuck. */
  lemma ProcessingNeverFails(run: seq<State>, i: nat, t: Tid)
    requires IsRun(run) && i < |run|
    requires run[i].pc.Poll? && OnNode(run[i], t) && Complete(run[i].threads[t].q)
    ensures var s := run[i]; var q := s.threads[t].q;
      && |q.consumed| < |q.committed|
      && var e := Accepted(s, t)[|q.consumed|];
         DecodeEvent(s.cfg.sites, q.c.got) == Some((e, |q.c.got|))
  {
    RunInv(run, i);
    CompleteDecodes(run[i], t);
  }

  lemma CompleteDecodes(s: State, t: Tid)
    requires Inv(s) && t in s.threads && Complete(s.threads[t].q)
    ensures var q := s.threads[t].q;
      && |q.consumed| < |q.committed|
      && DecodeEvent(s.cfg.sites, q.c.got) == Some((Accepted(s, t)[|q.consumed|], |q.c.got|))
  {
    var q := s.threads[t].q;
    assert QueueOk(s.threads[t]);
    QueueReadsInOrder(q);
    AcceptedIsEvent(s, t, |q.consumed|);
    EventSurvives(s.cfg.sites, Accepted(s, t)[|q.consumed|]);
  }

  // ---------------------------------------------------------------- what one step writes

  /** Between two states of a run either nothing is processed and nothing written, or exactly one event is: the next
      one of some thread, under the minimum level and the formatter then in force. Its line is written if and only if
      its level is not below the minimum. */
  lemma OneEventAtATime(run: seq<State>, i: nat)
    requires IsRun(run) && 0 < i < |run|
    ensures var s, s' := run[i - 1], run[i];
      && s'.cfg == s.cfg
      && (s'.log == s.log ==> s'.out == s.out)
      && (s'.log != s.log ==>
            && |s'.log| == |s.log| + 1 && s'.log[..|s.log|] == s.log
            && var entry := s'.log[|s.log|];
            && entry.level == s.level && entry.formatter == s.formatter
            && entry.t in s.threads && |s.threads[entry.t].q.consumed| < |s.threads[entry.t].q.committed|
            && entry.event == Accepted(s, entry.t)[|s.threads[entry.t].q.consumed|]
            && entry.event.site in s.cfg.sites
            && s'.out == (if s.cfg.sites[entry.event.site].level >= s.level
                          then s.out + [s.cfg.render(s.formatter, entry.event)] else s.out))
  {
    RunInv(run, i - 1);
    var step := StepOf(run, i);
    var kind := KindOf(run[i - 1], run[i], step);
    if kind.Process? {
      EmitWrites(run[i - 1], run[i], kind.t);
    } else {
      OthersWriteNothing(run[i - 1], run[i], kind);
    }
  }

  lemma OthersWriteNothing(s: State, s': State, kind: Kind)
    requires Effect(s, s', kind) && !kind.Process?
    ensures SameOutput(s, s')
  {
  }

  lemma EmitWrites(s: State, s': State, t: Tid)
    requires Inv(s) && Emit(s, s', t)
    ensures s'.cfg == s.cfg && |s'.log| == |s.log| + 1 && s'.log[..|s.log|] == s.log
    ensures |s.threads[t].q.consumed| < |s.threads[t].q.committed|
    ensures var entry := s'.log[|s.log|];
      && entry.t == t && entry.level == s.level && entry.formatter == s.formatter
      && entry.event == Accepted(s, t)[|s.threads[t].q.consumed|]
      && entry.event.site in s.cfg.sites
      && s'.out == (if s.cfg.sites[entry.event.site].level >= s.level
                    then s.out + [s.cfg.render(s.formatter, entry.event)] else s.out)
  {
    CompleteDecodes(s, t);
    DecodedSite(s.cfg.sites, s.threads[t].q.c.got);
    EmitEntry(s, s', t, Accepted(s, t)[|s.threads[t].q.consumed|]);
  }

  lemma EmitEntry(s: State, s': State, t: Tid, e: Event)
    requires Emit(s, s', t) && e.site in s.cfg.sites
    requires var d := DecodeEvent(s.cfg.sites, s.threads[t].q.c.got); d.Some? && d.value.0 == e
    ensures s'.cfg == s.cfg && s'.log == s.log + [Entry(t, e, s.level, s.formatter)]
    ensures s'.out == (if s.cfg.sites[e.site].level >= s.level then s.out + [s.cfg.render(s.formatter, e)] else s.out)
  {
    assert s.out + [] == s.out;
  }

  lemma DecodedSite(sites: Sites, m: seq<byte>)
    requires DecodeEvent(sites, m).Some?
    ensures DecodeEvent(sites, m).value.0.site in sites
  {
  }

  /** The minimum level can be set to any value at any time, and the formatter switched between two passes; both change
      nothing else, and no other step changes them. */
  lemma LevelCanBeSet(s: State, level: nat, formatter: nat)
    ensures Next(s, s.(level := level))
    ensures s.pc.Top? ==> Next(s, s.(formatter := formatter))
  {
    assert Does(s, s.(level := level), SLevel(level));
    if s.pc.Top? {
      assert Does(s, s.(formatter := formatter), SFormatter(formatter));
    }
  }

  lemma LevelIsKept(s: State, s': State)
    requires Next(s, s')
    ensures s'.level != s.level ==> s' == s.(level := s'.level)
    ensures s'.formatter != s.formatter ==> s.pc.Top? && s' == s.(formatter := s'.formatter)
  {
    var step :| Does(s, s', step);
  }
}
