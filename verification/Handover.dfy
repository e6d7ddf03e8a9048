/** Handing a resource over to the backend: any thread may queue a new sink or pattern formatter, the backend switches
    to it between two events, and whatever is displaced is released. Every atomic exchange and every release is a step
    of its own, so queueing threads, the backend and the destructor interleave freely. */
module Handover {
  import opened Wrappers

  /** A file or a formatter. */
  type Resource = nat

  datatype Phase = Alive | Destroying | PendingReleased | Destroyed

  datatype State = State(
    exempt: set<Resource>,          // stdout and stderr, which are never closed; empty for formatters
    pending: Option<Resource>,      // the atomic pointer
    current: Resource,              // in use by the backend
    taken: Option<Resource>,        // taken out of pending by the backend or the destructor, not yet installed
    retired: bool,                  // current has been released and is not in use any more
    displaced: multiset<Resource>,  // taken out of pending by queueing threads, not yet released
    released: multiset<Resource>,
    closed: multiset<Resource>,     // really closed or deleted
    handed: multiset<Resource>,     // everything ever handed over, with the initial resource
    phase: Phase)

  function Initial(exempt: set<Resource>, first: Resource): State {
    State(exempt, None, first, None, false, multiset{}, multiset{}, multiset{}, multiset{first}, Alive)
  }

  datatype Step =
    | QueueNull                     // a null pointer is ignored
    | Queue(r: Resource)            // a thread's exchange
    | ReleaseDisplaced(r: Resource) // the same thread releases what it got from the exchange
    | Take                          // the backend's exchange
    | ReleaseCurrent                // it releases what it used so far, if it got something
    | Install                       // and switches
    | Use                           // writing a line, or formatting
    | DestroyTake                   // the destructor's exchange
    | ReleasePending
    | ReleaseLast

  predicate Enabled(s: State, step: Step) {
    match step
    case QueueNull => true
    case Queue(_) => s.phase == Alive
    case ReleaseDisplaced(r) => r in s.displaced
    case Take => s.phase == Alive && s.taken == None && !s.retired
    case ReleaseCurrent => s.phase == Alive && s.taken.Some? && !s.retired
    case Install => s.phase == Alive && s.taken.Some? && s.retired
    case Use => s.phase == Alive && s.taken == None && !s.retired
    case DestroyTake => s.phase == Alive && s.taken == None && !s.retired
    case ReleasePending => s.phase == Destroying
    case ReleaseLast => s.phase == PendingReleased
  }

  function AsBag(r: Option<Resource>): multiset<Resource> {
    match r case None => multiset{} case Some(x) => multiset{x}
  }

  /** Releasing calls fclose or delete, except for the standard streams. */
  function Closing(exempt: set<Resource>, closed: multiset<Resource>, r: Resource): multiset<Resource> {
    if r in exempt then closed else closed + multiset{r}
  }

  function Release(s: State, r: Resource): State {
    s.(released := s.released + multiset{r}, closed := Closing(s.exempt, s.closed, r))
  }

  function Apply(s: State, step: Step): State
    requires Enabled(s, step)
  {
    match step
    case QueueNull => s
    case Queue(r) =>
      s.(pending := Some(r), displaced := s.displaced + AsBag(s.pending), handed := s.handed + multiset{r})
    case ReleaseDisplaced(r) => Release(s, r).(displaced := s.displaced - multiset{r})
    case Take => s.(taken := s.pending, pending := None)
    case ReleaseCurrent => Release(s, s.current).(retired := true)
    case Install => s.(current := s.taken.value, taken := None, retired := false)
    case Use => s
    case DestroyTake => s.(taken := s.pending, pending := None, phase := Destroying)
    case ReleasePending =>
      (if s.taken.Some? then Release(s, s.taken.value) else s).(taken := None, phase := PendingReleased)
    case ReleaseLast => Release(s, s.current).(retired := true, phase := Destroyed)
  }

  /** s' is reached from s by these steps. */
  predicate Run(s: State, steps: seq<Step>, s': State)
    decreases |steps|
  {
    if steps == [] then s' == s
    else Enabled(s, steps[0]) && Run(Apply(s, steps[0]), steps[1..], s')
  }

  // ---------------------------------------------------------------- conservation

  function CurrentBag(s: State): multiset<Resource> {
    if s.retired then multiset{} else multiset{s.current}
  }

  /** Every resource handed over is pending, taken, in use, in the hands of a queueing thread, or released. */
  ghost predicate Conserved(s: State) {
    s.handed == AsBag(s.pending) + AsBag(s.taken) + CurrentBag(s) + s.displaced + s.released
  }

  ghost predicate ClosedAreReleased(s: State) {
    Accounted(s.exempt, s.closed, s.released)
  }

  /** What is closed is what was released, without the exempt resources. */
  ghost predicate Accounted(exempt: set<Resource>, closed: multiset<Resource>, released: multiset<Resource>) {
    forall r :: closed[r] == if r in exempt then 0 else released[r]
  }

  lemma ReleaseCloses(s: State, r: Resource)
    requires ClosedAreReleased(s)
    ensures ClosedAreReleased(Release(s, r))
  {
  }

  /** The backend is in the middle of a switch exactly while its resource is released but not replaced. */
  ghost predicate PhaseInv(s: State) {
    && (s.phase == Alive && s.retired ==> s.taken.Some?)
    && (s.phase == Destroying ==> !s.retired)
    && (s.phase == PendingReleased ==> !s.retired && s.taken == None && s.pending == None)
    && (s.phase == Destroying ==> s.pending == None)
    && (s.phase == Destroyed ==> s.retired && s.taken == None && s.pending == None)
  }

  ghost predicate Inv(s: State) {
    Conserved(s) && ClosedAreReleased(s) && PhaseInv(s)
  }

  lemma StepConserves(s: State, step: Step)
    requires Enabled(s, step) && Conserved(s) && PhaseInv(s)
    ensures Conserved(Apply(s, step))
  {
  }

  lemma StepCloses(s: State, step: Step)
    requires Enabled(s, step) && ClosedAreReleased(s)
    ensures ClosedAreReleased(Apply(s, step)) && Apply(s, step).exempt == s.exempt
  {
    match step
    case ReleaseDisplaced(r) => ReleaseCloses(s, r);
    case ReleaseCurrent => ReleaseCloses(s, s.current);
    case ReleasePending =>
      if s.taken.Some? {
        ReleaseCloses(s, s.taken.value);
      }
    case ReleaseLast => ReleaseCloses(s, s.current);
    case _ =>
  }

  lemma {:induction false} RunInv(s: State, steps: seq<Step>, s': State)
    requires Inv(s) && Run(s, steps, s')
    ensures Inv(s') && s'.exempt == s.exempt
    decreases |steps|
  {
    if steps != [] {
      StepConserves(s, steps[0]);
      StepCloses(s, steps[0]);
      RunInv(Apply(s, steps[0]), steps[1..], s');
    }
  }

  lemma ReachableInv(exempt: set<Resource>, first: Resource, steps: seq<Step>, s: State)
    requires Run(Initial(exempt, first), steps, s)
    ensures Inv(s) && s.exempt == exempt
  {
    RunInv(Initial(exempt, first), steps, s);
  }

  /** In every reachable state a resource that was handed over once is in exactly one place. */
  lemma InExactlyOnePlace(exempt: set<Resource>, first: Resource, steps: seq<Step>, s: State, r: Resource)
    requires Run(Initial(exempt, first), steps, s) && s.handed[r] == 1
    ensures AsBag(s.pending)[r] + AsBag(s.taken)[r] + CurrentBag(s)[r] + s.displaced[r] + s.released[r] == 1
  {
    ReachableInv(exempt, first, steps, s);
  }

  /** A resource that was handed over once is never used after it has been released. */
  lemma NeverUsedAfterRelease(exempt: set<Resource>, first: Resource, steps: seq<Step>, s: State)
    requires Run(Initial(exempt, first), steps, s) && Enabled(s, Use)
    ensures s.handed[s.current] == 1 ==> s.released[s.current] == 0 && s.closed[s.current] == 0
  {
    ReachableInv(exempt, first, steps, s);
    assert CurrentBag(s)[s.current] == 1;
  }

  /** Once the destructor is done and no queueing thread is about to release something, every resource has been
      closed exactly as often as it was handed over, the standard streams never; so exactly once, and not at all
      twice, exactly if it was handed over once. */
  lemma DestructorReleasesAll(exempt: set<Resource>, first: Resource, steps: seq<Step>, s: State, r: Resource)
    requires Run(Initial(exempt, first), steps, s) && s.phase == Destroyed && s.displaced == multiset{}
    ensures s.closed[r] == if r in exempt then 0 else s.handed[r]
  {
    ReachableInv(exempt, first, steps, s);
  }

  /** Before that, nothing is closed more often than it was handed over. */
  lemma NeverClosedTooOften(exempt: set<Resource>, first: Resource, steps: seq<Step>, s: State, r: Resource)
    requires Run(Initial(exempt, first), steps, s)
    ensures s.closed[r] <= s.handed[r] && (r in exempt ==> s.closed[r] == 0)
  {
    ReachableInv(exempt, first, steps, s);
  }

  // ---------------------------------------------------------------- what has been handed over

  function Queued(steps: seq<Step>): multiset<Resource> {
    if steps == [] then multiset{}
    else (if steps[0].Queue? then multiset{steps[0].r} else multiset{}) + Queued(steps[1..])
  }

  /** What counts as handed over is the initial resource and what was queued. */
  lemma {:induction false} HandedIsQueued(s: State, steps: seq<Step>, s': State)
    requires Run(s, steps, s')
    ensures s'.handed == s.handed + Queued(steps)
    decreases |steps|
  {
    if steps != [] {
      HandedIsQueued(Apply(s, steps[0]), steps[1..], s');
    }
  }

  // ---------------------------------------------------------------- queueing one resource twice

  lemma {:induction false} RunStep(s: State, steps: seq<Step>, s': State, step: Step)
    requires Run(s, steps, s') && Enabled(s', step)
    ensures Run(s, steps + [step], Apply(s', step))
    decreases |steps|
  {
    if steps == [] {
      assert [step][1..] == [];
    } else {
      assert (steps + [step])[1..] == steps[1..] + [step];
      RunStep(Apply(s, steps[0]), steps[1..], s', step);
    }
  }

  predicate Idle(s: State) {
    s.phase == Alive && s.pending == None && s.taken == None && !s.retired
  }

  /** One resource is queued and the backend switches to it. */
  lemma SwitchTo(s0: State, steps: seq<Step>, s: State, r: Resource) returns (steps': seq<Step>, s': State)
    requires Run(s0, steps, s) && Idle(s)
    ensures Run(s0, steps', s') && Idle(s') && s'.current == r && s'.exempt == s.exempt
    ensures s'.closed == Release(s, s.current).closed
  {
    RunStep(s0, steps, s, Queue(r));
    var s1 := Apply(s, Queue(r));
    RunStep(s0, steps + [Queue(r)], s1, Take);
    var s2 := Apply(s1, Take);
    RunStep(s0, steps + [Queue(r)] + [Take], s2, ReleaseCurrent);
    var s3 := Apply(s2, ReleaseCurrent);
    RunStep(s0, steps + [Queue(r)] + [Take] + [ReleaseCurrent], s3, Install);
    steps', s' := steps + [Queue(r)] + [Take] + [ReleaseCurrent] + [Install], Apply(s3, Install);
  }

  /** Why a resource must not be handed over twice: the backend would close it and go on using it. */
  lemma SomeRunUsesAClosedResource(first: Resource, r: Resource) returns (steps: seq<Step>, s: State)
    requires first != r
    ensures Run(Initial({first}, first), steps, s) && Enabled(s, Use) && s.current == r && s.closed[r] == 1
  {
    var s0 := Initial({first}, first);
    steps, s := SwitchTo(s0, [], s0, r);
    steps, s := SwitchTo(s0, steps, s, r);
  }

  // ---------------------------------------------------------------- the handler object

  /** SinkHandler and PatternFormatterHandler; each call runs here without another one in between. */
  class Handler {
    const exempt: set<Resource>
    var current: Resource
    var pending: Option<Resource>
    var closed: multiset<Resource>  // the calls of fclose, or of delete
    var destroyed: bool
    ghost var released: multiset<Resource>
    ghost var handed: multiset<Resource>

    /** The state of the step system in the middle of a call. */
    ghost function During(taken: Option<Resource>, retired: bool, displaced: multiset<Resource>, phase: Phase): State
      reads this
    {
      State(exempt, pending, current, taken, retired, displaced, released, closed, handed, phase)
    }

    /** And between two calls. */
    ghost function Abstract(): State
      reads this
    {
      During(None, destroyed, multiset{}, if destroyed then Destroyed else Alive)
    }

    constructor (exempt: set<Resource>, first: Resource)
      ensures Abstract() == Initial(exempt, first)
    {
      this.exempt, current, pending, closed, destroyed := exempt, first, None, multiset{}, false;
      released, handed := multiset{}, multiset{first};
    }

    /** close_file. */
    method CloseFile(r: Resource)
      modifies this`closed, this`released
      ensures closed == Closing(exempt, old(closed), r)
      ensures released == old(released) + multiset{r}
    {
      if r !in exempt {
        closed := closed + multiset{r};
      }
      released := released + multiset{r};
    }

    /** queue_new_sink, queue_new_formatter; None is the null pointer. */
    method QueueNew(r: Option<Resource>)
      requires !destroyed
      modifies this`pending, this`closed, this`released, this`handed
      ensures Run(old(Abstract()), QueueSteps(r, old(pending)), Abstract())
      ensures r == None ==> pending == old(pending) && closed == old(closed)
      ensures r != None ==> pending == r
      ensures r != None && old(pending) != None && old(pending).value !in exempt ==>
                closed == old(closed) + multiset{old(pending).value}
      ensures r != None && (old(pending) == None || old(pending).value in exempt) ==> closed == old(closed)
      ensures current == old(current)
    {
      ghost var before := Abstract();
      if r == None {
        RunOfOne(before, QueueNull, before);
        return;
      }
      var previous := pending;
      pending := r;
      handed := handed + multiset{r.value};
      ghost var mid := During(None, false, AsBag(previous), Alive);
      QueueDisplaces(before, r.value);
      if previous != None {
        CloseFile(previous.value);
        DisplacedIsReleased(mid, previous.value);
        RunOfTwo(before, Queue(r.value), ReleaseDisplaced(previous.value), Abstract());
      } else {
        RunOfOne(before, Queue(r.value), Abstract());
      }
    }

    /** poll_for_pending_sink_switch, poll_for_pending_formatter_switch. */
    method PollForPendingSwitch()
      requires !destroyed
      modifies this`current, this`pending, this`closed, this`released
      ensures Run(old(Abstract()), SwitchSteps(old(pending)), Abstract())
      ensures pending == None && current == (if old(pending) == None then old(current) else old(pending).value)
      ensures old(pending) != None && old(current) !in exempt ==> closed == old(closed) + multiset{old(current)}
      ensures old(pending) == None || old(current) in exempt ==> closed == old(closed)
    {
      ghost var before := Abstract();
      var next := pending;
      pending := None;
      ghost var s1 := During(next, false, multiset{}, Alive);
      assert s1 == Apply(before, Take);
      if next != None {
        CloseFile(current);
        ghost var s2 := During(next, true, multiset{}, Alive);
        assert s2 == Apply(s1, ReleaseCurrent);
        current := next.value;
        assert Abstract() == Apply(s2, Install);
        RunOfThree(before, Take, ReleaseCurrent, Install, Abstract());
      } else {
        RunOfOne(before, Take, Abstract());
      }
    }

    /** The destructor. */
    method Destroy()
      requires !destroyed
      modifies this`pending, this`closed, this`released, this`destroyed
      ensures destroyed && Run(old(Abstract()), [DestroyTake, ReleasePending, ReleaseLast], Abstract())
      ensures pending == None && current == old(current)
      ensures closed == old(closed)
                        + (if old(pending) != None && old(pending).value !in exempt then multiset{old(pending).value}
                           else multiset{})
                        + (if current !in exempt then multiset{current} else multiset{})
    {
      ghost var before := Abstract();
      ghost var s2 := ReleaseLastPending();
      CloseFile(current);
      destroyed := true;
      assert Abstract() == Apply(s2, ReleaseLast);
      RunOfThree(before, DestroyTake, ReleasePending, ReleaseLast, Abstract());
    }

    /** The first half of the destructor. */
    method ReleaseLastPending() returns (ghost s2: State)
      requires !destroyed
      modifies this`pending, this`closed, this`released
      ensures Enabled(old(Abstract()), DestroyTake)
      ensures var s1 := Apply(old(Abstract()), DestroyTake); Enabled(s1, ReleasePending) && s2 == Apply(s1, ReleasePending)
      ensures s2 == During(None, false, multiset{}, PendingReleased) && pending == None
      ensures closed == old(closed) + (if old(pending) != None && old(pending).value !in exempt
                                       then multiset{old(pending).value} else multiset{})
    {
      ghost var before := Abstract();
      var last := pending;
      pending := None;
      ghost var s1 := During(last, false, multiset{}, Destroying);
      assert s1 == Apply(before, DestroyTake);
      if last != None {
        CloseFile(last.value);
      }
      s2 := During(None, false, multiset{}, PendingReleased);
      assert s2 == Apply(s1, ReleasePending);
    }
  }

  function QueueSteps(r: Option<Resource>, previous: Option<Resource>): seq<Step> {
    if r == None then [QueueNull]
    else if previous == None then [Queue(r.value)]
    else [Queue(r.value), ReleaseDisplaced(previous.value)]
  }

  function SwitchSteps(pending: Option<Resource>): seq<Step> {
    if pending == None then [Take] else [Take, ReleaseCurrent, Install]
  }

  lemma QueueDisplaces(s: State, r: Resource)
    requires s.phase == Alive && s.displaced == multiset{}
    ensures Apply(s, Queue(r))
            == s.(pending := Some(r), displaced := AsBag(s.pending), handed := s.handed + multiset{r})
  {
    assert multiset{} + AsBag(s.pending) == AsBag(s.pending);
  }

  lemma DisplacedIsReleased(s: State, r: Resource)
    requires s.displaced == multiset{r}
    ensures Apply(s, ReleaseDisplaced(r)) == Release(s, r).(displaced := multiset{})
  {
  }

  lemma RunOfOne(s: State, a: Step, s': State)
    requires Enabled(s, a) && s' == Apply(s, a)
    ensures Run(s, [a], s')
  {
    assert [a][1..] == [];
  }

  lemma RunOfTwo(s: State, a: Step, b: Step, s': State)
    requires Enabled(s, a) && Enabled(Apply(s, a), b) && s' == Apply(Apply(s, a), b)
    ensures Run(s, [a, b], s')
  {
    assert [a, b][1..] == [b] && [b][1..] == [];
    assert Run(Apply(s, a), [b], s');
  }

  lemma RunOfThree(s: State, a: Step, b: Step, c: Step, s': State)
    requires Enabled(s, a) && Enabled(Apply(s, a), b) && Enabled(Apply(Apply(s, a), b), c)
    requires s' == Apply(Apply(Apply(s, a), b), c)
    ensures Run(s, [a, b, c], s')
  {
    assert [a, b, c][1..] == [b, c];
    RunOfTwo(Apply(s, a), b, c, s');
  }
}
