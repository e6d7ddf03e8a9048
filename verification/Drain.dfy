/** The backend's list operations and poll loop in their imperative form, for the phases in which no other thread
    interferes; in particular the drain loop at shutdown, when every thread is dead and none registers. */
module Drain {
  import opened NodeList
  import opened Sequences

  type Msg = seq<int>
  type Queues = map<Tid, seq<Msg>>

  // ---------------------------------------------------------------- one pass, as a function

  function Unread(queues: Queues, t: Tid): seq<Msg> {
    if t in queues then queues[t] else []
  }

  /** The events one pass processes: the oldest of every non-empty queue, in list order. */
  function Firsts(ts: seq<Tid>, queues: Queues): seq<(Tid, Msg)> {
    if ts == [] then []
    else
      var t := ts[|ts| - 1];
      Firsts(ts[..|ts| - 1], queues) + (if Unread(queues, t) == [] then [] else [(t, Unread(queues, t)[0])])
  }

  /** What a pass leaves in the queue of t. */
  function Later(queues: Queues, t: Tid): seq<Msg> {
    if Unread(queues, t) == [] then [] else Unread(queues, t)[1..]
  }

  /** A pass keeps a context unless its queue is empty and its thread dead. */
  predicate Survives(queues: Queues, dead: set<Tid>, t: Tid) {
    Unread(queues, t) != [] || t !in dead
  }

  function Survivors(ts: seq<Tid>, queues: Queues, dead: set<Tid>): seq<Tid> {
    if ts == [] then []
    else
      var t := ts[|ts| - 1];
      Survivors(ts[..|ts| - 1], queues, dead) + (if Survives(queues, dead, t) then [t] else [])
  }

  /** The elements of sub stand in the order they have in ts. */
  ghost predicate InOrder(sub: seq<Tid>, ts: seq<Tid>) {
    forall i, j, x, y :: 0 <= i < j < |sub| && 0 <= x < |ts| && 0 <= y < |ts| && sub[i] == ts[x] && sub[j] == ts[y]
      ==> x < y
  }

  /** What a pass over the contexts ts leaves: exactly the contexts with an empty queue and a dead thread are gone, the
      others are in their old order, and one event of every non-empty queue is gone. */
  ghost predicate PassLeaves(ts: seq<Tid>, queues: Queues, dead: set<Tid>, ts': seq<Tid>, queues': Queues) {
    && (forall t :: t in ts' <==> t in ts && ((t in queues && queues[t] != []) || t !in dead))
    && InOrder(ts', ts)
    && (forall t :: t in queues' <==> t in queues && (t in ts ==> queues[t] != [] || t !in dead))
    && (forall t :: t in queues' ==>
          queues'[t] == (if t in ts && queues[t] != [] then queues[t][1..] else queues[t]))
  }

  /** A pass keeps exactly the contexts with an event left or a live thread, in their order. */
  lemma {:induction false} SurvivorsLaw(ts: seq<Tid>, queues: Queues, dead: set<Tid>)
    requires DistinctTids(ts)
    ensures forall t :: t in Survivors(ts, queues, dead) <==>
              t in ts && ((t in queues && queues[t] != []) || t !in dead)
    ensures InOrder(Survivors(ts, queues, dead), ts)
  {
    if ts != [] {
      var init, t := ts[..|ts| - 1], ts[|ts| - 1];
      InInit(ts, t);
      SurvivorsLaw(init, queues, dead);
      var rest := Survivors(init, queues, dead);
      MembersOfAppend(ts, queues, dead, rest);
      OrderOfAppend(init, t, rest, Survives(queues, dead, t));
      assert ts == init + [t];
    }
  }

  lemma MembersOfAppend(ts: seq<Tid>, queues: Queues, dead: set<Tid>, rest: seq<Tid>)
    requires ts != [] && rest == Survivors(ts[..|ts| - 1], queues, dead)
    requires forall t :: t in rest <==> t in ts[..|ts| - 1] && ((t in queues && queues[t] != []) || t !in dead)
    ensures forall t :: t in Survivors(ts, queues, dead) <==>
              t in ts && ((t in queues && queues[t] != []) || t !in dead)
  {
    assert ts == ts[..|ts| - 1] + [ts[|ts| - 1]];
  }

  lemma OrderOfAppend(init: seq<Tid>, t: Tid, sub: seq<Tid>, kept: bool)
    requires InOrder(sub, init) && t !in init && (forall x :: x in sub ==> x in init)
    ensures InOrder(sub + (if kept then [t] else []), init + [t])
  {
    var sub', ts := sub + (if kept then [t] else []), init + [t];
    forall i, j, x, y | 0 <= i < j < |sub'| && 0 <= x < |ts| && 0 <= y < |ts| && sub'[i] == ts[x] && sub'[j] == ts[y]
      ensures x < y
    {
      assert sub[i] in init;
    }
  }

  /** A pass processes the oldest event of exactly the non-empty queues, in list order. */
  lemma {:induction false} FirstsLaw(ts: seq<Tid>, queues: Queues)
    requires DistinctTids(ts)
    ensures forall t :: t in Tids(Firsts(ts, queues)) <==> t in ts && t in queues && queues[t] != []
    ensures forall e :: e in Firsts(ts, queues) ==> e.0 in queues && queues[e.0] != [] && e.1 == queues[e.0][0]
    ensures InOrder(Tids(Firsts(ts, queues)), ts)
  {
    if ts != [] {
      var init, t := ts[..|ts| - 1], ts[|ts| - 1];
      InInit(ts, t);
      FirstsLaw(init, queues);
      var rest := Firsts(init, queues);
      var more := if Unread(queues, t) == [] then [] else [(t, Unread(queues, t)[0])];
      assert ts == init + [t];
      assert Tids(rest + more) == Tids(rest) + (if Unread(queues, t) != [] then [t] else []);
      OrderOfAppend(init, t, Tids(rest), Unread(queues, t) != []);
    }
  }

  function Tids(entries: seq<(Tid, Msg)>): (ts: seq<Tid>)
    ensures |ts| == |entries| && forall i :: 0 <= i < |ts| ==> ts[i] == entries[i].0
  {
    seq(|entries|, i requires 0 <= i < |entries| => entries[i].0)
  }

  ghost predicate DistinctTids(ts: seq<Tid>) {
    forall i, j :: 0 <= i < j < |ts| ==> ts[i] != ts[j]
  }

  // ---------------------------------------------------------------- the backend

  class Backend {
    var heap: Heap
    var head: Ptr
    var queues: Queues
    var dead: set<Tid>
    var processed: seq<(Tid, Msg)>

    ghost var chain: seq<Ptr>

    ghost predicate Valid()
      reads this
    {
      && Linked(heap, head, chain) && Distinct(chain) && NULL !in heap
      && DistinctTids(Threads())
      && forall a :: a in chain ==> a in heap && heap[a].ctx in queues
    }

    /** The registered contexts, in list order. */
    ghost function Threads(): (ts: seq<Tid>)
      reads this
      ensures |ts| == |chain|
    {
      Ctxs(heap, chain)
    }

    constructor ()
      ensures Valid() && Threads() == [] && processed == []
    {
      heap, head, queues, dead, processed, chain := map[], NULL, map[], {}, [], [];
    }

    /** register_thread: the node goes to the front. */
    method RegisterThread(t: Tid, node: Ptr)
      requires Valid() && t !in queues && node != NULL && node !in heap
      modifies this
      ensures Valid() && Threads() == [t] + old(Threads()) && queues == old(queues)[t := []]
      ensures dead == old(dead) && processed == old(processed)
    {
      ghost var before := heap;
      heap := heap[node := Node(t, head)];
      LinkedFrame(before, heap, head, chain);
      PushFront(heap, head, chain, node);
      head := node;
      chain := [node] + chain;
      queues := queues[t := []];
      assert Threads() == [t] + old(Threads());
    }

    /** The walk of remove_and_delete_node: the node with its predecessor, or null if it is not in the list. */
    method Search(node: Ptr) returns (previous: Ptr, current: Ptr, ghost i: nat)
      requires Valid() && node != NULL && head != node
      ensures node in chain ==> 0 < i < |chain| && chain[i] == current == node && chain[i - 1] == previous
      ensures node !in chain ==> current == NULL
    {
      current := head;
      previous := NULL;
      i := 0;
      while current != NULL && current != node
        invariant i <= |chain| && current == At(chain, i) && node !in chain[..i]
        invariant i > 0 ==> previous == chain[i - 1]
        decreases |chain| - i
      {
        assert chain[..i + 1] == chain[..i] + [chain[i]];
        LinkOf(heap, head, chain, i);
        previous := current;
        current := heap[current].next;
        i := i + 1;
      }
      assert current == NULL ==> chain[..i] == chain;
      if node in chain {
        var k: nat :| k < |chain| && chain[k] == node;
        assert k >= i;
      }
    }

    /** remove_and_delete_node: takes exactly the given node out of the list and deletes it with its context; a node
        that is not in the list, or null, is ignored. */
    method RemoveAndDeleteNode(node: Ptr) returns (ghost j: nat)
      requires Valid() && (node == NULL || node in heap)
      modifies this`heap, this`head, this`chain, this`queues
      ensures Valid()
      ensures if node in old(chain) then
                && j < |old(chain)| && old(chain)[j] == node && chain == Without(old(chain), j)
                && heap.Keys == old(heap).Keys - {node} && queues == old(queues) - {old(heap)[node].ctx}
              else chain == old(chain) && heap == old(heap) && queues == old(queues)
      ensures forall a :: a in old(heap) && a != node ==> a in heap && heap[a].ctx == old(heap)[a].ctx
    {
      j := 0;
      if node == NULL {
        return;
      }
      if head == node {
        UnlinkHead(heap, head, chain);
        assert Without(chain, 0) == chain[1..];
        Finish(node, 0, heap[node].next, heap);
        return;
      }
      var previous, current, i := Search(node);
      if current == NULL {
        return;
      }
      j := i;
      UnlinkMiddle(heap, head, chain, j);
      Finish(node, j, head, heap[previous := heap[previous].(next := heap[current].next)]);
    }

    /** Installs the list that bypasses the node, and deletes the node with its context. */
    method Finish(node: Ptr, ghost j: nat, newHead: Ptr, bypassed: Heap)
      requires Valid() && j < |chain| && chain[j] == node
      requires bypassed.Keys == heap.Keys && forall a :: a in heap ==> bypassed[a].ctx == heap[a].ctx
      requires Linked(bypassed, newHead, Without(chain, j))
      modifies this`heap, this`head, this`chain, this`queues
      ensures Valid() && chain == Without(old(chain), j)
      ensures heap.Keys == old(heap).Keys - {node} && queues == old(queues) - {old(heap)[node].ctx}
      ensures forall a :: a in old(heap) && a != node ==> a in heap && heap[a].ctx == old(heap)[a].ctx
    {
      WithoutDistinct(chain, j);
      OtherContexts(j);
      TidsWithout(heap, bypassed - {node}, chain, j);
      LinkedFrame(bypassed, bypassed - {node}, newHead, Without(chain, j));
      queues := queues - {heap[node].ctx};
      heap := bypassed - {node};
      head := newHead;
      chain := Without(chain, j);
    }

    /** Every other node of the list has another context. */
    lemma OtherContexts(j: nat)
      requires Valid() && j < |chain|
      ensures chain[j] in heap
      ensures forall a :: a in Without(chain, j) ==> a in heap && heap[a].ctx in queues - {heap[chain[j]].ctx}
    {
      WithoutDistinct(chain, j);
      forall a | a in Without(chain, j) ensures a in heap && heap[a].ctx in queues - {heap[chain[j]].ctx} {
        var i: nat :| i < |chain| && chain[i] == a;
        assert Threads()[i] != Threads()[j];
      }
    }

    /** What a pass does at one node: process the oldest event, or retire the context if its queue is empty and
        its thread dead, or nothing. */
    method PollNode(node: Ptr, ghost j: nat) returns (any: bool)
      requires Valid() && j < |chain| && chain[j] == node
      modifies this`heap, this`head, this`chain, this`queues, this`processed
      ensures Valid()
      ensures var t, q, ts := old(Threads())[j], old(queues), old(Threads());
        && t in q && any == (q[t] != [])
        && processed == old(processed) + (if any then [(t, q[t][0])] else [])
        && queues == (if any then q[t := q[t][1..]] else if t in dead then q - {t} else q)
        && chain == (if any || t !in dead then old(chain) else Without(old(chain), j))
        && Threads() == (if any || t !in dead then ts else ts[..j] + ts[j + 1..])
      ensures forall a :: a in chain ==> a in old(heap) && a in heap && heap[a].ctx == old(heap)[a].ctx
    {
      var t := heap[node].ctx;
      assert chain[j] in chain;
      any := queues[t] != [];
      if any {
        processed := processed + [(t, queues[t][0])];
        queues := queues[t := queues[t][1..]];
      } else if t in dead {
        WithoutDistinct(chain, j);
        var k := RemoveAndDeleteNode(node);
        CtxsWithout(old(heap), heap, old(chain), j);
      }
    }

    /** The pass has dealt with the first k of the nodes and kept some of them; the others are still ahead. */
    ghost predicate InPass(start: Pass, kept: seq<Ptr>, k: nat)
      reads this
    {
      && Valid() && k <= |start.nodes| == |start.ts| && DistinctTids(start.ts)
      && NULL !in start.nodes && chain == kept + start.nodes[k..]
      && Ctxs(heap, kept) == Survivors(start.ts[..k], start.queues, dead)
      && Ahead(heap, start.nodes, start.ts, k)
      && processed == start.processed + Firsts(start.ts[..k], start.queues)
      && PassedOver(start.ts[..k], start.queues, queues) && OnlyRetired(start.ts[..k], start.queues, dead, queues)
    }

    /** One round of the loop of poll_threads. */
    method PassNode(node: Ptr, ghost start: Pass, ghost kept: seq<Ptr>, ghost k: nat)
      returns (any: bool, next: Ptr, ghost kept': seq<Ptr>)
      requires InPass(start, kept, k) && k < |start.nodes| && node == start.nodes[k]
      modifies this`heap, this`head, this`chain, this`queues, this`processed
      ensures InPass(start, kept', k + 1) && next == At(start.nodes, k + 1)
      ensures any <==> Unread(start.queues, start.ts[k]) != []
    {
      ghost var j := |kept|;
      assert chain[j] == node && heap[node].ctx == start.ts[k];
      LinkOf(heap, head, chain, j);
      assert At(chain, j + 1) == At(start.nodes, k + 1);
      next := heap[node].next;
      NotYetPassed(start.ts, k, start.queues, queues);
      PassAppend(start.ts, k, start.queues, dead);
      ghost var before := queues;
      any := PollNode(node, j);
      PassedMore(start.ts, k, start.queues, before, queues);
      RetiredMore(start.ts, k, start.queues, dead, before, queues);
      Assoc(start.processed, Firsts(start.ts[..k], start.queues),
            if any then [(start.ts[k], Unread(start.queues, start.ts[k])[0])] else []);
      kept' := KeepOrDrop(kept, start.nodes, k, Survives(before, dead, start.ts[k]), chain);
      CtxsExtend(old(heap), heap, kept, kept', node);
      AheadFrame(old(heap), heap, kept', start.nodes, start.ts, k + 1);
    }

    /** poll_threads: one event of every non-empty queue is processed, in list order, and exactly the contexts
        with an empty queue and a dead thread are removed. */
    method PollThreads() returns (any: bool)
      requires Valid()
      modifies this`heap, this`head, this`chain, this`queues, this`processed
      ensures Valid()
      ensures processed == old(processed) + Firsts(old(Threads()), old(queues))
      ensures Threads() == Survivors(old(Threads()), old(queues), dead)
      ensures PassedOver(old(Threads()), old(queues), queues)
      ensures any <==> SomeUnread(old(Threads()), old(queues))
      ensures PassLeaves(old(Threads()), old(queues), dead, Threads(), queues)
    {
      ghost var start := Pass(chain, Threads(), queues, processed);
      ghost var kept, k: nat := [], 0;
      PassBegins(start);
      any := false;
      var node := head;
      while node != NULL
        invariant InPass(start, kept, k) && node == At(start.nodes, k)
        invariant any <==> SomeUnread(start.ts[..k], start.queues)
        decreases |start.nodes| - k
      {
        var some;
        SomeMore(start.ts, k, start.queues);
        some, node, kept := PassNode(node, start, kept, k);
        any := any || some;
        k := k + 1;
      }
      PassEnds(start, kept, k);
      PassLaw(start.ts, start.queues, dead, queues);
    }

    lemma PassBegins(start: Pass)
      requires Valid() && start == Pass(chain, Threads(), queues, processed)
      ensures InPass(start, [], 0) && head == At(start.nodes, 0)
      ensures !SomeUnread(start.ts[..0], start.queues)
    {
      NoNull(heap, head, chain);
      AheadAtFirst(heap, chain);
      EmptyPass(start, heap, dead);
    }

    lemma PassEnds(start: Pass, kept: seq<Ptr>, k: nat)
      requires InPass(start, kept, k) && At(start.nodes, k) == NULL && NULL !in start.nodes
      ensures k == |start.ts|
      ensures processed == start.processed + Firsts(start.ts, start.queues)
      ensures Threads() == Survivors(start.ts, start.queues, dead)
      ensures PassedOver(start.ts, start.queues, queues) && OnlyRetired(start.ts, start.queues, dead, queues)
    {
      assert start.ts[..k] == start.ts && kept + start.nodes[k..] == kept;
    }

    /** The drain loop: with all threads dead it terminates after exactly one pass more than the longest queue has
        events, the list is then empty, and every event that was left has been processed, in order. */
    method DrainAll() returns (passes: nat)
      requires Valid() && AllDead(Threads(), dead)
      modifies this`heap, this`head, this`chain, this`queues, this`processed
      ensures Valid() && head == NULL && Threads() == []
      ensures passes == Bound(old(Threads()), old(queues))
      ensures AllProcessed(old(Threads()), old(queues), old(processed), processed)
    {
      ghost var ts, q0, done := Threads(), queues, processed;
      passes := 0;
      StartOfDrain(ts, q0, done);
      while head != NULL
        invariant Draining(ts, q0, done, passes)
        invariant passes <= Bound(ts, q0)
        decreases Bound(ts, q0) - passes
      {
        DrainOnce(ts, q0, done, passes);
        passes := passes + 1;
      }
      EndOfDrain(ts, q0, done, passes);
    }

    ghost predicate Draining(ts: seq<Tid>, q0: Queues, done: seq<(Tid, Msg)>, n: nat)
      reads this
    {
      Valid() && AllDead(ts, dead) && Drained(ts, q0, done, n, Threads(), queues, processed)
    }

    /** One round of the drain loop. */
    method DrainOnce(ghost ts: seq<Tid>, ghost q0: Queues, ghost done: seq<(Tid, Msg)>, ghost n: nat)
      requires Draining(ts, q0, done, n) && head != NULL
      modifies this`heap, this`head, this`chain, this`queues, this`processed
      ensures Draining(ts, q0, done, n + 1) && n < Bound(ts, q0)
    {
      BeforeRound(ts, q0, done, n);
      ghost var now, q, before := Threads(), queues, processed;
      var any := PollThreads();
      DrainPass(ts, q0, done, n, now, q, before, dead, queues);
    }

    lemma BeforeRound(ts: seq<Tid>, q0: Queues, done: seq<(Tid, Msg)>, n: nat)
      requires Draining(ts, q0, done, n) && head != NULL
      ensures n < Bound(ts, q0)
    {
      HeadIsFirst();
      NotDoneYet(ts, q0, n);
    }

    lemma EndOfDrain(ts: seq<Tid>, q0: Queues, done: seq<(Tid, Msg)>, n: nat)
      requires Draining(ts, q0, done, n) && head == NULL
      ensures Threads() == [] && n >= Bound(ts, q0) && AllProcessed(ts, q0, done, processed)
    {
      HeadIsFirst();
      AllDone(ts, q0, done, n, Threads(), queues, processed);
    }

    lemma HeadIsFirst()
      requires Valid()
      ensures head == NULL <==> Threads() == []
    {
      if chain != [] {
        LinkOf(heap, head, chain, 0);
      }
    }
  }

  // ---------------------------------------------------------------- draining, as functions

  /** The contexts whose queue held at least n events. */
  function AtLeast(ts: seq<Tid>, queues: Queues, n: nat): seq<Tid> {
    if ts == [] then []
    else
      var t := ts[|ts| - 1];
      AtLeast(ts[..|ts| - 1], queues, n) + (if |Unread(queues, t)| >= n then [t] else [])
  }

  function Longest(ts: seq<Tid>, queues: Queues): nat {
    if ts == [] then 0
    else
      var rest, n := Longest(ts[..|ts| - 1], queues), |Unread(queues, ts[|ts| - 1])|;
      if rest < n then n else rest
  }

  /** The number of passes the drain loop needs: one more than the longest queue has events. */
  function Bound(ts: seq<Tid>, queues: Queues): nat {
    if ts == [] then 0 else Longest(ts, queues) + 1
  }

  function Take(s: seq<Msg>, n: nat): seq<Msg> {
    if n <= |s| then s[..n] else s
  }

  function Drop(s: seq<Msg>, n: nat): seq<Msg> {
    if n <= |s| then s[n..] else []
  }

  /** The state after n passes, relative to the state at the start: the contexts with at least n events are left,
      and of every queue the first n events have been processed. */
  ghost predicate Drained(ts0: seq<Tid>, q0: Queues, done0: seq<(Tid, Msg)>, n: nat,
                          ts: seq<Tid>, q: Queues, done: seq<(Tid, Msg)>) {
    && DistinctTids(ts0) && ts == AtLeast(ts0, q0, n)
    && forall t :: t in ts0 ==> DrainedOf(t, q0, done0, n, q, done)
  }

  ghost predicate DrainedOf(t: Tid, q0: Queues, done0: seq<(Tid, Msg)>, n: nat, q: Queues, done: seq<(Tid, Msg)>) {
    && Unread(q, t) == Drop(Unread(q0, t), n)
    && OfThread(done, t) == OfThread(done0, t) + Take(Unread(q0, t), n)
  }

  ghost predicate AllDead(ts: seq<Tid>, dead: set<Tid>) {
    forall t :: t in ts ==> t in dead
  }

  /** Behind what had been processed before, everything that was unread has been processed, in order. */
  ghost predicate AllProcessed(ts: seq<Tid>, queues: Queues, before: seq<(Tid, Msg)>, after: seq<(Tid, Msg)>) {
    forall t :: t in ts ==> OfThread(after, t) == OfThread(before, t) + Unread(queues, t)
  }

  lemma {:induction false} AtLeastMembers(ts: seq<Tid>, queues: Queues, n: nat)
    ensures forall t :: t in AtLeast(ts, queues, n) <==> t in ts && |Unread(queues, t)| >= n
  {
    if ts != [] {
      AtLeastMembers(ts[..|ts| - 1], queues, n);
      assert ts == ts[..|ts| - 1] + [ts[|ts| - 1]];
    }
  }

  lemma {:induction false} AtLeastZero(ts: seq<Tid>, queues: Queues)
    ensures AtLeast(ts, queues, 0) == ts
  {
    if ts != [] {
      AtLeastZero(ts[..|ts| - 1], queues);
    }
  }

  lemma {:induction false} LongestBounds(ts: seq<Tid>, queues: Queues, t: Tid)
    requires t in ts
    ensures |Unread(queues, t)| <= Longest(ts, queues)
  {
    var init, last := ts[..|ts| - 1], ts[|ts| - 1];
    assert ts == init + [last];
    if t in init {
      LongestBounds(init, queues, t);
    }
  }

  lemma {:induction false} LongestIsMet(ts: seq<Tid>, queues: Queues) returns (t: Tid)
    requires ts != []
    ensures t in ts && |Unread(queues, t)| == Longest(ts, queues)
  {
    var init, last := ts[..|ts| - 1], ts[|ts| - 1];
    t := last;
    if |Unread(queues, last)| < Longest(init, queues) {
      assert init != [];
      t := LongestIsMet(init, queues);
      assert ts == init + [last];
    }
  }

  lemma StartOfDrain(ts: seq<Tid>, q: Queues, done: seq<(Tid, Msg)>)
    requires DistinctTids(ts)
    ensures Drained(ts, q, done, 0, ts, q, done)
  {
    AtLeastZero(ts, q);
  }

  lemma NotDoneYet(ts: seq<Tid>, q: Queues, n: nat)
    requires AtLeast(ts, q, n) != []
    ensures n < Bound(ts, q)
  {
    AtLeastMembers(ts, q, n);
    var t := AtLeast(ts, q, n)[0];
    assert t in AtLeast(ts, q, n);
    LongestBounds(ts, q, t);
  }

  lemma AllDone(ts0: seq<Tid>, q0: Queues, done0: seq<(Tid, Msg)>, n: nat,
                ts: seq<Tid>, q: Queues, done: seq<(Tid, Msg)>)
    requires Drained(ts0, q0, done0, n, ts, q, done) && ts == []
    ensures n >= Bound(ts0, q0)
    ensures AllProcessed(ts0, q0, done0, done)
  {
    AtLeastMembers(ts0, q0, n);
    if ts0 != [] {
      var t := LongestIsMet(ts0, q0);
      assert t !in AtLeast(ts0, q0, n);
    }
    forall t | t in ts0 ensures OfThread(done, t) == OfThread(done0, t) + Unread(q0, t) {
      assert DrainedOf(t, q0, done0, n, q, done);
    }
  }

  /** With all threads dead, a pass over the contexts with at least n events leaves those with more. */
  lemma {:induction false} SurvivorsAtLeast(ts0: seq<Tid>, q0: Queues, n: nat, q: Queues, dead: set<Tid>)
    requires forall t :: t in ts0 ==> t in dead && Unread(q, t) == Drop(Unread(q0, t), n)
    ensures Survivors(AtLeast(ts0, q0, n), q, dead) == AtLeast(ts0, q0, n + 1)
  {
    if ts0 != [] {
      var init, t := ts0[..|ts0| - 1], ts0[|ts0| - 1];
      assert t in ts0;
      SurvivorsAtLeast(init, q0, n, q, dead);
      SurvivorStep(AtLeast(init, q0, n), AtLeast(init, q0, n + 1), t, q0, n, q, dead);
    }
  }

  lemma SurvivorStep(ts: seq<Tid>, ts': seq<Tid>, t: Tid, q0: Queues, n: nat, q: Queues, dead: set<Tid>)
    requires t in dead && Unread(q, t) == Drop(Unread(q0, t), n)
    requires Survivors(ts, q, dead) == ts'
    ensures Survivors(ts + (if |Unread(q0, t)| >= n then [t] else []), q, dead)
            == ts' + (if |Unread(q0, t)| >= n + 1 then [t] else [])
  {
    if |Unread(q0, t)| >= n {
      SurvivorsAppend(ts, t, q, dead);
    } else {
      assert ts + [] == ts && ts' + [] == ts';
    }
  }

  lemma SurvivorsAppend(ts: seq<Tid>, t: Tid, q: Queues, dead: set<Tid>)
    ensures Survivors(ts + [t], q, dead) == Survivors(ts, q, dead) + (if Survives(q, dead, t) then [t] else [])
  {
    assert (ts + [t])[..|ts|] == ts;
  }

  /** A pass processes the oldest event of each of its contexts, and nothing of any other. */
  lemma {:induction false} FirstsOfThread(ts: seq<Tid>, q: Queues, t: Tid)
    requires DistinctTids(ts)
    ensures OfThread(Firsts(ts, q), t) == (if t in ts then Take(Unread(q, t), 1) else [])
  {
    if ts != [] {
      var init, last := ts[..|ts| - 1], ts[|ts| - 1];
      InInit(ts, t);
      FirstsOfThread(init, q, t);
      var first := if Unread(q, last) == [] then [] else [(last, Unread(q, last)[0])];
      assert Firsts(ts, q) == Firsts(init, q) + first;
      OfThreadConcat(Firsts(init, q), first, t);
      OfOne(last, Unread(q, last), t);
    }
  }

  lemma InInit(ts: seq<Tid>, t: Tid)
    requires DistinctTids(ts) && ts != []
    ensures t in ts <==> t in ts[..|ts| - 1] || t == ts[|ts| - 1]
    ensures ts[|ts| - 1] !in ts[..|ts| - 1] && DistinctTids(ts[..|ts| - 1])
  {
    assert ts == ts[..|ts| - 1] + [ts[|ts| - 1]];
  }

  lemma OfOne(t: Tid, unread: seq<Msg>, t': Tid)
    ensures OfThread(if unread == [] then [] else [(t, unread[0])], t') == (if t == t' then Take(unread, 1) else [])
  {
    if unread != [] {
      assert [(t, unread[0])][..0] == [];
      assert unread[..1] == [unread[0]];
    }
  }

  lemma AtLeastDistinct(ts: seq<Tid>, queues: Queues, n: nat)
    requires DistinctTids(ts)
    ensures DistinctTids(AtLeast(ts, queues, n))
  {
    if ts != [] {
      var init, t := ts[..|ts| - 1], ts[|ts| - 1];
      AtLeastDistinct(init, queues, n);
      AtLeastMembers(init, queues, n);
      assert t !in init;
    }
  }

  lemma OnePassOfThread(q0: seq<Msg>, n: nat, q: seq<Msg>)
    requires q == Drop(q0, n)
    ensures (if q == [] then [] else q[1..]) == Drop(q0, n + 1)
    ensures Take(q0, n) + Take(q, 1) == Take(q0, n + 1)
    ensures |q0| < n ==> q == [] && Take(q0, n) == Take(q0, n + 1)
  {
  }

  /** One more pass. */
  lemma DrainPass(ts0: seq<Tid>, q0: Queues, done0: seq<(Tid, Msg)>, n: nat,
                  ts: seq<Tid>, q: Queues, done: seq<(Tid, Msg)>, dead: set<Tid>, q': Queues)
    requires Drained(ts0, q0, done0, n, ts, q, done) && AllDead(ts0, dead)
    requires PassedOver(ts, q, q')
    ensures Drained(ts0, q0, done0, n + 1, Survivors(ts, q, dead), q', done + Firsts(ts, q))
  {
    assert forall t :: t in ts0 ==> DrainedOf(t, q0, done0, n, q, done);
    SurvivorsAtLeast(ts0, q0, n, q, dead);
    AtLeastMembers(ts0, q0, n);
    AtLeastDistinct(ts0, q0, n);
    forall t | t in ts0 ensures DrainedOf(t, q0, done0, n + 1, q', done + Firsts(ts, q)) {
      DrainPassOf(t, q0, done0, n, ts, q, done, q');
    }
  }

  lemma DrainPassOf(t: Tid, q0: Queues, done0: seq<(Tid, Msg)>, n: nat,
                    ts: seq<Tid>, q: Queues, done: seq<(Tid, Msg)>, q': Queues)
    requires DrainedOf(t, q0, done0, n, q, done) && DistinctTids(ts)
    requires t in ts <==> |Unread(q0, t)| >= n
    requires PassedOver(ts, q, q')
    ensures DrainedOf(t, q0, done0, n + 1, q', done + Firsts(ts, q))
  {
    OnePassOfThread(Unread(q0, t), n, Unread(q, t));
    FirstsOfThread(ts, q, t);
    OfThreadConcat(done, Firsts(ts, q), t);
    Assoc(OfThread(done0, t), Take(Unread(q0, t), n), OfThread(Firsts(ts, q), t));
    NothingAdded(Take(Unread(q0, t), n));
  }

  lemma NothingAdded(a: seq<Msg>)
    ensures a + [] == a
  {
  }

  /** Unread events plus registered contexts. */
  function Measure(ts: seq<Tid>, queues: Queues): nat {
    if ts == [] then 0
    else Measure(ts[..|ts| - 1], queues) + |Unread(queues, ts[|ts| - 1])| + 1
  }

  /** With all threads dead, every pass decreases unread events plus contexts by exactly one for each context it
      visits, so a pass over a non-empty list makes progress. */
  lemma {:induction false} PassDecreases(ts: seq<Tid>, q: Queues, dead: set<Tid>, q': Queues)
    requires forall t :: t in ts ==> t in dead && Unread(q', t) == Later(q, t)
    ensures Measure(Survivors(ts, q, dead), q') + |ts| == Measure(ts, q)
  {
    if ts != [] {
      var init, t := ts[..|ts| - 1], ts[|ts| - 1];
      assert t in ts;
      PassDecreases(init, q, dead, q');
      MeasureAppend(Survivors(init, q, dead), t, q');
      assert Survivors(init, q, dead) + [] == Survivors(init, q, dead);
    }
  }

  lemma MeasureAppend(ts: seq<Tid>, t: Tid, queues: Queues)
    ensures Measure(ts + [t], queues) == Measure(ts, queues) + |Unread(queues, t)| + 1
  {
    assert (ts + [t])[..|ts|] == ts;
  }

  // ---------------------------------------------------------------- inside a pass

  /** The state at the start of a pass. */
  datatype Pass = Pass(nodes: seq<Ptr>, ts: seq<Tid>, queues: Queues, processed: seq<(Tid, Msg)>)

  /** The nodes from k on still hold the contexts they held when the pass started. */
  ghost predicate Ahead(heap: Heap, nodes: seq<Ptr>, ts: seq<Tid>, k: nat) {
    |nodes| == |ts| && forall i :: k <= i < |nodes| ==> nodes[i] in heap && heap[nodes[i]].ctx == ts[i]
  }

  lemma AheadFrame(heap: Heap, heap': Heap, kept: seq<Ptr>, nodes: seq<Ptr>, ts: seq<Tid>, k: nat)
    requires k > 0 && Ahead(heap, nodes, ts, k - 1) && k <= |nodes|
    requires forall a :: a in kept + nodes[k..] ==> a in heap && a in heap' && heap'[a].ctx == heap[a].ctx
    ensures Ahead(heap', nodes, ts, k)
  {
    forall i | k <= i < |nodes| ensures nodes[i] in heap' && heap'[nodes[i]].ctx == ts[i] {
      assert (kept + nodes[k..])[|kept| + (i - k)] == nodes[i];
    }
  }

  lemma AheadAtFirst(heap: Heap, nodes: seq<Ptr>)
    requires forall a :: a in nodes ==> a in heap
    ensures Ahead(heap, nodes, Ctxs(heap, nodes), 0)
  {
  }

  lemma EmptyPass(start: Pass, heap: Heap, dead: set<Tid>)
    ensures Ctxs(heap, []) == Survivors(start.ts[..0], start.queues, dead)
    ensures [] + start.nodes[0..] == start.nodes
    ensures start.processed == start.processed + Firsts(start.ts[..0], start.queues)
    ensures PassedOver(start.ts[..0], start.queues, start.queues)
    ensures OnlyRetired(start.ts[..0], start.queues, dead, start.queues) && !SomeUnread(start.ts[..0], start.queues)
  {
  }

  lemma KeepOrDrop(kept: seq<Ptr>, nodes: seq<Ptr>, k: nat, survives: bool, chain: seq<Ptr>) returns (kept': seq<Ptr>)
    requires k < |nodes|
    requires chain == (if survives then kept + nodes[k..] else Without(kept + nodes[k..], |kept|))
    ensures chain == kept' + nodes[k + 1..] && kept' == (if survives then kept + [nodes[k]] else kept)
  {
    kept' := if survives then kept + [nodes[k]] else kept;
  }

  lemma CtxsExtend(heap: Heap, heap': Heap, kept: seq<Ptr>, kept': seq<Ptr>, node: Ptr)
    requires kept' == kept || kept' == kept + [node]
    requires forall a :: a in kept' ==> a in heap && a in heap' && heap'[a].ctx == heap[a].ctx
    ensures Ctxs(heap', kept') == Ctxs(heap, kept) + (if kept' == kept then [] else [heap[node].ctx])
  {
  }

  ghost predicate SomeUnread(ts: seq<Tid>, queues: Queues) {
    exists t :: t in ts && t in queues && queues[t] != []
  }

  lemma SomeMore(ts: seq<Tid>, k: nat, queues: Queues)
    requires k < |ts|
    ensures SomeUnread(ts[..k + 1], queues) <==> SomeUnread(ts[..k], queues) || Unread(queues, ts[k]) != []
  {
    assert ts[..k + 1] == ts[..k] + [ts[k]];
    assert ts[k] in ts[..k + 1];
  }

  /** After a pass over the contexts ts: their queues are advanced, all others are as before. */
  ghost predicate PassedOver(ts: seq<Tid>, before: Queues, after: Queues) {
    forall t :: Unread(after, t) == (if t in ts then Later(before, t) else Unread(before, t))
  }

  /** Of the contexts ts exactly those that do not survive the pass are deleted. */
  ghost predicate OnlyRetired(ts: seq<Tid>, before: Queues, dead: set<Tid>, after: Queues) {
    forall t :: t in after <==> t in before && (t in ts ==> Survives(before, dead, t))
  }

  lemma RetiredMore(ts: seq<Tid>, k: nat, start: Queues, dead: set<Tid>, before: Queues, after: Queues)
    requires k < |ts| && OnlyRetired(ts[..k], start, dead, before)
    requires ts[k] in before && Unread(before, ts[k]) == Unread(start, ts[k])
    requires if Unread(before, ts[k]) != [] then after == before[ts[k] := Later(before, ts[k])]
             else after == (if ts[k] in dead then before - {ts[k]} else before)
    ensures OnlyRetired(ts[..k + 1], start, dead, after)
  {
    assert ts[..k + 1] == ts[..k] + [ts[k]];
    forall t ensures t in after <==> t in start && (t in ts[..k + 1] ==> Survives(start, dead, t)) {
      assert t in before <==> t in start && (t in ts[..k] ==> Survives(start, dead, t));
    }
  }

  lemma PassLaw(ts: seq<Tid>, before: Queues, dead: set<Tid>, after: Queues)
    requires DistinctTids(ts) && PassedOver(ts, before, after) && OnlyRetired(ts, before, dead, after)
    ensures PassLeaves(ts, before, dead, Survivors(ts, before, dead), after)
  {
    SurvivorsLaw(ts, before, dead);
    QueuesAfterPass(ts, before, dead, after);
  }

  lemma QueuesAfterPass(ts: seq<Tid>, before: Queues, dead: set<Tid>, after: Queues)
    requires PassedOver(ts, before, after) && OnlyRetired(ts, before, dead, after)
    ensures forall t :: t in after ==>
              t in before && after[t] == (if t in ts && before[t] != [] then before[t][1..] else before[t])
  {
    forall t | t in after
      ensures t in before && after[t] == (if t in ts && before[t] != [] then before[t][1..] else before[t])
    {
      assert t in before;
      assert Unread(after, t) == (if t in ts then Later(before, t) else Unread(before, t));
    }
  }

  lemma NotYetPassed(ts: seq<Tid>, k: nat, before: Queues, after: Queues)
    requires k < |ts| && DistinctTids(ts) && PassedOver(ts[..k], before, after)
    ensures Unread(after, ts[k]) == Unread(before, ts[k])
  {
    assert ts[k] !in ts[..k];
  }

  lemma PassedMore(ts: seq<Tid>, k: nat, start: Queues, before: Queues, after: Queues)
    requires k < |ts| && DistinctTids(ts) && PassedOver(ts[..k], start, before)
    requires if Unread(before, ts[k]) != [] then after == before[ts[k] := Later(before, ts[k])]
             else after == before || after == before - {ts[k]}
    ensures PassedOver(ts[..k + 1], start, after)
  {
    assert ts[k] !in ts[..k];
    assert ts[..k + 1] == ts[..k] + [ts[k]];
    forall t ensures Unread(after, t) == (if t in ts[..k + 1] then Later(start, t) else Unread(start, t)) {
      assert Unread(before, t) == (if t in ts[..k] then Later(start, t) else Unread(start, t));
    }
  }

  lemma PassAppend(ts: seq<Tid>, k: nat, queues: Queues, dead: set<Tid>)
    requires k < |ts|
    ensures Firsts(ts[..k + 1], queues)
            == Firsts(ts[..k], queues)
               + (if Unread(queues, ts[k]) == [] then [] else [(ts[k], Unread(queues, ts[k])[0])])
    ensures Survivors(ts[..k + 1], queues, dead)
            == Survivors(ts[..k], queues, dead) + (if Survives(queues, dead, ts[k]) then [ts[k]] else [])
  {
    assert ts[..k + 1][..k] == ts[..k];
  }

  lemma CtxsWithout(heap: Heap, heap': Heap, chain: seq<Ptr>, j: nat)
    requires j < |chain| && Distinct(chain)
    requires forall a :: a in chain ==> a in heap
    requires forall a :: a in heap && a != chain[j] ==> a in heap' && heap'[a].ctx == heap[a].ctx
    ensures var ts := Ctxs(heap, chain); Ctxs(heap', Without(chain, j)) == ts[..j] + ts[j + 1..]
  {
    WithoutDistinct(chain, j);
    var rest, ts := Without(chain, j), Ctxs(heap, chain);
    forall i | 0 <= i < |rest| ensures Ctxs(heap', rest)[i] == (ts[..j] + ts[j + 1..])[i] {
      assert rest[i] == chain[if i < j then i else i + 1];
    }
  }

  lemma TidsWithout(heap: Heap, heap': Heap, chain: seq<Ptr>, j: nat)
    requires j < |chain| && DistinctTids(Ctxs(heap, chain)) && Distinct(chain)
    requires forall a :: a in chain ==> a in heap
    requires forall a :: a in heap && a != chain[j] ==> a in heap' && heap'[a].ctx == heap[a].ctx
    ensures DistinctTids(Ctxs(heap', Without(chain, j)))
  {
    WithoutDistinct(chain, j);
    var rest := Without(chain, j);
    var ts, ts' := Ctxs(heap, chain), Ctxs(heap', rest);
    forall x, y | 0 <= x < y < |ts'| ensures ts'[x] != ts'[y] {
      var x', y' := if x < j then x else x + 1, if y < j then y else y + 1;
      assert rest[x] == chain[x'] && rest[y] == chain[y'];
      assert ts[x'] != ts[y'];
    }
  }
}
