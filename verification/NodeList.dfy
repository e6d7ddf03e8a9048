/** The registry's singly linked list of thread contexts, as a heap of nodes with addresses that may be reused. */
module NodeList {

  type Ptr = nat
  type Tid = nat

  const NULL: Ptr := 0

  datatype Node = Node(ctx: Tid, next: Ptr)

  type Heap = map<Ptr, Node>

  /** Element i of the chain, or the null pointer behind its end. */
  function At(chain: seq<Ptr>, i: nat): Ptr {
    if i < |chain| then chain[i] else NULL
  }

  ghost predicate LinkAt(heap: Heap, chain: seq<Ptr>, i: nat) {
    i < |chain| && chain[i] != NULL && chain[i] in heap && heap[chain[i]].next == At(chain, i + 1)
  }

  /** Following next pointers from p visits exactly the nodes of chain and ends in null. */
  ghost predicate Linked(heap: Heap, p: Ptr, chain: seq<Ptr>) {
    p == At(chain, 0) && forall i: nat :: i < |chain| ==> LinkAt(heap, chain, i)
  }

  ghost predicate Distinct(chain: seq<Ptr>) {
    forall i, j :: 0 <= i < j < |chain| ==> chain[i] != chain[j]
  }

  /** A list that ends in null has no cycle: it cannot meet the same node twice. */
  lemma {:induction false} LinkedIsAcyclic(heap: Heap, p: Ptr, chain: seq<Ptr>, i: nat, j: nat)
    requires Linked(heap, p, chain) && i < j < |chain|
    ensures chain[i] != chain[j]
    decreases |chain| - j
  {
    if j + 1 < |chain| {
      LinkedIsAcyclic(heap, p, chain, i + 1, j + 1);
    }
    assert LinkAt(heap, chain, i) && LinkAt(heap, chain, i + 1) && LinkAt(heap, chain, j);
  }

  /** The chain behind a pointer is determined by the heap. */
  lemma {:induction false} LinkedIsUnique(heap: Heap, p: Ptr, xs: seq<Ptr>, ys: seq<Ptr>)
    requires Linked(heap, p, xs) && Linked(heap, p, ys)
    ensures xs == ys
    decreases |xs|
  {
    if xs != [] {
      LinkOf(heap, p, xs, 0);
    }
    if ys != [] {
      LinkOf(heap, p, ys, 0);
    }
    if xs != [] && ys != [] {
      UnlinkHead(heap, p, xs);
      UnlinkHead(heap, p, ys);
      var q := heap[p].next;
      LinkedIsUnique(heap, q, xs[1..], ys[1..]);
      assert xs == [p] + xs[1..] && ys == [p] + ys[1..];
    }
  }

  /** The chain without its element at position j. */
  function Without(chain: seq<Ptr>, j: nat): seq<Ptr>
    requires j < |chain|
  {
    chain[..j] + chain[j + 1..]
  }

  /** Redirecting the predecessor around node j takes out exactly that node. */
  lemma UnlinkMiddle(heap: Heap, p: Ptr, chain: seq<Ptr>, j: nat)
    requires Linked(heap, p, chain) && Distinct(chain) && 0 < j < |chain|
    ensures var prev, node := chain[j - 1], chain[j];
      && prev in heap && node in heap
      && Linked(heap[prev := heap[prev].(next := heap[node].next)], p, Without(chain, j))
  {
    var prev, node := chain[j - 1], chain[j];
    LinkOf(heap, p, chain, j - 1);
    LinkOf(heap, p, chain, j);
    var heap' := heap[prev := heap[prev].(next := heap[node].next)];
    var chain' := Without(chain, j);
    forall i: nat | i < |chain'| ensures LinkAt(heap', chain', i) {
      if i < j - 1 {
        assert LinkAt(heap, chain, i);
      } else if i >= j {
        assert LinkAt(heap, chain, i + 1);
      }
    }
  }

  lemma UnlinkHead(heap: Heap, p: Ptr, chain: seq<Ptr>)
    requires Linked(heap, p, chain) && chain != []
    ensures p in heap && Linked(heap, heap[p].next, chain[1..])
  {
    var rest := chain[1..];
    assert LinkAt(heap, chain, 0);
    forall i: nat | i < |rest| ensures LinkAt(heap, rest, i) {
      assert LinkAt(heap, chain, i + 1);
    }
  }

  lemma PushFront(heap: Heap, p: Ptr, chain: seq<Ptr>, node: Ptr)
    requires Linked(heap, p, chain) && Distinct(chain)
    requires node != NULL && node in heap && node !in chain && heap[node].next == p
    ensures Linked(heap, node, [node] + chain) && Distinct([node] + chain)
  {
    var chain' := [node] + chain;
    forall i: nat | i < |chain'| ensures LinkAt(heap, chain', i) {
      if i > 0 {
        assert LinkAt(heap, chain, i - 1);
      }
    }
  }

  /** Nodes outside the chain may change, appear or disappear. */
  lemma LinkedFrame(heap: Heap, heap': Heap, p: Ptr, chain: seq<Ptr>)
    requires Linked(heap, p, chain)
    requires forall a :: a in chain ==> a in heap' && a in heap && heap'[a] == heap[a]
    ensures Linked(heap', p, chain)
  {
    forall i: nat | i < |chain| ensures LinkAt(heap', chain, i) {
      assert LinkAt(heap, chain, i);
    }
  }

  /** The link behind element i of the chain. */
  lemma LinkOf(heap: Heap, p: Ptr, chain: seq<Ptr>, i: nat)
    requires Linked(heap, p, chain) && i < |chain|
    ensures chain[i] != NULL && chain[i] in heap && heap[chain[i]].next == At(chain, i + 1)
  {
    assert LinkAt(heap, chain, i);
  }

  lemma WithoutDistinct(chain: seq<Ptr>, j: nat)
    requires Distinct(chain) && j < |chain|
    ensures Distinct(Without(chain, j)) && chain[j] !in Without(chain, j)
    ensures forall a :: a in Without(chain, j) <==> a in chain && a != chain[j]
  {
    var rest := Without(chain, j);
    forall a | a in chain && a != chain[j] ensures a in rest {
      var i :| 0 <= i < |chain| && chain[i] == a;
      assert rest[if i < j then i else i - 1] == a;
    }
  }

  // ---------------------------------------------------------------- searching for a node

  ghost predicate WalkAt(chain: seq<Ptr>, node: Ptr, prev: Ptr, cur: Ptr, i: nat, j: nat) {
    && i <= j < |chain| && chain[i] == cur && chain[j] == node
    && (if prev == NULL then i < j else i > 0 && chain[i - 1] == prev)
  }

  /** The walk has node at or ahead of cur, and prev is the predecessor of cur unless the walk just started. */
  ghost predicate Walking(chain: seq<Ptr>, node: Ptr, prev: Ptr, cur: Ptr) {
    exists i: nat, j: nat :: WalkAt(chain, node, prev, cur, i, j)
  }

  lemma WalkStarts(chain: seq<Ptr>, node: Ptr, head: Ptr)
    requires node in chain && head == At(chain, 0) && head != node
    ensures Walking(chain, node, NULL, head)
  {
    var j: nat :| j < |chain| && chain[j] == node;
    assert WalkAt(chain, node, NULL, head, 0, j);
  }

  lemma WalkAdvances(heap: Heap, head: Ptr, chain: seq<Ptr>, node: Ptr, prev: Ptr, cur: Ptr)
    requires Linked(heap, head, chain) && Walking(chain, node, prev, cur) && cur != node
    ensures cur in heap && cur != NULL && Walking(chain, node, cur, heap[cur].next)
  {
    var i: nat, j: nat :| WalkAt(chain, node, prev, cur, i, j);
    LinkOf(heap, head, chain, i);
    assert WalkAt(chain, node, cur, heap[cur].next, i + 1, j);
  }

  lemma WalkInChain(chain: seq<Ptr>, node: Ptr, prev: Ptr, cur: Ptr)
    requires Walking(chain, node, prev, cur)
    ensures cur in chain
  {
    var i: nat, j: nat :| WalkAt(chain, node, prev, cur, i, j);
  }

  /** A newer push at the front does not disturb the walk. */
  lemma WalkSurvivesPush(chain: seq<Ptr>, node: Ptr, prev: Ptr, cur: Ptr, front: Ptr)
    requires Walking(chain, node, prev, cur)
    ensures Walking([front] + chain, node, prev, cur)
  {
    var i: nat, j: nat :| WalkAt(chain, node, prev, cur, i, j);
    assert WalkAt([front] + chain, node, prev, cur, i + 1, j + 1);
  }

  lemma WalkArrives(heap: Heap, head: Ptr, chain: seq<Ptr>, node: Ptr, prev: Ptr) returns (j: nat)
    requires Linked(heap, head, chain) && Distinct(chain) && Walking(chain, node, prev, node)
    ensures 0 < j < |chain| && chain[j - 1] == prev && chain[j] == node
    ensures prev != NULL && prev in heap && node != NULL && node in heap
  {
    var i: nat, j': nat :| WalkAt(chain, node, prev, node, i, j');
    assert i == j';
    LinkOf(heap, head, chain, i);
    LinkOf(heap, head, chain, i - 1);
    j := j';
  }

  // ---------------------------------------------------------------- what is left to visit

  /** The part of the chain from element p on; empty if p is null or not in it. */
  function Rest(chain: seq<Ptr>, p: Ptr): seq<Ptr> {
    if chain == [] then []
    else if chain[0] == p then chain
    else Rest(chain[1..], p)
  }

  lemma {:induction false} RestAt(chain: seq<Ptr>, j: nat)
    requires Distinct(chain) && j < |chain|
    ensures Rest(chain, chain[j]) == chain[j..]
  {
    if j > 0 {
      assert chain[0] != chain[j];
      RestAt(chain[1..], j - 1);
    }
  }

  lemma {:induction false} RestOfNone(chain: seq<Ptr>, p: Ptr)
    requires p !in chain
    ensures Rest(chain, p) == []
  {
    if chain != [] {
      RestOfNone(chain[1..], p);
    }
  }

  lemma RestOfPushed(chain: seq<Ptr>, front: Ptr, p: Ptr)
    requires front != p
    ensures Rest([front] + chain, p) == Rest(chain, p)
  {
    assert ([front] + chain)[1..] == chain;
  }

  /** From the successor of node j on, the chain looks the same with and without node j. */
  lemma RestWithout(chain: seq<Ptr>, j: nat)
    requires Distinct(chain) && j < |chain| && NULL !in chain
    ensures Rest(Without(chain, j), At(chain, j + 1)) == Rest(chain, At(chain, j + 1)) == chain[j + 1..]
  {
    var rest := Without(chain, j);
    WithoutDistinct(chain, j);
    if j + 1 < |chain| {
      RestAt(chain, j + 1);
      assert rest[j] == chain[j + 1];
      RestAt(rest, j);
      assert rest[j..] == chain[j + 1..];
    } else {
      RestOfNone(chain, NULL);
      RestOfNone(rest, NULL);
    }
  }

  lemma RestStep(heap: Heap, p: Ptr, chain: seq<Ptr>, node: Ptr)
    requires Linked(heap, p, chain) && Distinct(chain) && node in chain
    ensures node in heap && Rest(chain, node) == [node] + Rest(chain, heap[node].next)
  {
    var j: nat :| j < |chain| && chain[j] == node;
    RestAt(chain, j);
    LinkOf(heap, p, chain, j);
    NoNull(heap, p, chain);
    RestWithout(chain, j);
  }

  lemma NoNull(heap: Heap, p: Ptr, chain: seq<Ptr>)
    requires Linked(heap, p, chain)
    ensures NULL !in chain && forall a :: a in chain ==> a in heap
  {
    forall a | a in chain ensures a != NULL && a in heap {
      var i: nat :| i < |chain| && chain[i] == a;
      LinkOf(heap, p, chain, i);
    }
  }

  function Ctxs(heap: Heap, nodes: seq<Ptr>): (ts: seq<Tid>)
    ensures |ts| == |nodes|
    ensures forall i :: 0 <= i < |nodes| ==> ts[i] == (if nodes[i] in heap then heap[nodes[i]].ctx else 0)
  {
    seq(|nodes|, i requires 0 <= i < |nodes| => if nodes[i] in heap then heap[nodes[i]].ctx else 0)
  }

  lemma {:induction false} RestInChain(chain: seq<Ptr>, p: Ptr)
    ensures forall a :: a in Rest(chain, p) ==> a in chain
  {
    if chain != [] && chain[0] != p {
      RestInChain(chain[1..], p);
    }
  }
}
