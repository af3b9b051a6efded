/** Wait lists: the circular doubly linked list of rt-thread/include/rtservice.h and the
    priority insertion _ipc_list_suspend of rt-thread/src/ipc.c built on it. */
module IpcList {
  import opened WaitList

  // ----------------------------------------------- priority insertion on values

  /** Index of the first element, from `k` on, that `p` is more urgent than (a lower number). */
  function Place(ps: seq<nat>, p: nat, k: nat): (r: nat)
    requires k <= |ps|
    ensures k <= r <= |ps|
    ensures r < |ps| ==> p < ps[r]
    ensures forall i :: k <= i < r ==> ps[i] <= p
    decreases |ps| - k
  {
    if k == |ps| || p < ps[k] then k else Place(ps, p, k + 1)
  }

  ghost predicate SortedUp(ps: seq<nat>) {
    forall i, j :: 0 <= i < j < |ps| ==> ps[i] <= ps[j]
  }

  /** Insertion keeps the list sorted by priority, and puts the newcomer behind every
      element of its own priority: first come, first served among equals. */
  lemma InsertSorted(ps: seq<nat>, p: nat)
    requires SortedUp(ps)
    ensures var k := Place(ps, p, 0);
      && SortedUp(Insert(ps, k, p))
      && (forall i :: 0 <= i < k ==> ps[i] <= p)
      && (forall i :: k <= i < |ps| ==> p < ps[i])
  {
    var k := Place(ps, p, 0);
    forall i | k <= i < |ps| ensures p < ps[i] {
      if k < i { assert ps[k] <= ps[i]; }
    }
  }

  // -------------------------------------------------------------- the linked ring

  /** rt_list_node, with the priority of the thread it is embedded in. */
  class Node {
    var next: Node
    var prev: Node
    const prio: nat

    /** rt_list_init */
    constructor (prio: nat)
      ensures Ring([this]) && this.prio == prio
    {
      next, prev := this, this;
      this.prio := prio;
    }
  }

  function Succ(i: nat, n: nat): nat { if i + 1 < n then i + 1 else 0 }

  /** `ns` is the ring, in order, starting at its head. */
  ghost predicate Ring(ns: seq<Node>)
    reads ns
  {
    && |ns| > 0
    && (forall i, j :: 0 <= i < j < |ns| ==> ns[i] != ns[j])
    && (forall i {:trigger Linked(ns, i)} {:trigger ns[i].next} :: 0 <= i < |ns| ==> Linked(ns, i))
  }

  /** The `i`-th node and the one behind it point to each other. */
  ghost predicate Linked(ns: seq<Node>, i: nat)
    reads ns
    requires i < |ns|
  {
    var j := Succ(i, |ns|);
    ns[i].next == ns[j] && ns[j].prev == ns[i]
  }

  /** rt_list_insert_before: before the head means at the end. */
  method InsertBefore(l: Node, n: Node, ghost ns: seq<Node>, ghost i: nat)
    requires Ring(ns) && i < |ns| && l == ns[i] && n !in ns
    modifies ns, n
    ensures Ring(Insert(ns, if i == 0 then |ns| else i, n))
  {
    ghost var k := if i == 0 then |ns| else i;
    ghost var r := Insert(ns, k, n);
    InsertAt(ns, k, n);
    assert Linked(ns, k - 1) && Succ(k - 1, |ns|) == i && l.prev == ns[k - 1];
    l.prev.next := n;
    n.prev := l.prev;
    l.prev := n;
    n.next := l;
    forall a | 0 <= a < |r| ensures Linked(r, a) {
      if a < k - 1 { assert old(Linked(ns, a)); }
      if a > k { assert old(Linked(ns, a - 1)); }
    }
  }

  /** rt_list_insert_after */
  method InsertAfter(l: Node, n: Node, ghost ns: seq<Node>, ghost i: nat)
    requires Ring(ns) && i < |ns| && l == ns[i] && n !in ns
    modifies ns, n
    ensures Ring(Insert(ns, i + 1, n))
  {
    ghost var k, j := i + 1, Succ(i, |ns|);
    ghost var r := Insert(ns, k, n);
    InsertAt(ns, k, n);
    assert Linked(ns, i) && l.next == ns[j] && (k < |ns| ==> j == k) && (k == |ns| ==> j == 0);
    l.next.prev := n;
    n.next := l.next;
    l.next := n;
    n.prev := l;
    forall a | 0 <= a < |r| ensures Linked(r, a) {
      if a < i { assert old(Linked(ns, a)); }
      if a > k { assert old(Linked(ns, a - 1)); }
    }
  }

  lemma RemovedAt(ns: seq<Node>, i: nat, r: seq<Node>)
    requires i < |ns| && r == ns[..i] + ns[i + 1..]
    ensures |r| == |ns| - 1 && forall a :: 0 <= a < |r| ==> r[a] == if a < i then ns[a] else ns[a + 1]
  {
  }

  /** rt_list_remove of a node other than the head: the ring closes behind it and the node
      becomes a ring of its own. */
  method Remove(n: Node, ghost ns: seq<Node>, ghost i: nat)
    requires Ring(ns) && 0 < i < |ns| && n == ns[i]
    modifies ns
    ensures Ring(ns[..i] + ns[i + 1..]) && Ring([n])
  {
    ghost var r, j := ns[..i] + ns[i + 1..], Succ(i, |ns|);
    RemovedAt(ns, i, r);
    assert Linked(ns, i - 1) && Linked(ns, i) && n.prev == ns[i - 1] && n.next == ns[j];
    assert (i + 1 < |ns| ==> j == i + 1) && (i + 1 == |ns| ==> j == 0);
    n.next.prev := n.prev;
    n.prev.next := n.next;
    n.next, n.prev := n, n;
    assert Linked([n], 0);
    forall a | 0 <= a < |r| ensures Linked(r, a) {
      if a < i - 1 { assert old(Linked(ns, a)); }
      if a >= i { assert old(Linked(ns, a + 1)); }
    }
  }

  /** rt_list_isempty */
  method IsEmpty(l: Node, ghost ns: seq<Node>) returns (empty: bool)
    requires Ring(ns) && l == ns[0]
    ensures empty <==> |ns| == 1
  {
    assert l.next == ns[Succ(0, |ns|)];
    empty := l.next == l;
  }

  /** rt_list_len */
  method Len(l: Node, ghost ns: seq<Node>) returns (len: nat)
    requires Ring(ns) && l == ns[0]
    ensures len == |ns| - 1
  {
    len := 0;
    var p := l;
    assert Succ(0, |ns|) < |ns|;
    while p.next != l
      invariant len < |ns| && p == ns[len]
      decreases |ns| - len
    {
      assert p.next == ns[Succ(len, |ns|)];
      p := p.next;
      len := len + 1;
    }
    assert p.next == ns[Succ(len, |ns|)];
  }

  function Prios(ns: seq<Node>): seq<nat> {
    seq(|ns|, i requires 0 <= i < |ns| => ns[i].prio)
  }

  /** _ipc_list_suspend on list `l`: at the end for RT_IPC_FLAG_FIFO, else before the first
      waiter of lower urgency. */
  method Suspend(l: Node, thread: Node, fifo: bool, ghost ns: seq<Node>) returns (ghost k: nat)
    requires Ring(ns) && l == ns[0] && thread !in ns
    modifies ns, thread
    ensures k == if fifo then |ns| - 1 else Place(Prios(ns[1..]), thread.prio, 0)
    ensures k + 1 <= |ns| && Ring(Insert(ns, k + 1, thread))
  {
    if fifo {
      k := |ns| - 1;
      InsertBefore(l, thread, ns, 0);
      return;
    }
    ghost var ps := Prios(ns[1..]);
    var n := l.next;
    ghost var i := Succ(0, |ns|);
    ghost var at := 0;
    while n != l
      invariant at < |ns| && i == Succ(at, |ns|) && n == ns[i]
      invariant forall j :: 0 <= j < at ==> ps[j] <= thread.prio
      decreases |ns| - at
    {
      assert i == at + 1 && n.prio == ps[at];
      if thread.prio < n.prio {
        k := at;
        PlaceIs(ps, thread.prio, k);
        InsertBefore(n, thread, ns, i);
        return;
      }
      assert n.next == ns[Succ(i, |ns|)];
      n := n.next;
      at := at + 1;
      i := Succ(at, |ns|);
    }
    k := |ns| - 1;
    PlaceIs(ps, thread.prio, k);
    InsertBefore(l, thread, ns, 0);
  }

  lemma PlaceIs(ps: seq<nat>, p: nat, k: nat)
    requires k <= |ps| && (k < |ps| ==> p < ps[k]) && forall i :: 0 <= i < k ==> ps[i] <= p
    ensures Place(ps, p, 0) == k
  {
  }
}
