/** The state machine of MsgQueueModel runs on the linked nodes of MsgQueue: every action is
    one of the class's methods, and takes a queue that represents the state before to one that
    represents the state after. */
module MsgQueueRun {
  import opened MsgQueueModel
  import opened MsgQueueLaws
  import opened MsgQueue
  import L = WaitList
  import W = WaitProtocol

  /** The nodes in flight are those of the threads between their critical sections, and a node
      a plain send has filled has a NIL link. */
  ghost predicate InFlight(held: set<Node>, next: seq<int>, s: State) {
    && (forall n :: n in held <==> exists t :: Holds(s, t, n))
    && forall t :: t in s.pcs ==> Cleared(next, s.pcs[t])
  }

  ghost predicate Cleared(next: seq<int>, pc: Pc) {
    pc.Filled? && !pc.urgent ==> pc.node < |next| && next[pc.node] == NIL
  }

  /** Queue, free list, slots and wait lists are the state's. */
  ghost predicate Shows(queue: seq<Node>, free: seq<Node>, slots: seq<Msg>, recvWait: seq<Tid>, sendWait: seq<Tid>, s: State) {
    queue == s.queue && free == s.free && slots == s.slots && recvWait == s.recvWait && sendWait == s.sendWait
  }

  /** The linked queue is the state's, and so are the nodes in flight. */
  ghost predicate Represents(q: MessageQueue, s: State)
    reads q, q.next, q.slots
  {
    && q.Valid()
    && q.maxMsgs == s.maxMsgs && q.msgSize == s.msgSize
    && Shows(q.queue, q.freeList, q.slots[..], q.recvWait, q.sendWait, s)
    && InFlight(q.held, q.next[..], s)
  }

  // -------------------------------------------------------- nodes in flight

  lemma TakenInFlight(held: set<Node>, next: seq<int>, s: State, r: State, t: Tid, n: Node, pc: Pc)
    requires InFlight(held, next, s) && NewHolder(s, r, t, n) && r.pcs == s.pcs[t := pc] && !pc.Filled?
    ensures InFlight(held + {n}, next, r)
  {
    forall m | m in held + {n} ensures exists u :: Holds(r, u, m) {
      if m == n {
        assert Holds(r, t, n);
      } else {
        var u :| Holds(s, u, m);
        assert Holds(r, u, m);
      }
    }
  }

  lemma LeftInFlight(held: set<Node>, next: seq<int>, next': seq<int>, s: State, r: State, t: Tid, n: Node)
    requires Partition(s) && InFlight(held, next, s) && HolderLeft(s, r, t, n) && r.pcs == s.pcs[t := Idle]
    requires SameLinks(held - {n}, next, next')
    ensures InFlight(held - {n}, next', r)
  {
    forall m | m in held - {n} ensures exists u :: Holds(r, u, m) {
      var u :| Holds(s, u, m);
      assert Holds(r, u, m);
    }
    forall u, m | Holds(r, u, m) ensures m in held - {n} {
      assert Holds(s, u, m) && u != t;
    }
    forall u | u in r.pcs ensures Cleared(next', r.pcs[u]) {
      if u != t && s.pcs[u].Filled? { assert Holds(s, u, s.pcs[u].node) && Cleared(next, s.pcs[u]); }
    }
  }

  lemma SameInFlight(held: set<Node>, next: seq<int>, next': seq<int>, s: State, r: State)
    requires InFlight(held, next, s) && SameHolders(s, r)
    requires SameLinks(held, next, next')
    requires forall u :: u in r.pcs && r.pcs[u].Filled? ==> u in s.pcs && s.pcs[u] == r.pcs[u]
    ensures InFlight(held, next', r)
  {
    forall m | m in held ensures exists u :: Holds(r, u, m) {
      var u :| Holds(s, u, m);
      assert Holds(r, u, m);
    }
    forall u, m | Holds(r, u, m) ensures m in held { assert Holds(s, u, m); }
    forall u | u in r.pcs ensures Cleared(next', r.pcs[u]) {
      if r.pcs[u].Filled? { assert Holds(s, u, s.pcs[u].node) && Cleared(next, s.pcs[u]); }
    }
  }

  lemma LinkInFlight(held: set<Node>, next: seq<int>, next': seq<int>, s: State, t: Tid)
    requires Partition(s) && W.Consistent(RecvSide(s)) && Enabled(s, Action.Link(t)) && InFlight(held, next, s)
    requires SameLinks(held - {s.pcs[t].node}, next, next')
    ensures InFlight(held - {s.pcs[t].node}, next', Next(s, Action.Link(t)))
  {
    var m, n := Linked(s, t, s.pcs[t]), s.pcs[t].node;
    HolderChange(s, m, t, Idle);
    LeftInFlight(held, next, next', s, m, t, n);
    PcChange(s, m, t, Idle);
    assert RecvSide(m) == RecvSide(s).(avail := |s.queue| + 1);
    WakeReceiverFacts(m);
    SameInFlight(held - {n}, next', next', m, WakeReceiver(m));
  }

  lemma ReleaseInFlight(held: set<Node>, next: seq<int>, next': seq<int>, s: State, t: Tid)
    requires Partition(s) && W.Consistent(SendSide(s)) && Enabled(s, Action.Release(t)) && InFlight(held, next, s)
    requires SameLinks(held - {s.pcs[t].node}, next, next')
    ensures InFlight(held - {s.pcs[t].node}, next', Next(s, Action.Release(t)))
  {
    var m, n := Released(s, t), s.pcs[t].node;
    HolderChange(s, m, t, Idle);
    LeftInFlight(held, next, next', s, m, t, n);
    PcChange(s, m, t, Idle);
    assert SendSide(m) == SendSide(s).(avail := |s.free| + 1);
    WakeSenderFacts(m);
    SameInFlight(held - {n}, next', next', m, WakeSender(m));
  }

  lemma ResetInFlight(held: set<Node>, next: seq<int>, next': seq<int>, s: State)
    requires W.Consistent(RecvSide(s)) && W.Consistent(SendSide(s)) && InFlight(held, next, s)
    requires SameLinks(held, next, next')
    ensures InFlight(held, next', Next(s, Reset))
  {
    var r := Next(s, Reset);
    forall u: Tid, n: Node ensures Holds(r, u, n) <==> Holds(s, u, n) {
      if u in s.pcs { OnList(s, u); }
    }
    SameInFlight(held, next, next', s, r);
  }

  // -------------------------------------------------- the actions, one method each

  /** First critical section of rt_mq_send_wait, or its loop test after a resume. */
  method TrySendOn(q: MessageQueue, t: Tid, buf: Msg, timeout: int, k: nat, ghost s: State) returns (msg: int)
    requires Represents(q, s) && t in s.pcs && !HasNode(s.pcs[t]) && k <= |s.sendWait|
    modifies q, q.next, q.slots
    ensures Represents(q, TrySend(s, t, buf, timeout, k))
    ensures msg == if s.free == [] then NIL else s.free[0]
  {
    ghost var r := TrySend(s, t, buf, timeout, k);
    ghost var held, next := q.held, q.next[..];
    HolderChange(s, r, t, r.pcs[t]);
    msg := q.TakeFree();
    if msg != NIL {
      TakenInFlight(held, next, s, r, t, s.free[0], r.pcs[t]);
    } else {
      if timeout != 0 {
        q.sendWait := L.Insert(q.sendWait, k, t);
      }
      SameInFlight(held, next, next, s, r);
    }
  }

  /** First critical section of rt_mq_urgent. */
  method TryUrgentOn(q: MessageQueue, t: Tid, buf: Msg, ghost s: State) returns (msg: int)
    requires Represents(q, s) && Enabled(s, Urgent(t, buf)) && |buf| <= s.msgSize
    modifies q, q.next, q.slots
    ensures Represents(q, Next(s, Urgent(t, buf)))
  {
    ghost var r := Next(s, Urgent(t, buf));
    ghost var held, next := q.held, q.next[..];
    HolderChange(s, r, t, r.pcs[t]);
    msg := q.TakeFree();
    if msg != NIL { TakenInFlight(held, next, s, r, t, s.free[0], r.pcs[t]); }
  }

  /** The unlocked copy of a send. */
  method FillOn(q: MessageQueue, t: Tid, pc: Pc, ghost s: State)
    requires Represents(q, s) && Partition(s) && Data(s) && Enabled(s, Fill(t)) && pc == s.pcs[t]
    modifies q, q.next, q.slots
    ensures Represents(q, Next(s, Fill(t)))
  {
    ghost var r := Next(s, Fill(t));
    ghost var held, next, slots := q.held, q.next[..], q.slots[..];
    assert PcData(s, pc) && Holds(s, t, pc.node);
    q.CopyIn(pc.node, pc.buf, pc.urgent);
    assert q.slots[..] == slots[pc.node := Overwrite(slots[pc.node], pc.buf)];
    HolderChange(s, r, t, r.pcs[t]);
    FilledInFlight(held, next, q.next[..], s, r, t);
  }

  lemma FilledInFlight(held: set<Node>, next: seq<int>, next': seq<int>, s: State, r: State, t: Tid)
    requires Partition(s) && InFlight(held, next, s) && SameHolders(s, r) && Enabled(s, Fill(t))
    requires r.pcs == s.pcs[t := Filled(s.pcs[t].node, s.pcs[t].buf, s.pcs[t].urgent)]
    requires SameLinks(held - {s.pcs[t].node}, next, next')
    requires Cleared(next', r.pcs[t])
    ensures InFlight(held, next', r)
  {
    assert Holds(s, t, s.pcs[t].node);
    forall m | m in held ensures exists u :: Holds(r, u, m) {
      var u :| Holds(s, u, m);
      assert Holds(r, u, m);
    }
    forall u, m | Holds(r, u, m) ensures m in held { assert Holds(s, u, m); }
    forall u | u in r.pcs ensures Cleared(next', r.pcs[u]) {
      if u != t && s.pcs[u].Filled? { assert Holds(s, u, s.pcs[u].node) && Cleared(next, s.pcs[u]); }
    }
  }

  function FirstGone(ts: seq<Tid>): seq<Tid> { if ts == [] then [] else ts[1..] }

  /** A linked queue with these parts is the state `r`, whatever becomes of the links of nodes
      that are not in flight. */
  ghost predicate Becomes(queue: seq<Node>, free: seq<Node>, slots: seq<Msg>, recvWait: seq<Tid>, sendWait: seq<Tid>,
                          held: set<Node>, next: seq<int>, s: State, r: State) {
    && r.maxMsgs == s.maxMsgs && r.msgSize == s.msgSize && Shows(queue, free, slots, recvWait, sendWait, r)
    && forall next' {:trigger InFlight(held, next', r)} :: SameLinks(held, next, next') ==> InFlight(held, next', r)
  }

  lemma LinkBecomes(q: MessageQueue, t: Tid, pc: Pc, s: State)
    requires Represents(q, s) && Inv(s) && Enabled(s, Action.Link(t)) && pc == s.pcs[t]
    ensures pc.node in q.held && pc.node < q.next.Length && (!pc.urgent ==> q.next[pc.node] == NIL)
    ensures Becomes(if pc.urgent then [pc.node] + q.queue else q.queue + [pc.node], q.freeList, q.slots[..],
                    FirstGone(q.recvWait), q.sendWait, q.held - {pc.node}, q.next[..], s, Next(s, Action.Link(t)))
  {
    var held, next := q.held, q.next[..];
    assert Holds(s, t, pc.node) && Cleared(next, pc);
    forall next' | SameLinks(held - {pc.node}, next, next') ensures InFlight(held - {pc.node}, next', Next(s, Action.Link(t))) {
      LinkInFlight(held, next, next', s, t);
    }
  }

  /** Second critical section of a send. */
  method LinkOn(q: MessageQueue, pc: Pc, ghost s: State, ghost r: State)
    requires Represents(q, s) && pc.Filled? && pc.node in q.held && pc.node < q.next.Length
    requires !pc.urgent ==> q.next[pc.node] == NIL
    requires Becomes(if pc.urgent then [pc.node] + q.queue else q.queue + [pc.node], q.freeList, q.slots[..],
                     FirstGone(q.recvWait), q.sendWait, q.held - {pc.node}, q.next[..], s, r)
    modifies q, q.next, q.slots
    ensures Represents(q, r)
  {
    ghost var slots := q.slots[..];
    var full, woken := q.Link(pc.node, pc.urgent);
    assert q.slots[..] == slots;
  }

  /** First critical section of rt_mq_recv, or its loop test after a resume. */
  method TryRecvOn(q: MessageQueue, t: Tid, size: nat, timeout: int, k: nat, ghost s: State) returns (msg: int)
    requires Represents(q, s) && t in s.pcs && !HasNode(s.pcs[t]) && k <= |s.recvWait|
    modifies q, q.next, q.slots
    ensures Represents(q, TryRecv(s, t, size, timeout, k))
    ensures msg == if s.queue == [] then NIL else s.queue[0]
  {
    ghost var r := TryRecv(s, t, size, timeout, k);
    ghost var held, next := q.held, q.next[..];
    HolderChange(s, r, t, r.pcs[t]);
    msg := q.PopHead();
    if msg != NIL {
      TakenInFlight(held, next, s, r, t, s.queue[0], r.pcs[t]);
    } else {
      if timeout != 0 {
        q.recvWait := L.Insert(q.recvWait, k, t);
      }
      SameInFlight(held, next, next, s, r);
    }
  }

  /** The unlocked copy of a receive: the queue does not change. */
  method CopyOutOn(q: MessageQueue, t: Tid, pc: Pc, ghost s: State) returns (buffer: Msg)
    requires Represents(q, s) && Enabled(s, CopyOut(t)) && pc == s.pcs[t]
    ensures Represents(q, Next(s, CopyOut(t))) && buffer == Next(s, CopyOut(t)).pcs[t].out
  {
    ghost var r := Next(s, CopyOut(t));
    assert Holds(s, t, pc.node);
    buffer := q.CopyOut(pc.node, pc.size);
    HolderChange(s, r, t, r.pcs[t]);
    SameInFlight(q.held, q.next[..], q.next[..], s, r);
  }

  lemma ReleaseBecomes(q: MessageQueue, t: Tid, pc: Pc, s: State)
    requires Represents(q, s) && Inv(s) && Enabled(s, Action.Release(t)) && pc == s.pcs[t]
    ensures pc.node in q.held
    ensures Becomes(q.queue, [pc.node] + q.freeList, q.slots[..], q.recvWait, FirstGone(q.sendWait),
                    q.held - {pc.node}, q.next[..], s, Next(s, Action.Release(t)))
  {
    var held, next := q.held, q.next[..];
    assert Holds(s, t, pc.node);
    forall next' | SameLinks(held - {pc.node}, next, next') ensures InFlight(held - {pc.node}, next', Next(s, Action.Release(t))) {
      ReleaseInFlight(held, next, next', s, t);
    }
  }

  /** Second critical section of rt_mq_recv. */
  method ReleaseOn(q: MessageQueue, node: Node, ghost s: State, ghost r: State)
    requires Represents(q, s) && node in q.held
    requires Becomes(q.queue, [node] + q.freeList, q.slots[..], q.recvWait, FirstGone(q.sendWait), q.held - {node}, q.next[..], s, r)
    modifies q, q.next, q.slots
    ensures Represents(q, r)
  {
    ghost var slots := q.slots[..];
    var woken := q.PutFree(node);
    assert q.slots[..] == slots;
  }

  /** The thread timer takes `t` off its list. */
  method ExpireOn(q: MessageQueue, t: Tid, ghost s: State)
    requires Represents(q, s) && Enabled(s, Expire(t))
    modifies q, q.next, q.slots
    ensures Represents(q, Next(s, Expire(t)))
  {
    ghost var r := Next(s, Expire(t));
    ghost var next := q.next[..];
    q.recvWait := L.Without(q.recvWait, t);
    q.sendWait := L.Without(q.sendWait, t);
    HolderChange(s, r, t, Idle);
    SameInFlight(q.held, next, next, s, r);
  }

  /** rt_mq_control(RT_IPC_CMD_RESET) */
  method ResetOn(q: MessageQueue, ghost s: State)
    requires Represents(q, s) && Inv(s)
    modifies q, q.next, q.slots
    ensures Represents(q, Next(s, Reset))
  {
    ghost var held, next, slots := q.held, q.next[..], q.slots[..];
    var resumed := q.Reset();
    assert q.slots[..] == slots;
    ResetInFlight(held, next, q.next[..], s);
  }

  /** The actions of a thread with a node in flight, performed on the linked queue; `pcs` are
      the threads' own variables. */
  method PerformHolding(q: MessageQueue, a: Action, pcs: map<Tid, Pc>, ghost s: State)
    requires Represents(q, s) && Inv(s) && Enabled(s, a) && pcs == s.pcs
    requires a.Fill? || a.Link? || a.CopyOut? || a.Release?
    modifies q, q.next, q.slots
    ensures Represents(q, Next(s, a))
  {
    match a {
      case Fill(t) => FillOn(q, t, pcs[t], s);
      case Link(t) =>
        LinkBecomes(q, t, pcs[t], s);
        LinkOn(q, pcs[t], s, Next(s, a));
      case CopyOut(t) => var buffer := CopyOutOn(q, t, pcs[t], s);
      case Release(t) =>
        ReleaseBecomes(q, t, pcs[t], s);
        ReleaseOn(q, pcs[t].node, s, Next(s, a));
    }
  }

  /** The first critical sections, entered by a call or by a resumed thread. */
  method PerformTry(q: MessageQueue, a: Action, pcs: map<Tid, Pc>, ghost s: State)
    requires Represents(q, s) && Enabled(s, a) && pcs == s.pcs
    requires a.Send? || a.Urgent? || a.ResumeSend? || a.Recv? || a.ResumeRecv?
    modifies q, q.next, q.slots
    ensures Represents(q, Next(s, a))
  {
    match a {
      case Send(t, buf, timeout, k) =>
        if |buf| <= q.msgSize { var msg := TrySendOn(q, t, buf, timeout, k, s); }
      case Urgent(t, buf) =>
        if |buf| <= q.msgSize { var msg := TryUrgentOn(q, t, buf, s); }
      case ResumeSend(t, elapsed, k) =>
        var msg := TrySendOn(q, t, pcs[t].buf, W.Remaining(pcs[t].timeout, elapsed), k, s);
      case Recv(t, size, timeout, k) => var msg := TryRecvOn(q, t, size, timeout, k, s);
      case ResumeRecv(t, elapsed, k) =>
        var msg := TryRecvOn(q, t, pcs[t].size, W.Remaining(pcs[t].timeout, elapsed), k, s);
    }
  }

  /** Any action, performed on the linked queue. */
  method Perform(q: MessageQueue, a: Action, pcs: map<Tid, Pc>, ghost s: State)
    requires Represents(q, s) && Inv(s) && Enabled(s, a) && pcs == s.pcs
    modifies q, q.next, q.slots
    ensures Represents(q, Next(s, a))
  {
    if a.Fill? || a.Link? || a.CopyOut? || a.Release? {
      PerformHolding(q, a, pcs, s);
    } else if a.Expire? {
      ExpireOn(q, a.t, s);
    } else if a.Reset? {
      ResetOn(q, s);
    } else {
      PerformTry(q, a, pcs, s);
    }
  }

  /** In every run of the machine, played on the linked queue from rt_mq_init on: `entry` is the
      number of queued messages, head and tail are the ends of the chain, and the chain and the
      free list are those of the machine. */
  method Play(q: MessageQueue, run: seq<State>, actions: seq<Action>)
    requires Behaviour(run) && |actions| == |run| - 1
    requires forall i :: 0 <= i < |actions| ==> Enabled(run[i], actions[i]) && run[i + 1] == Next(run[i], actions[i])
    requires Represents(q, run[0])
    modifies q, q.next, q.slots
    ensures Represents(q, run[|run| - 1])
  {
    for i := 0 to |actions|
      invariant Represents(q, run[i])
    {
      AlwaysInv(run, i);
      Perform(q, actions[i], run[i].pcs, run[i]);
    }
  }

  /** A queue fresh from rt_mq_init represents the initial state. */
  lemma InitRepresents(q: MessageQueue, s: State)
    requires Initial(s) && q.Valid() && q.maxMsgs == s.maxMsgs && q.msgSize == s.msgSize && q.slots[..] == s.slots
    requires q.queue == [] && q.held == {} && q.recvWait == [] && q.sendWait == []
    requires |q.freeList| == q.maxMsgs && forall i :: 0 <= i < q.maxMsgs ==> q.freeList[i] == q.maxMsgs - 1 - i
    ensures Represents(q, s)
  {
  }

  /** What representing a reachable state says about the linked queue. */
  lemma Consistent(q: MessageQueue, s: State)
    requires Represents(q, s) && Inv(s)
    ensures q.entry == |s.queue| == |s.contents|
    ensures Chain(q.next[..], q.head, s.queue) && Chain(q.next[..], q.free, s.free)
    ensures s.queue == [] ==> q.head == q.tail == NIL
    ensures s.queue != [] ==> q.head == s.queue[0] && q.tail == s.queue[|s.queue| - 1]
    ensures forall i :: 0 <= i < |s.queue| ==> s.queue[i] < q.slots.Length && StartsWith(q.slots[s.queue[i]], s.contents[i])
  {
    assert forall n :: 0 <= n < q.slots.Length ==> q.slots[n] == s.slots[n];
  }
}
