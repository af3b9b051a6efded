/** What every step of a message queue keeps, and what follows for every run. */
module MsgQueueLaws {
  import opened MsgQueueModel
  import L = WaitList
  import W = WaitProtocol

  // ------------------------------------------------------ nodes change hands

  ghost predicate SameHolders(s: State, r: State) {
    && r.maxMsgs == s.maxMsgs
    && forall u: Tid, n: Node :: Holds(r, u, n) <==> Holds(s, u, n)
  }

  /** `t` now holds `n` besides everything held before. */
  ghost predicate NewHolder(s: State, r: State, t: Tid, n: Node) {
    && r.maxMsgs == s.maxMsgs
    && forall u: Tid, m: Node :: Holds(r, u, m) <==> Holds(s, u, m) || (u == t && m == n)
  }

  /** `t` no longer holds `n`. */
  ghost predicate HolderLeft(s: State, r: State, t: Tid, n: Node) {
    && r.maxMsgs == s.maxMsgs && Holds(s, t, n)
    && forall u: Tid, m: Node :: Holds(r, u, m) <==> Holds(s, u, m) && u != t
  }

  lemma DistinctTail(ns: seq<Node>, max: nat)
    requires Distinct(ns, max) && ns != []
    ensures Distinct(ns[1..], max) && ns[0] !in ns[1..] && ns[0] < max
    ensures forall n :: n in ns <==> n == ns[0] || n in ns[1..]
  {
    assert ns == [ns[0]] + ns[1..];
  }

  lemma DistinctCons(ns: seq<Node>, max: nat, n: Node)
    requires Distinct(ns, max) && n !in ns && n < max
    ensures Distinct([n] + ns, max) && Distinct(ns + [n], max)
  {
  }

  lemma TakeFree(s: State, r: State, t: Tid)
    requires Partition(s) && s.free != [] && r.free == s.free[1..] && r.queue == s.queue
    requires NewHolder(s, r, t, s.free[0])
    ensures Partition(r)
  {
    DistinctTail(s.free, s.maxMsgs);
    assert Holds(r, t, s.free[0]);
    forall n | 0 <= n < r.maxMsgs && n !in r.free && n !in r.queue ensures exists u :: Holds(r, u, n) {
      if n != s.free[0] {
        var u :| Holds(s, u, n);
        assert Holds(r, u, n);
      }
    }
  }

  lemma TakeHead(s: State, r: State, t: Tid)
    requires Partition(s) && s.queue != [] && r.queue == s.queue[1..] && r.free == s.free
    requires NewHolder(s, r, t, s.queue[0])
    ensures Partition(r)
  {
    DistinctTail(s.queue, s.maxMsgs);
    assert Holds(r, t, s.queue[0]);
    forall n | 0 <= n < r.maxMsgs && n !in r.free && n !in r.queue ensures exists u :: Holds(r, u, n) {
      if n != s.queue[0] {
        var u :| Holds(s, u, n);
        assert Holds(r, u, n);
      }
    }
  }

  lemma PutInto(s: State, r: State, t: Tid, n: Node)
    requires Partition(s) && HolderLeft(s, r, t, n)
    requires (r.free == s.free && (r.queue == [n] + s.queue || r.queue == s.queue + [n]))
          || (r.queue == s.queue && r.free == [n] + s.free)
    ensures Partition(r)
  {
    DistinctCons(s.queue, s.maxMsgs, n);
    DistinctCons(s.free, s.maxMsgs, n);
    assert n in r.free || n in r.queue;
    forall m | 0 <= m < r.maxMsgs && m !in r.free && m !in r.queue ensures exists u :: Holds(r, u, m) {
      var u :| Holds(s, u, m);
      assert Holds(r, u, m);
    }
  }

  lemma {:induction false} ReverseIs(ns: seq<Node>)
    ensures |Reverse(ns)| == |ns|
    ensures forall i :: 0 <= i < |ns| ==> Reverse(ns)[i] == ns[|ns| - 1 - i]
  {
    if ns != [] { ReverseIs(ns[1..]); }
  }

  lemma DistinctCat(a: seq<Node>, b: seq<Node>, max: nat)
    requires Distinct(a, max) && Distinct(b, max) && forall n :: n in a ==> n !in b
    ensures Distinct(a + b, max)
  {
    var c := a + b;
    forall i, j | 0 <= i < j < |c| ensures c[i] != c[j] {
      assert i < |a| ==> c[i] in a;
      assert j >= |a| ==> c[j] in b;
    }
  }

  lemma FlushQueue(s: State, r: State)
    requires Partition(s) && SameHolders(s, r) && r.queue == [] && r.free == Reverse(s.queue) + s.free
    ensures Partition(r)
  {
    ReverseIs(s.queue);
    var rev := Reverse(s.queue);
    assert forall i :: 0 <= i < |r.free| ==> r.free[i] == if i < |rev| then s.queue[|rev| - 1 - i] else s.free[i - |rev|];
    forall n | n in s.queue ensures n in rev {
      var i :| 0 <= i < |s.queue| && s.queue[i] == n;
      assert rev[|rev| - 1 - i] == n;
    }
    assert forall n :: n in rev ==> n in s.queue;
    DistinctCat(rev, s.free, s.maxMsgs);
    forall n | 0 <= n < r.maxMsgs && n !in r.free ensures exists u :: Holds(r, u, n) {
      assert n !in s.free && n !in s.queue;
      var u :| Holds(s, u, n);
      assert Holds(r, u, n);
    }
  }

  lemma SamePartition(s: State, r: State)
    requires Partition(s) && SameHolders(s, r) && r.free == s.free && r.queue == s.queue
    ensures Partition(r)
  {
    forall n | 0 <= n < r.maxMsgs && n !in r.free && n !in r.queue ensures exists u :: Holds(r, u, n) {
      var u :| Holds(s, u, n);
      assert Holds(r, u, n);
    }
  }

  // -------------------------------------------------------- waking a thread

  lemma WakeReceiverFacts(s: State)
    requires W.Consistent(RecvSide(s))
    ensures var r := WakeReceiver(s);
      && SameHolders(s, r) && r.pcs.Keys == s.pcs.Keys && r == s.(recvWait := r.recvWait, pcs := r.pcs)
      && SendSide(r) == SendSide(s)
      && (forall u :: u in s.pcs ==> r.pcs[u] == s.pcs[u] || (r.pcs[u].RecvWoken? && s.pcs[u].RecvWait?))
  {
    var r := WakeReceiver(s);
    if s.recvWait != [] {
      var w := s.recvWait[0];
      assert w in RecvSide(s).status && RecvSide(s).status[w].Waiting?;
      assert s.pcs[w].RecvWait?;
    }
    assert SendSide(r).status == SendSide(s).status;
  }

  lemma WakeSenderFacts(s: State)
    requires W.Consistent(SendSide(s))
    ensures var r := WakeSender(s);
      && SameHolders(s, r) && r.pcs.Keys == s.pcs.Keys && r == s.(sendWait := r.sendWait, pcs := r.pcs)
      && RecvSide(r) == RecvSide(s)
      && (forall u :: u in s.pcs ==> r.pcs[u] == s.pcs[u] || (r.pcs[u].SendWoken? && s.pcs[u] == SendWait(r.pcs[u].buf, r.pcs[u].timeout)))
  {
    var r := WakeSender(s);
    if s.sendWait != [] {
      var w := s.sendWait[0];
      assert w in SendSide(s).status && SendSide(s).status[w].Waiting?;
      assert s.pcs[w].SendWait?;
    }
    assert RecvSide(r).status == RecvSide(s).status;
  }

  // ------------------------------------------- each step as the waiters see it

  /** What action `a` is for the receivers' wait list. */
  function ForReceivers(s: State, a: Action): W.Seen {
    match a
    case Link(_) => W.Does(W.Produce)
    case Recv(t, _, timeout, k) => W.Does(W.Enter(t, timeout, k))
    case ResumeRecv(t, elapsed, k) => W.Does(W.Recheck(t, elapsed, k))
    case Expire(t) => if t in s.pcs && s.pcs[t].RecvWait? then W.Does(W.Expire(t)) else W.Nothing
    case Reset => W.Does(W.Reset(0))
    case _ => W.Nothing
  }

  /** A sender that never waits, rt_mq_urgent, is one with timeout 0. */
  function ForSenders(s: State, a: Action): W.Seen {
    match a
    case Release(_) => W.Does(W.Produce)
    case Send(t, buf, timeout, k) => if |buf| > s.msgSize then W.Nothing else W.Does(W.Enter(t, timeout, k))
    case Urgent(t, buf) => if |buf| > s.msgSize then W.Nothing else W.Does(W.Enter(t, 0, 0))
    case ResumeSend(t, elapsed, k) => W.Does(W.Recheck(t, elapsed, k))
    case Expire(t) => if t in s.pcs && s.pcs[t].SendWait? then W.Does(W.Expire(t)) else W.Nothing
    case Reset => W.Does(W.Reset(|s.queue| + |s.free|))
    case _ => W.Nothing
  }

  lemma OnList(s: State, t: Tid)
    requires W.Consistent(RecvSide(s)) && W.Consistent(SendSide(s)) && t in s.pcs
    ensures t in s.recvWait <==> s.pcs[t].RecvWait?
    ensures t in s.sendWait <==> s.pcs[t].SendWait?
  {
    assert RecvSide(s).status[t] == RStatus(s.pcs[t]);
    assert SendSide(s).status[t] == SStatus(s.pcs[t]);
  }

  lemma ResetSides(s: State)
    requires W.Consistent(RecvSide(s)) && W.Consistent(SendSide(s))
    ensures RecvSide(DoReset(s)) == W.Next(RecvSide(s), W.Reset(0))
    ensures SendSide(DoReset(s)) == W.Next(SendSide(s), W.Reset(|s.queue| + |s.free|))
  {
    var r := DoReset(s);
    ReverseIs(s.queue);
    forall t | t in s.pcs
      ensures RStatus(r.pcs[t]) == if t in s.recvWait then W.Running else RStatus(s.pcs[t])
      ensures SStatus(r.pcs[t]) == if t in s.sendWait then W.Running else SStatus(s.pcs[t])
    {
      OnList(s, t);
    }
    assert RecvSide(r).status == W.Release(RecvSide(s).status, s.recvWait);
    assert SendSide(r).status == W.Release(SendSide(s).status, s.sendWait);
  }

  lemma ExpireSides(s: State, t: Tid)
    requires W.Consistent(RecvSide(s)) && W.Consistent(SendSide(s)) && Enabled(s, Expire(t))
    ensures W.Moves(RecvSide(s), ForReceivers(s, Expire(t)), RecvSide(DoExpire(s, t)))
    ensures W.Moves(SendSide(s), ForSenders(s, Expire(t)), SendSide(DoExpire(s, t)))
  {
    OnList(s, t);
    var r := DoExpire(s, t);
    if s.pcs[t].RecvWait? { L.WithoutAbsent(s.sendWait, t); } else { L.WithoutAbsent(s.recvWait, t); }
    assert RecvSide(r).status == RecvSide(s).status[t := W.Running];
    assert SendSide(r).status == SendSide(s).status[t := W.Running];
  }

  lemma RecvStatusChange(s: State, r: State, t: Tid, pc: Pc)
    requires t in s.pcs && r.pcs == s.pcs[t := pc]
    ensures RecvSide(r).status == RecvSide(s).status[t := RStatus(pc)]
  {
  }

  lemma SendStatusChange(s: State, r: State, t: Tid, pc: Pc)
    requires t in s.pcs && r.pcs == s.pcs[t := pc]
    ensures SendSide(r).status == SendSide(s).status[t := SStatus(pc)]
  {
  }

  /** One thread's program counter changes. */
  lemma PcChange(s: State, r: State, t: Tid, pc: Pc)
    requires t in s.pcs && r.pcs == s.pcs[t := pc]
    ensures RecvSide(r).status == RecvSide(s).status[t := RStatus(pc)]
    ensures SendSide(r).status == SendSide(s).status[t := SStatus(pc)]
    ensures RStatus(pc) == RStatus(s.pcs[t]) ==> RecvSide(r).status == RecvSide(s).status
    ensures SStatus(pc) == SStatus(s.pcs[t]) ==> SendSide(r).status == SendSide(s).status
  {
    RecvStatusChange(s, r, t, pc);
    SendStatusChange(s, r, t, pc);
    assert RecvSide(s).status[t] == RStatus(s.pcs[t]) && SendSide(s).status[t] == SStatus(s.pcs[t]);
  }

  lemma TryRecvSides(s: State, t: Tid, size: nat, timeout: int, k: nat)
    requires t in s.pcs && !s.pcs[t].RecvWait? && !s.pcs[t].SendWait? && !s.pcs[t].SendWoken? && k <= |s.recvWait|
    ensures RecvSide(TryRecv(s, t, size, timeout, k)) == W.Check(RecvSide(s), t, timeout, k)
    ensures SendSide(TryRecv(s, t, size, timeout, k)) == SendSide(s)
  {
    var r := TryRecv(s, t, size, timeout, k);
    PcChange(s, r, t, r.pcs[t]);
  }

  lemma TrySendSides(s: State, t: Tid, buf: Msg, timeout: int, k: nat)
    requires t in s.pcs && !s.pcs[t].SendWait? && !s.pcs[t].RecvWait? && !s.pcs[t].RecvWoken? && k <= |s.sendWait|
    ensures SendSide(TrySend(s, t, buf, timeout, k)) == W.Check(SendSide(s), t, timeout, k)
    ensures RecvSide(TrySend(s, t, buf, timeout, k)) == RecvSide(s)
  {
    var r := TrySend(s, t, buf, timeout, k);
    PcChange(s, r, t, r.pcs[t]);
  }

  lemma WakeReceiverSide(s: State)
    requires W.Consistent(RecvSide(s))
    ensures RecvSide(WakeReceiver(s)) == W.Next(RecvSide(s), W.Produce).(avail := |s.queue|)
  {
    if s.recvWait != [] {
      var w, r := s.recvWait[0], WakeReceiver(s);
      assert w in RecvSide(s).status && RecvSide(s).status[w].Waiting?;
      PcChange(s, r, w, r.pcs[w]);
    }
  }

  lemma WakeSenderSide(s: State)
    requires W.Consistent(SendSide(s))
    ensures SendSide(WakeSender(s)) == W.Next(SendSide(s), W.Produce).(avail := |s.free|)
  {
    if s.sendWait != [] {
      var w, r := s.sendWait[0], WakeSender(s);
      assert w in SendSide(s).status && SendSide(s).status[w].Waiting?;
      PcChange(s, r, w, r.pcs[w]);
    }
  }

  lemma LinkSides(s: State, t: Tid)
    requires W.Consistent(RecvSide(s)) && Enabled(s, Link(t))
    ensures RecvSide(Next(s, Link(t))) == W.Next(RecvSide(s), W.Produce)
    ensures SendSide(Next(s, Link(t))) == SendSide(s)
  {
    var m := Linked(s, t, s.pcs[t]);
    PcChange(s, m, t, Idle);
    assert RecvSide(m) == RecvSide(s).(avail := |s.queue| + 1);
    WakeReceiverSide(m);
    WakeReceiverFacts(m);
  }

  lemma ReleaseSides(s: State, t: Tid)
    requires W.Consistent(SendSide(s)) && Enabled(s, Action.Release(t))
    ensures SendSide(Next(s, Action.Release(t))) == W.Next(SendSide(s), W.Produce)
    ensures RecvSide(Next(s, Action.Release(t))) == RecvSide(s)
  {
    var m := Released(s, t);
    PcChange(s, m, t, Idle);
    assert SendSide(m) == SendSide(s).(avail := |s.free| + 1);
    WakeSenderSide(m);
    WakeSenderFacts(m);
  }

  lemma TryMoves(s: State, a: Action)
    requires W.Consistent(RecvSide(s)) && W.Consistent(SendSide(s)) && Enabled(s, a)
    requires a.Send? || a.ResumeSend? || a.Recv? || a.ResumeRecv?
    ensures W.Moves(RecvSide(s), ForReceivers(s, a), RecvSide(Next(s, a)))
    ensures W.Moves(SendSide(s), ForSenders(s, a), SendSide(Next(s, a)))
  {
    match a {
      case Send(t, buf, timeout, k) => if |buf| <= s.msgSize { TrySendSides(s, t, buf, timeout, k); }
      case ResumeSend(t, elapsed, k) => TrySendSides(s, t, s.pcs[t].buf, W.Remaining(s.pcs[t].timeout, elapsed), k);
      case Recv(t, size, timeout, k) => TryRecvSides(s, t, size, timeout, k);
      case ResumeRecv(t, elapsed, k) => TryRecvSides(s, t, s.pcs[t].size, W.Remaining(s.pcs[t].timeout, elapsed), k);
    }
  }

  lemma UrgentMoves(s: State, t: Tid, buf: Msg)
    requires Enabled(s, Urgent(t, buf))
    ensures W.Moves(RecvSide(s), ForReceivers(s, Urgent(t, buf)), RecvSide(Next(s, Urgent(t, buf))))
    ensures W.Moves(SendSide(s), ForSenders(s, Urgent(t, buf)), SendSide(Next(s, Urgent(t, buf))))
  {
    if |buf| <= s.msgSize && s.free != [] {
      PcChange(s, Next(s, Urgent(t, buf)), t, Holding(s.free[0], buf, true));
    }
    assert SendSide(s).status[t := W.Running] == SendSide(s).status;
  }

  /** Every step of the queue is a step of the blocking protocol, or none, for its
      receivers and for its senders. */
  lemma SidesMove(s: State, a: Action)
    requires W.Consistent(RecvSide(s)) && W.Consistent(SendSide(s)) && Enabled(s, a)
    ensures W.Moves(RecvSide(s), ForReceivers(s, a), RecvSide(Next(s, a)))
    ensures W.Moves(SendSide(s), ForSenders(s, a), SendSide(Next(s, a)))
  {
    if a.Send? || a.ResumeSend? || a.Recv? || a.ResumeRecv? {
      TryMoves(s, a);
    } else {
      match a {
        case Urgent(t, buf) => UrgentMoves(s, t, buf);
        case Fill(t) => PcChange(s, Next(s, a), t, Next(s, a).pcs[t]);
        case Link(t) => LinkSides(s, t);
        case CopyOut(t) => PcChange(s, Next(s, a), t, Next(s, a).pcs[t]);
        case Release(t) => ReleaseSides(s, t);
        case Expire(t) => ExpireSides(s, t);
        case Reset => ResetSides(s);
      }
    }
  }

  /** No wake-up of a receiver or of a sender is lost by any step. */
  lemma SidesInv(s: State, a: Action)
    requires W.Inv(RecvSide(s)) && W.Inv(SendSide(s)) && Enabled(s, a)
    ensures W.Inv(RecvSide(Next(s, a))) && W.Inv(SendSide(Next(s, a)))
  {
    SidesMove(s, a);
    var x, y := ForReceivers(s, a), ForSenders(s, a);
    if x.Does? { W.NextInv(RecvSide(s), x.a); }
    if y.Does? { W.NextInv(SendSide(s), y.a); }
  }

  // -------------------------------------------------------- partition, stepwise

  lemma HolderChange(s: State, r: State, t: Tid, pc: Pc)
    requires t in s.pcs && r.pcs == s.pcs[t := pc] && r.maxMsgs == s.maxMsgs
    ensures !HasNode(s.pcs[t]) && HasNode(pc) ==> NewHolder(s, r, t, pc.node)
    ensures HasNode(s.pcs[t]) && !HasNode(pc) ==> HolderLeft(s, r, t, s.pcs[t].node)
    ensures !HasNode(s.pcs[t]) && !HasNode(pc) ==> SameHolders(s, r)
    ensures HasNode(s.pcs[t]) && HasNode(pc) && pc.node == s.pcs[t].node ==> SameHolders(s, r)
  {
  }

  lemma TrySendPartition(s: State, t: Tid, buf: Msg, timeout: int, k: nat)
    requires Partition(s) && t in s.pcs && !HasNode(s.pcs[t]) && k <= |s.sendWait|
    ensures Partition(TrySend(s, t, buf, timeout, k))
  {
    var r := TrySend(s, t, buf, timeout, k);
    HolderChange(s, r, t, r.pcs[t]);
    if s.free != [] { TakeFree(s, r, t); } else { SamePartition(s, r); }
  }

  lemma TryRecvPartition(s: State, t: Tid, size: nat, timeout: int, k: nat)
    requires Partition(s) && t in s.pcs && !HasNode(s.pcs[t]) && k <= |s.recvWait|
    ensures Partition(TryRecv(s, t, size, timeout, k))
  {
    var r := TryRecv(s, t, size, timeout, k);
    HolderChange(s, r, t, r.pcs[t]);
    if s.queue != [] { TakeHead(s, r, t); } else { SamePartition(s, r); }
  }

  lemma LinkPartition(s: State, t: Tid)
    requires Partition(s) && Enabled(s, Link(t)) && W.Consistent(RecvSide(s))
    ensures Partition(Next(s, Link(t)))
  {
    var m := Linked(s, t, s.pcs[t]);
    PcChange(s, m, t, Idle);
    HolderChange(s, m, t, Idle);
    PutInto(s, m, t, s.pcs[t].node);
    assert RecvSide(m) == RecvSide(s).(avail := |s.queue| + 1);
    WakeReceiverFacts(m);
    SamePartition(m, WakeReceiver(m));
  }

  lemma ReleasePartition(s: State, t: Tid)
    requires Partition(s) && Enabled(s, Action.Release(t)) && W.Consistent(SendSide(s))
    ensures Partition(Next(s, Action.Release(t)))
  {
    var m := Released(s, t);
    PcChange(s, m, t, Idle);
    HolderChange(s, m, t, Idle);
    PutInto(s, m, t, s.pcs[t].node);
    assert SendSide(m) == SendSide(s).(avail := |s.free| + 1);
    WakeSenderFacts(m);
    SamePartition(m, WakeSender(m));
  }

  lemma ResetPartition(s: State)
    requires Partition(s) && W.Consistent(RecvSide(s)) && W.Consistent(SendSide(s))
    ensures Partition(DoReset(s))
  {
    var r := DoReset(s);
    forall u: Tid, n: Node ensures Holds(r, u, n) <==> Holds(s, u, n) {
      if u in s.pcs { OnList(s, u); }
    }
    FlushQueue(s, r);
  }

  /** Free list, queue and nodes in flight stay a partition of all nodes. */
  lemma PartitionStep(s: State, a: Action)
    requires Partition(s) && W.Consistent(RecvSide(s)) && W.Consistent(SendSide(s)) && Enabled(s, a)
    ensures Partition(Next(s, a))
  {
    var r := Next(s, a);
    match a {
      case Send(t, buf, timeout, k) => if |buf| <= s.msgSize { TrySendPartition(s, t, buf, timeout, k); }
      case Urgent(t, buf) =>
        if |buf| <= s.msgSize && s.free != [] {
          HolderChange(s, r, t, r.pcs[t]);
          TakeFree(s, r, t);
        }
      case ResumeSend(t, elapsed, k) => TrySendPartition(s, t, s.pcs[t].buf, W.Remaining(s.pcs[t].timeout, elapsed), k);
      case Fill(t) => HolderChange(s, r, t, r.pcs[t]); SamePartition(s, r);
      case Link(t) => LinkPartition(s, t);
      case Recv(t, size, timeout, k) => TryRecvPartition(s, t, size, timeout, k);
      case ResumeRecv(t, elapsed, k) => TryRecvPartition(s, t, s.pcs[t].size, W.Remaining(s.pcs[t].timeout, elapsed), k);
      case CopyOut(t) => HolderChange(s, r, t, r.pcs[t]); SamePartition(s, r);
      case Release(t) => ReleasePartition(s, t);
      case Expire(t) => HolderChange(s, r, t, Idle); SamePartition(s, r);
      case Reset => ResetPartition(s);
    }
  }

  // ------------------------------------------------------------ data, stepwise

  /** Program counters of other threads keep their data when the slots do not change. */
  lemma SameSlotsData(s: State, r: State)
    requires Data(s) && r.slots == s.slots && r.msgSize == s.msgSize && r.maxMsgs == s.maxMsgs
    requires QueueData(r.slots, r.queue, r.contents)
    requires forall t :: t in r.pcs ==> (t in s.pcs && r.pcs[t] == s.pcs[t]) || PcData(s, r.pcs[t])
    ensures Data(r)
  {
    forall t | t in r.pcs ensures PcData(r, r.pcs[t]) {
      assert PcData(s, r.pcs[t]);
    }
  }

  lemma TryRecvData(s: State, t: Tid, size: nat, timeout: int, k: nat)
    requires Data(s) && t in s.pcs && k <= |s.recvWait|
    ensures Data(TryRecv(s, t, size, timeout, k))
  {
    var r := TryRecv(s, t, size, timeout, k);
    if s.queue != [] {
      assert r.queue == s.queue[1..] && r.contents == s.contents[1..];
    }
    SameSlotsData(s, r);
  }

  lemma TrySendData(s: State, t: Tid, buf: Msg, timeout: int, k: nat)
    requires Data(s) && t in s.pcs && k <= |s.sendWait| && |buf| <= s.msgSize
    ensures Data(TrySend(s, t, buf, timeout, k))
  {
    SameSlotsData(s, TrySend(s, t, buf, timeout, k));
  }

  /** The unlocked copy touches only the sender's own node. */
  lemma FillData(s: State, t: Tid)
    requires Data(s) && Partition(s) && Enabled(s, Fill(t))
    ensures Data(Next(s, Fill(t)))
  {
    var r, pc := Next(s, Fill(t)), s.pcs[t];
    assert PcData(s, pc) && Holds(s, t, pc.node);
    assert r.slots[pc.node][..|pc.buf|] == pc.buf;
    forall u | u in r.pcs ensures PcData(r, r.pcs[u]) {
      if u != t {
        assert PcData(s, s.pcs[u]);
        if HasNode(s.pcs[u]) { assert Holds(s, u, s.pcs[u].node); }
      }
    }
    forall i | 0 <= i < |r.queue| ensures StartsWith(r.slots[r.queue[i]], r.contents[i]) {
      assert r.queue[i] in s.queue;
    }
  }

  lemma LinkData(s: State, t: Tid)
    requires Data(s) && Enabled(s, Link(t)) && W.Consistent(RecvSide(s))
    ensures Data(Next(s, Link(t)))
  {
    var m, pc := Linked(s, t, s.pcs[t]), s.pcs[t];
    assert PcData(s, pc);
    assert QueueData(m.slots, m.queue, m.contents);
    forall u | u in m.pcs ensures PcData(m, m.pcs[u]) { assert u != t ==> PcData(s, m.pcs[u]); }
    PcChange(s, m, t, Idle);
    assert RecvSide(m) == RecvSide(s).(avail := |s.queue| + 1);
    WakeReceiverFacts(m);
    SameSlotsData(m, WakeReceiver(m));
  }

  lemma ReleaseData(s: State, t: Tid)
    requires Data(s) && Enabled(s, Action.Release(t)) && W.Consistent(SendSide(s))
    ensures Data(Next(s, Action.Release(t)))
  {
    var m := Released(s, t);
    SameSlotsData(s, m);
    PcChange(s, m, t, Idle);
    assert SendSide(m) == SendSide(s).(avail := |s.free| + 1);
    WakeSenderFacts(m);
    forall u | u in m.pcs && WakeSender(m).pcs[u] != m.pcs[u] ensures PcData(m, WakeSender(m).pcs[u]) {
      assert PcData(m, m.pcs[u]);
    }
    SameSlotsData(m, WakeSender(m));
  }

  lemma CopyOutData(s: State, t: Tid)
    requires Data(s) && Enabled(s, CopyOut(t))
    ensures Data(Next(s, CopyOut(t)))
  {
    var r, pc := Next(s, CopyOut(t)), s.pcs[t];
    assert PcData(s, pc);
    var n := Min(|pc.msg|, pc.size);
    assert r.pcs[t].out[..n] == s.slots[pc.node][..n] == s.slots[pc.node][..|pc.msg|][..n];
    SameSlotsData(s, r);
  }

  /** Every queued or held node keeps the bytes of the message it stands for. */
  lemma DataStep(s: State, a: Action)
    requires Data(s) && Partition(s) && W.Consistent(RecvSide(s)) && W.Consistent(SendSide(s)) && Enabled(s, a)
    ensures Data(Next(s, a))
  {
    match a {
      case Send(t, buf, timeout, k) => if |buf| <= s.msgSize { TrySendData(s, t, buf, timeout, k); }
      case Urgent(t, buf) => SameSlotsData(s, Next(s, a));
      case ResumeSend(t, elapsed, k) =>
        assert PcData(s, s.pcs[t]);
        TrySendData(s, t, s.pcs[t].buf, W.Remaining(s.pcs[t].timeout, elapsed), k);
      case Fill(t) => FillData(s, t);
      case Link(t) => LinkData(s, t);
      case Recv(t, size, timeout, k) => TryRecvData(s, t, size, timeout, k);
      case ResumeRecv(t, elapsed, k) => TryRecvData(s, t, s.pcs[t].size, W.Remaining(s.pcs[t].timeout, elapsed), k);
      case CopyOut(t) => CopyOutData(s, t);
      case Release(t) => ReleaseData(s, t);
      case Expire(t) => SameSlotsData(s, Next(s, a));
      case Reset => SameSlotsData(s, Next(s, a));
    }
  }

  lemma ReplayExtend(log: seq<Event>, e: Event)
    ensures Replay(log + [e]) == Extend(Replay(log), e)
  {
    assert (log + [e])[..|log|] == log;
  }

  lemma TryRecvReplay(s: State, t: Tid, size: nat, timeout: int, k: nat)
    requires Replay(s.log) == Deque(s.contents) && |s.contents| == |s.queue| && k <= |s.recvWait|
    ensures var r := TryRecv(s, t, size, timeout, k); Replay(r.log) == Deque(r.contents)
  {
    if s.queue != [] { ReplayExtend(s.log, Got(s.contents[0])); }
  }

  /** The history so far, replayed on a double-ended sequence, ends in the present contents. */
  lemma ReplayStep(s: State, a: Action)
    requires Replay(s.log) == Deque(s.contents) && |s.contents| == |s.queue| && Enabled(s, a)
    ensures Replay(Next(s, a).log) == Deque(Next(s, a).contents)
  {
    match a {
      case Link(t) => ReplayExtend(s.log, Sent(s.pcs[t].buf, s.pcs[t].urgent));
      case Recv(t, size, timeout, k) => TryRecvReplay(s, t, size, timeout, k);
      case ResumeRecv(t, elapsed, k) => TryRecvReplay(s, t, s.pcs[t].size, W.Remaining(s.pcs[t].timeout, elapsed), k);
      case Reset => ReplayExtend(s.log, Flushed);
      case _ =>
    }
  }

  // ---------------------------------------------------------------- whole runs

  lemma InvStep(s: State, a: Action)
    requires Inv(s) && Enabled(s, a)
    ensures Inv(Next(s, a))
  {
    PartitionStep(s, a);
    DataStep(s, a);
    SidesInv(s, a);
    ReplayStep(s, a);
  }

  /** rt_mq_init: all nodes free, the last one first, nothing queued, every thread outside. */
  ghost predicate Initial(s: State) {
    && |s.slots| == s.maxMsgs && (forall n :: 0 <= n < |s.slots| ==> |s.slots[n]| == s.msgSize)
    && |s.free| == s.maxMsgs && (forall i :: 0 <= i < |s.free| ==> s.free[i] == s.maxMsgs - 1 - i)
    && s.queue == [] && s.recvWait == [] && s.sendWait == [] && s.contents == [] && s.log == []
    && forall t :: t in s.pcs ==> s.pcs[t].Idle?
  }

  ghost predicate Step(s: State, r: State) { exists a :: Enabled(s, a) && r == Next(s, a) }

  ghost predicate Behaviour(run: seq<State>) {
    && |run| > 0 && Initial(run[0])
    && forall i, j {:trigger Step(run[i], run[j])} :: 0 <= i && j == i + 1 && j < |run| ==> Step(run[i], run[j])
  }

  lemma InitialInv(s: State)
    requires Initial(s)
    ensures Inv(s)
  {
    forall n | 0 <= n < s.maxMsgs ensures n in s.free {
      assert s.free[s.maxMsgs - 1 - n] == n;
    }
  }

  /** In every state of every run: the nodes are partitioned, the queue is the deque its
      history says, each queued node carries its message, and no wake-up is lost. */
  lemma {:induction false} AlwaysInv(run: seq<State>, i: nat)
    requires Behaviour(run) && i < |run|
    ensures Inv(run[i])
  {
    if i == 0 {
      InitialInv(run[0]);
    } else {
      AlwaysInv(run, i - 1);
      assert Step(run[i - 1], run[i]);
      var a :| Enabled(run[i - 1], a) && run[i] == Next(run[i - 1], a);
      InvStep(run[i - 1], a);
    }
  }

  // -------------------------------------------------------------- consequences

  function Range(max: nat): (r: set<Node>)
    ensures forall n: Node :: n in r <==> n < max
  {
    if max == 0 then {} else Range(max - 1) + {max - 1}
  }

  lemma {:induction false} RangeSize(max: nat)
    ensures |Range(max)| == max
  {
    if max > 0 { RangeSize(max - 1); }
  }

  function NodeSet(ns: seq<Node>): set<Node> { set n | n in ns }

  lemma {:induction false} DistinctSize(ns: seq<Node>, max: nat)
    requires Distinct(ns, max)
    ensures |NodeSet(ns)| == |ns|
  {
    if ns != [] {
      DistinctTail(ns, max);
      DistinctSize(ns[1..], max);
      assert NodeSet(ns) == NodeSet(ns[1..]) + {ns[0]};
    }
  }

  /** The overflow branch of a send (ipc.c:2869-2878, 2998-3007) cannot be taken: with a node
      still to be linked, fewer than `maxMsgs` messages are queued. */
  lemma EntryCannotOverflow(s: State, t: Tid)
    requires Inv(s) && Enabled(s, Link(t))
    ensures |s.queue| < s.maxMsgs
  {
    assert Holds(s, t, s.pcs[t].node);
    OneLeftOut(s.queue, s.maxMsgs, s.pcs[t].node);
  }

  /** Distinct nodes that leave one out are fewer than all. */
  lemma OneLeftOut(ns: seq<Node>, max: nat, n: Node)
    requires Distinct(ns, max) && n !in ns && n < max
    ensures |ns| < max
  {
    DistinctSize(ns, max);
    RangeSize(max);
    assert n in Range(max) && n !in NodeSet(ns);
    SubsetSize(NodeSet(ns) + {n}, Range(max));
  }

  lemma {:induction false} SubsetSize(a: set<Node>, b: set<Node>)
    requires a <= b
    ensures |a| <= |b|
    decreases |a|
  {
    if a != {} {
      var x :| x in a;
      SubsetSize(a - {x}, b - {x});
    }
  }

  /** Nothing leaks: when no thread is between its critical sections, free and queued nodes
      add up to all nodes. */
  lemma NothingLeaks(s: State)
    requires Inv(s) && forall t :: t in s.pcs ==> !HasNode(s.pcs[t])
    ensures |s.free| + |s.queue| == s.maxMsgs
  {
    var all := s.free + s.queue;
    DistinctCat(s.free, s.queue, s.maxMsgs);
    DistinctSize(all, s.maxMsgs);
    RangeSize(s.maxMsgs);
    forall n | 0 <= n < s.maxMsgs ensures n in all {
      assert forall t :: !Holds(s, t, n);
    }
    assert NodeSet(all) == Range(s.maxMsgs);
  }

  /** A receiver sleeps although messages are queued only while another receiver, already
      resumed, is about to take one; likewise for senders and free nodes. */
  lemma NoSleeperForgotten(run: seq<State>, i: nat)
    requires Behaviour(run) && i < |run|
    ensures run[i].recvWait != [] && run[i].queue != [] ==> exists t :: t in run[i].pcs && run[i].pcs[t].RecvWoken?
    ensures run[i].sendWait != [] && run[i].free != [] ==> exists t :: t in run[i].pcs && run[i].pcs[t].SendWoken?
  {
    var s := run[i];
    AlwaysInv(run, i);
    if s.recvWait != [] && s.queue != [] {
      W.SleeperHasAgent(RecvSide(s));
      var t :| t in RecvSide(s).status && RecvSide(s).status[t].Woken?;
    }
    if s.sendWait != [] && s.free != [] {
      W.SleeperHasAgent(SendSide(s));
      var t :| t in SendSide(s).status && SendSide(s).status[t].Woken?;
    }
  }
}
