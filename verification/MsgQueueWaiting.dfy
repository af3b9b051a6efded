/** Timeouts of rt_mq_send_wait and rt_mq_recv: when a call gives up, what a resumed thread goes
    back to sleep with, and how a call that waits for ever ends; and what one complete send and
    one complete receive do. */
module MsgQueueWaiting {
  import opened MsgQueueModel
  import opened MsgQueueLaws
  import L = WaitList
  import W = WaitProtocol

  // ------------------------------------------------------------- the first pass

  /** On an empty queue a receive gives up exactly with timeout 0; otherwise the thread sleeps. */
  lemma RecvAnswers(s: State, t: Tid, size: nat, timeout: int, k: nat)
    requires Enabled(s, Recv(t, size, timeout, k)) && s.queue == []
    ensures var r := Next(s, Recv(t, size, timeout, k));
      if timeout == 0 then r == s else t in r.recvWait && r.pcs == s.pcs[t := RecvWait(size, timeout)]
  {
    L.InsertIs(s.recvWait, k, t);
    assert s.pcs[t := Idle] == s.pcs;
  }

  /** A send is refused exactly when its message is larger than a slot.  Otherwise it takes a free
      node; when there is none it gives up exactly with timeout 0 and sleeps with any other. */
  lemma SendAnswers(s: State, t: Tid, buf: Msg, timeout: int, k: nat)
    requires Enabled(s, Send(t, buf, timeout, k))
    ensures var r := Next(s, Send(t, buf, timeout, k));
      if |buf| > s.msgSize || (s.free == [] && timeout == 0) then r == s
      else if s.free == [] then t in r.sendWait && r.pcs == s.pcs[t := SendWait(buf, timeout)]
      else r.free == s.free[1..] && r.pcs == s.pcs[t := Holding(s.free[0], buf, false)]
  {
    L.InsertIs(s.sendWait, k, t);
    assert s.pcs[t := Idle] == s.pcs;
  }

  /** An urgent send never sleeps: it takes a free node, or is refused when its message is larger
      than a slot or no node is free. */
  lemma UrgentAnswers(s: State, t: Tid, buf: Msg)
    requires Enabled(s, Urgent(t, buf))
    ensures var r := Next(s, Urgent(t, buf));
      if |buf| > s.msgSize || s.free == [] then r == s
      else r.free == s.free[1..] && r.pcs == s.pcs[t := Holding(s.free[0], buf, true)]
  {
  }

  // -------------------------------------------------------- after being resumed

  /** A resumed receiver that finds nothing: one that waits for ever sleeps as before; another
      gives up exactly when the ticks it slept reach its timeout, and otherwise sleeps for the
      difference. */
  lemma ResumedRecvAnswers(s: State, t: Tid, elapsed: nat, k: nat)
    requires Enabled(s, ResumeRecv(t, elapsed, k)) && s.queue == []
    ensures var r, timeout, size := Next(s, ResumeRecv(t, elapsed, k)), s.pcs[t].timeout, s.pcs[t].size;
      && (timeout < 0 ==> t in r.recvWait && r.pcs[t] == RecvWait(size, timeout))
      && (r.pcs[t].Idle? <==> 0 <= timeout <= elapsed)
      && (timeout > elapsed ==> t in r.recvWait && r.pcs[t] == RecvWait(size, timeout - elapsed))
  {
    L.InsertIs(s.recvWait, k, t);
  }

  lemma ResumedSendAnswers(s: State, t: Tid, elapsed: nat, k: nat)
    requires Enabled(s, ResumeSend(t, elapsed, k)) && s.free == []
    ensures var r, timeout, buf := Next(s, ResumeSend(t, elapsed, k)), s.pcs[t].timeout, s.pcs[t].buf;
      && (timeout < 0 ==> t in r.sendWait && r.pcs[t] == SendWait(buf, timeout))
      && (r.pcs[t].Idle? <==> 0 <= timeout <= elapsed)
      && (timeout > elapsed ==> t in r.sendWait && r.pcs[t] == SendWait(buf, timeout - elapsed))
  {
    L.InsertIs(s.sendWait, k, t);
  }

  // ------------------------------------------------------------ waiting for ever

  predicate Waits(pc: Pc) { pc.SendWait? || pc.SendWoken? || pc.RecvWait? || pc.RecvWoken? }

  /** Inside a call that waits for ever. */
  predicate ForEver(pc: Pc) { Waits(pc) && pc.timeout < 0 }

  /** The same call, suspended or resumed. */
  predicate SameCall(p: Pc, q: Pc) {
    match p
    case SendWait(buf, timeout) => q == SendWait(buf, timeout) || q == SendWoken(buf, timeout)
    case SendWoken(buf, timeout) => q == SendWait(buf, timeout) || q == SendWoken(buf, timeout)
    case RecvWait(size, timeout) => q == RecvWait(size, timeout) || q == RecvWoken(size, timeout)
    case RecvWoken(size, timeout) => q == RecvWait(size, timeout) || q == RecvWoken(size, timeout)
    case _ => false
  }

  lemma SameCallTrans(p: Pc, q: Pc, r: Pc)
    requires SameCall(p, q) && SameCall(q, r)
    ensures SameCall(p, r)
  {
  }

  /** How a thread that waits for ever may leave: with the head node, with a free node for its
      message, or by a reset. */
  ghost predicate Leaves(s: State, r: State, t: Tid)
    requires t in s.pcs && t in r.pcs
  {
    var p, q := s.pcs[t], r.pcs[t];
    || (p.RecvWoken? && s.queue != [] && q.Popped? && q.node == s.queue[0] && q.size == p.size)
    || (p.SendWoken? && s.free != [] && q == Holding(s.free[0], p.buf, false))
    || (t in s.recvWait + s.sendWait && q.Idle? && r.log == s.log + [Flushed])
  }

  ghost predicate Goes(s: State, r: State, t: Tid)
    requires t in s.pcs
  {
    t in r.pcs && (SameCall(s.pcs[t], r.pcs[t]) || Leaves(s, r, t))
  }

  lemma HeadWaits(s: State, w: Tid)
    requires W.Consistent(RecvSide(s)) && W.Consistent(SendSide(s)) && w in s.recvWait + s.sendWait
    ensures w in s.pcs && (w in s.recvWait <==> s.pcs[w].RecvWait?) && (w in s.sendWait <==> s.pcs[w].SendWait?)
  {
    assert w in s.recvWait ==> w in RecvSide(s).status;
    assert w in s.sendWait ==> w in SendSide(s).status;
    OnList(s, w);
  }

  lemma LinkGoes(s: State, u: Tid, t: Tid)
    requires Inv(s) && Enabled(s, Link(u)) && t in s.pcs && ForEver(s.pcs[t])
    ensures Goes(s, Next(s, Link(u)), t)
  {
    if s.recvWait != [] { HeadWaits(s, s.recvWait[0]); }
  }

  lemma ReleaseGoes(s: State, u: Tid, t: Tid)
    requires Inv(s) && Enabled(s, Action.Release(u)) && t in s.pcs && ForEver(s.pcs[t])
    ensures Goes(s, Next(s, Action.Release(u)), t)
  {
    if s.sendWait != [] { HeadWaits(s, s.sendWait[0]); }
  }

  lemma ResetGoes(s: State, t: Tid)
    requires Inv(s) && t in s.pcs && ForEver(s.pcs[t])
    ensures Goes(s, Next(s, Reset), t)
  {
    OnList(s, t);
  }

  lemma TryGoes(s: State, a: Action, t: Tid)
    requires Enabled(s, a) && (a.Send? || a.ResumeSend? || a.Recv? || a.ResumeRecv?) && t in s.pcs && ForEver(s.pcs[t])
    ensures Goes(s, Next(s, a), t)
  {
  }

  lemma ForEverStep(s: State, r: State, t: Tid)
    requires Inv(s) && Step(s, r) && t in s.pcs && ForEver(s.pcs[t])
    ensures Goes(s, r, t)
  {
    var a :| Enabled(s, a) && r == Next(s, a);
    match a {
      case Urgent(u, buf) =>
      case Fill(u) =>
      case Link(u) => LinkGoes(s, u, t);
      case CopyOut(u) =>
      case Release(u) => ReleaseGoes(s, u, t);
      case Expire(u) =>
      case Reset => ResetGoes(s, t);
      case _ => TryGoes(s, a, t);
    }
  }

  ghost predicate LeavesBetween(s: State, r: State, t: Tid) { t in s.pcs && t in r.pcs && Leaves(s, r, t) }

  lemma GoesNext(run: seq<State>, j: nat, t: Tid)
    requires Behaviour(run) && 0 < j < |run| && t in run[j - 1].pcs && ForEver(run[j - 1].pcs[t])
    ensures t in run[j].pcs && (SameCall(run[j - 1].pcs[t], run[j].pcs[t]) || LeavesBetween(run[j - 1], run[j], t))
  {
    AlwaysInv(run, j - 1);
    assert Step(run[j - 1], run[j]);
    ForEverStep(run[j - 1], run[j], t);
  }

  /** In every run: a call that waits for ever goes on, with the message or the size it was made
      with, until the thread gets a message or a node, or the queue is reset. */
  lemma {:induction false} WaitsOn(run: seq<State>, i: nat, j: nat, t: Tid)
    requires Behaviour(run) && i <= j < |run| && t in run[i].pcs && ForEver(run[i].pcs[t])
    ensures (t in run[j].pcs && SameCall(run[i].pcs[t], run[j].pcs[t])) ||
            exists k, l :: i <= k && l == k + 1 && l <= j && LeavesBetween(run[k], run[l], t)
  {
    if i < j {
      WaitsOn(run, i, j - 1, t);
      if t in run[j - 1].pcs && SameCall(run[i].pcs[t], run[j - 1].pcs[t]) {
        GoesNext(run, j, t);
        if !LeavesBetween(run[j - 1], run[j], t) {
          SameCallTrans(run[i].pcs[t], run[j - 1].pcs[t], run[j].pcs[t]);
        }
      }
    }
  }

  // ---------------------------------------------------------- one whole message

  /** The three steps of a send by `t` that finds a free node, nobody in between. */
  function WholeSend(s: State, t: Tid, buf: Msg, timeout: int): State
    requires Enabled(s, Send(t, buf, timeout, 0)) && Inv(s) && s.free != [] && |buf| <= s.msgSize
  {
    var h := Next(s, Send(t, buf, timeout, 0));
    SendPath(s, t, buf, timeout);
    Next(Next(h, Fill(t)), Link(t))
  }

  lemma SendPath(s: State, t: Tid, buf: Msg, timeout: int)
    requires Enabled(s, Send(t, buf, timeout, 0)) && Inv(s) && s.free != [] && |buf| <= s.msgSize
    ensures var h := Next(s, Send(t, buf, timeout, 0)); Enabled(h, Fill(t)) && Enabled(Next(h, Fill(t)), Link(t))
  {
    InvStep(s, Send(t, buf, timeout, 0));
    var h := Next(s, Send(t, buf, timeout, 0));
    assert s.free[0] in s.free;
  }

  /** A whole send puts its message behind all others and resumes the first receiver that
      waits for one. */
  lemma SendAppends(s: State, t: Tid, buf: Msg, timeout: int)
    requires Enabled(s, Send(t, buf, timeout, 0)) && Inv(s) && s.free != [] && |buf| <= s.msgSize
    ensures var r := WholeSend(s, t, buf, timeout);
      && Inv(r) && r.contents == s.contents + [buf] && |r.queue| == |s.queue| + 1 && |r.free| == |s.free| - 1
      && r.recvWait == if s.recvWait == [] then [] else s.recvWait[1..]
  {
    SendPath(s, t, buf, timeout);
    var h := Next(s, Send(t, buf, timeout, 0));
    InvStep(s, Send(t, buf, timeout, 0));
    InvStep(h, Fill(t));
    InvStep(Next(h, Fill(t)), Link(t));
  }

  /** The three steps of a receive by `t` that finds a message, nobody in between. */
  function WholeRecv(s: State, t: Tid, size: nat, timeout: int): State
    requires Enabled(s, Recv(t, size, timeout, 0)) && Inv(s) && s.queue != []
  {
    var h := Next(s, Recv(t, size, timeout, 0));
    RecvPath(s, t, size, timeout);
    Next(Next(h, CopyOut(t)), Action.Release(t))
  }

  lemma RecvPath(s: State, t: Tid, size: nat, timeout: int)
    requires Enabled(s, Recv(t, size, timeout, 0)) && Inv(s) && s.queue != []
    ensures var h := Next(s, Recv(t, size, timeout, 0));
      Enabled(h, CopyOut(t)) && Enabled(Next(h, CopyOut(t)), Action.Release(t))
  {
    assert s.queue[0] in s.queue;
  }

  /** A whole receive takes the front message off the queue and gives its node back. */
  lemma RecvTakesFront(s: State, t: Tid, size: nat, timeout: int)
    requires Enabled(s, Recv(t, size, timeout, 0)) && Inv(s) && s.queue != []
    ensures var r := WholeRecv(s, t, size, timeout);
      Inv(r) && r.contents == s.contents[1..] && |r.queue| == |s.queue| - 1 && |r.free| == |s.free| + 1
  {
    RecvPath(s, t, size, timeout);
    var h := Next(s, Recv(t, size, timeout, 0));
    InvStep(s, Recv(t, size, timeout, 0));
    InvStep(h, CopyOut(t));
    InvStep(Next(h, CopyOut(t)), Action.Release(t));
  }

  /** What it copies out before is that message, as far as the buffer goes. */
  lemma RecvCopiesFront(s: State, t: Tid, size: nat, timeout: int)
    requires Enabled(s, Recv(t, size, timeout, 0)) && Inv(s) && s.queue != []
    ensures var h := Next(s, Recv(t, size, timeout, 0));
      Enabled(h, CopyOut(t)) && Received(Next(h, CopyOut(t)), t, s.contents[0], size, s.msgSize)
  {
    RecvPath(s, t, size, timeout);
    InvStep(s, Recv(t, size, timeout, 0));
    CopyDelivers(Next(s, Recv(t, size, timeout, 0)), t);
  }

  ghost predicate Received(s: State, t: Tid, msg: Msg, size: nat, msgSize: nat) {
    && t in s.pcs && s.pcs[t].CopiedOut?
    && Delivered(s.pcs[t].out, msg, size) && |s.pcs[t].out| == Min(size, msgSize)
  }

  lemma CopyDelivers(h: State, t: Tid)
    requires Inv(h) && Enabled(h, CopyOut(t))
    ensures Received(Next(h, CopyOut(t)), t, h.pcs[t].msg, h.pcs[t].size, h.msgSize)
  {
    assert PcData(h, h.pcs[t]);
  }
}
