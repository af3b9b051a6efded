/** Threads blocking on a mailbox of rt-thread/src/ipc.c, under every interleaving.  The
    mailbox itself is the bounded sequence that module Mailbox proves its ring to be. */
module MailboxModel {
  import L = WaitList
  import W = WaitProtocol

  type Tid = W.Tid
  type Word = nat

  datatype Pc =
    | Idle
    | SendWait(value: Word, timeout: int)
    | SendWoken(value: Word, timeout: int)
    | RecvWait(timeout: int)
    | RecvWoken(timeout: int)

  datatype State = State(size: nat, contents: seq<Word>, recvWait: seq<Tid>, sendWait: seq<Tid>, pcs: map<Tid, Pc>)

  datatype Action =
    | Send(t: Tid, value: Word, timeout: int, k: nat)
    | ResumeSend(t: Tid, elapsed: nat, k: nat)
    | Urgent(value: Word)
    | Recv(t: Tid, timeout: int, k: nat)
    | ResumeRecv(t: Tid, elapsed: nat, k: nat)
    | Expire(t: Tid)
    | Reset

  ghost predicate Enabled(s: State, a: Action) {
    match a
    case Send(t, _, _, k) => t in s.pcs && s.pcs[t].Idle? && k <= |s.sendWait|
    case ResumeSend(t, _, k) => t in s.pcs && s.pcs[t].SendWoken? && k <= |s.sendWait|
    case Urgent(_) => true
    case Recv(t, _, k) => t in s.pcs && s.pcs[t].Idle? && k <= |s.recvWait|
    case ResumeRecv(t, _, k) => t in s.pcs && s.pcs[t].RecvWoken? && k <= |s.recvWait|
    case Expire(t) => t in s.pcs && (s.pcs[t].SendWait? || s.pcs[t].RecvWait?) && s.pcs[t].timeout > 0
    case Reset => true
  }

  function WakeReceiver(s: State): State {
    if s.recvWait == [] then s
    else
      var w := s.recvWait[0];
      s.(recvWait := s.recvWait[1..],
         pcs := s.pcs[w := if w in s.pcs && s.pcs[w].RecvWait? then RecvWoken(s.pcs[w].timeout) else Idle])
  }

  function WakeSender(s: State): State {
    if s.sendWait == [] then s
    else
      var w := s.sendWait[0];
      s.(sendWait := s.sendWait[1..],
         pcs := s.pcs[w := if w in s.pcs && s.pcs[w].SendWait? then SendWoken(s.pcs[w].value, s.pcs[w].timeout) else Idle])
  }

  function TrySend(s: State, t: Tid, value: Word, timeout: int, k: nat): State
    requires k <= |s.sendWait|
  {
    if |s.contents| < s.size then WakeReceiver(s.(contents := s.contents + [value], pcs := s.pcs[t := Idle]))
    else if timeout == 0 then s.(pcs := s.pcs[t := Idle])
    else s.(sendWait := L.Insert(s.sendWait, k, t), pcs := s.pcs[t := SendWait(value, timeout)])
  }

  function TryRecv(s: State, t: Tid, timeout: int, k: nat): State
    requires k <= |s.recvWait|
  {
    if s.contents != [] then WakeSender(s.(contents := s.contents[1..], pcs := s.pcs[t := Idle]))
    else if timeout == 0 then s.(pcs := s.pcs[t := Idle])
    else s.(recvWait := L.Insert(s.recvWait, k, t), pcs := s.pcs[t := RecvWait(timeout)])
  }

  function DoExpire(s: State, t: Tid): State {
    s.(recvWait := L.Without(s.recvWait, t), sendWait := L.Without(s.sendWait, t), pcs := s.pcs[t := Idle])
  }

  function DoReset(s: State): State {
    s.(contents := [], recvWait := [], sendWait := [],
       pcs := map t | t in s.pcs :: if t in s.recvWait || t in s.sendWait then Idle else s.pcs[t])
  }

  function Next(s: State, a: Action): State
    requires Enabled(s, a)
  {
    match a
    case Send(t, value, timeout, k) => TrySend(s, t, value, timeout, k)
    case ResumeSend(t, elapsed, k) => TrySend(s, t, s.pcs[t].value, W.Remaining(s.pcs[t].timeout, elapsed), k)
    case Urgent(value) => if |s.contents| < s.size then WakeReceiver(s.(contents := [value] + s.contents)) else s
    case Recv(t, timeout, k) => TryRecv(s, t, timeout, k)
    case ResumeRecv(t, elapsed, k) => TryRecv(s, t, W.Remaining(s.pcs[t].timeout, elapsed), k)
    case Expire(t) => DoExpire(s, t)
    case Reset => DoReset(s)
  }

  function RStatus(pc: Pc): W.Status {
    match pc
    case RecvWait(timeout) => W.Waiting(timeout)
    case RecvWoken(timeout) => W.Woken(timeout)
    case _ => W.Running
  }

  function SStatus(pc: Pc): W.Status {
    match pc
    case SendWait(_, timeout) => W.Waiting(timeout)
    case SendWoken(_, timeout) => W.Woken(timeout)
    case _ => W.Running
  }

  /** Receivers wait for mails, senders for empty places. */
  function RecvSide(s: State): W.Side {
    W.Side(|s.contents|, s.recvWait, map t | t in s.pcs :: RStatus(s.pcs[t]))
  }

  function SendSide(s: State): W.Side {
    W.Side(if |s.contents| <= s.size then s.size - |s.contents| else 0, s.sendWait, map t | t in s.pcs :: SStatus(s.pcs[t]))
  }

  ghost predicate Inv(s: State) {
    |s.contents| <= s.size && W.Inv(RecvSide(s)) && W.Inv(SendSide(s))
  }

  // ------------------------------------------- each step as the waiters see it

  lemma RecvStatusChange(s: State, r: State, t: Tid, pc: Pc)
    requires t in s.pcs && r.pcs == s.pcs[t := pc]
    ensures RecvSide(r).status == RecvSide(s).status[t := RStatus(pc)]
  {
  }

  lemma SendStatusChange(s: State, r: State, t: Tid, pc: Pc)
    requires t in s.pcs && r.pcs == s.pcs[t := pc]
    ensures SendSide(r).status == SendSide(s).status[t := SStatus(pc)]
  {
  }

  lemma PcChange(s: State, r: State, t: Tid, pc: Pc)
    requires t in s.pcs && r.pcs == s.pcs[t := pc]
    ensures RecvSide(r).status == RecvSide(s).status[t := RStatus(pc)]
    ensures SendSide(r).status == SendSide(s).status[t := SStatus(pc)]
    ensures RStatus(pc) == RStatus(s.pcs[t]) ==> RecvSide(r).status == RecvSide(s).status
    ensures SStatus(pc) == SStatus(s.pcs[t]) ==> SendSide(r).status == SendSide(s).status
  {
    RecvStatusChange(s, r, t, pc);
    SendStatusChange(s, r, t, pc);
    assert RecvSide(s).status[t] == RStatus(s.pcs[t]) && SendSide(s).status[t] == SStatus(s.pcs[t]);
  }

  lemma WakeReceiverSides(s: State)
    requires W.Consistent(RecvSide(s))
    ensures RecvSide(WakeReceiver(s)) == W.Next(RecvSide(s), W.Produce).(avail := |s.contents|)
    ensures SendSide(WakeReceiver(s)) == SendSide(s)
  {
    if s.recvWait != [] {
      var w, r := s.recvWait[0], WakeReceiver(s);
      assert w in RecvSide(s).status && RecvSide(s).status[w].Waiting?;
      PcChange(s, r, w, r.pcs[w]);
    }
  }

  lemma WakeSenderSides(s: State)
    requires W.Consistent(SendSide(s))
    ensures SendSide(WakeSender(s)) == W.Next(SendSide(s), W.Produce).(avail := SendSide(s).avail)
    ensures RecvSide(WakeSender(s)) == RecvSide(s)
  {
    if s.sendWait != [] {
      var w, r := s.sendWait[0], WakeSender(s);
      assert w in SendSide(s).status && SendSide(s).status[w].Waiting?;
      PcChange(s, r, w, r.pcs[w]);
    }
  }

  lemma TrySendSides(s: State, t: Tid, value: Word, timeout: int, k: nat)
    requires |s.contents| <= s.size && W.Consistent(RecvSide(s)) && W.Consistent(SendSide(s))
    requires t in s.pcs && (s.pcs[t].Idle? || s.pcs[t].SendWoken?) && k <= |s.sendWait|
    ensures var r := TrySend(s, t, value, timeout, k);
      && SendSide(r) == W.Check(SendSide(s), t, timeout, k)
      && W.Moves(RecvSide(s), if |s.contents| < s.size then W.Does(W.Produce) else W.Nothing, RecvSide(r))
  {
    if |s.contents| < s.size {
      var m := s.(contents := s.contents + [value], pcs := s.pcs[t := Idle]);
      PcChange(s, m, t, Idle);
      assert RecvSide(m) == RecvSide(s).(avail := |s.contents| + 1);
      WakeReceiverSides(m);
    } else {
      PcChange(s, TrySend(s, t, value, timeout, k), t, TrySend(s, t, value, timeout, k).pcs[t]);
    }
  }

  lemma TryRecvSides(s: State, t: Tid, timeout: int, k: nat)
    requires |s.contents| <= s.size && W.Consistent(RecvSide(s)) && W.Consistent(SendSide(s))
    requires t in s.pcs && (s.pcs[t].Idle? || s.pcs[t].RecvWoken?) && k <= |s.recvWait|
    ensures var r := TryRecv(s, t, timeout, k);
      && RecvSide(r) == W.Check(RecvSide(s), t, timeout, k)
      && W.Moves(SendSide(s), if s.contents != [] then W.Does(W.Produce) else W.Nothing, SendSide(r))
  {
    if s.contents != [] {
      var m := s.(contents := s.contents[1..], pcs := s.pcs[t := Idle]);
      PcChange(s, m, t, Idle);
      assert SendSide(m) == SendSide(s).(avail := SendSide(s).avail + 1);
      WakeSenderSides(m);
    } else {
      PcChange(s, TryRecv(s, t, timeout, k), t, TryRecv(s, t, timeout, k).pcs[t]);
    }
  }

  lemma UrgentSides(s: State, value: Word)
    requires |s.contents| < s.size && W.Consistent(RecvSide(s))
    ensures var r := Next(s, Urgent(value));
      RecvSide(r) == W.Next(RecvSide(s), W.Produce) && SendSide(r) == SendSide(s).(avail := SendSide(s).avail - 1)
  {
    var m := s.(contents := [value] + s.contents);
    assert RecvSide(m) == RecvSide(s).(avail := |s.contents| + 1);
    WakeReceiverSides(m);
  }

  lemma OnList(s: State, t: Tid)
    requires W.Consistent(RecvSide(s)) && W.Consistent(SendSide(s)) && t in s.pcs
    ensures t in s.recvWait <==> s.pcs[t].RecvWait?
    ensures t in s.sendWait <==> s.pcs[t].SendWait?
  {
    assert RecvSide(s).status[t] == RStatus(s.pcs[t]);
    assert SendSide(s).status[t] == SStatus(s.pcs[t]);
  }

  lemma ExpireSides(s: State, t: Tid)
    requires W.Consistent(RecvSide(s)) && W.Consistent(SendSide(s)) && Enabled(s, Expire(t))
    ensures var r := DoExpire(s, t);
      if s.pcs[t].RecvWait? then RecvSide(r) == W.Next(RecvSide(s), W.Expire(t)) && SendSide(r) == SendSide(s)
      else SendSide(r) == W.Next(SendSide(s), W.Expire(t)) && RecvSide(r) == RecvSide(s)
  {
    OnList(s, t);
    if s.pcs[t].RecvWait? { L.WithoutAbsent(s.sendWait, t); } else { L.WithoutAbsent(s.recvWait, t); }
    PcChange(s, DoExpire(s, t), t, Idle);
  }

  lemma ResetSides(s: State)
    requires W.Consistent(RecvSide(s)) && W.Consistent(SendSide(s))
    ensures RecvSide(DoReset(s)) == W.Next(RecvSide(s), W.Reset(0))
    ensures SendSide(DoReset(s)) == W.Next(SendSide(s), W.Reset(s.size))
  {
    var r := DoReset(s);
    forall t | t in s.pcs
      ensures RStatus(r.pcs[t]) == if t in s.recvWait then W.Running else RStatus(s.pcs[t])
      ensures SStatus(r.pcs[t]) == if t in s.sendWait then W.Running else SStatus(s.pcs[t])
    {
      OnList(s, t);
    }
    assert RecvSide(r).status == W.Release(RecvSide(s).status, s.recvWait);
    assert SendSide(r).status == W.Release(SendSide(s).status, s.sendWait);
  }

  lemma AfterWait(side: W.Side, a: W.Action, side': W.Side)
    requires W.Inv(side) && W.Enabled(side, a) && side' == W.Next(side, a)
    ensures W.Inv(side')
  {
    W.NextInv(side, a);
  }

  lemma FewerUnits(side: W.Side, n: nat)
    requires W.Inv(side) && n <= side.avail
    ensures W.Inv(side.(avail := n))
  {
    assert W.WokenSet(side.(avail := n)) == W.WokenSet(side);
  }

  lemma SendStep(s: State, t: Tid, value: Word, timeout: int, k: nat, a: W.Action)
    requires Inv(s) && t in s.pcs && (s.pcs[t].Idle? || s.pcs[t].SendWoken?) && k <= |s.sendWait|
    requires W.Enabled(SendSide(s), a) && W.Next(SendSide(s), a) == W.Check(SendSide(s), t, timeout, k)
    ensures Inv(TrySend(s, t, value, timeout, k))
  {
    var r := TrySend(s, t, value, timeout, k);
    TrySendSides(s, t, value, timeout, k);
    AfterWait(SendSide(s), a, SendSide(r));
    if |s.contents| < s.size { AfterWait(RecvSide(s), W.Produce, RecvSide(r)); }
  }

  lemma RecvStep(s: State, t: Tid, timeout: int, k: nat, a: W.Action)
    requires Inv(s) && t in s.pcs && (s.pcs[t].Idle? || s.pcs[t].RecvWoken?) && k <= |s.recvWait|
    requires W.Enabled(RecvSide(s), a) && W.Next(RecvSide(s), a) == W.Check(RecvSide(s), t, timeout, k)
    ensures Inv(TryRecv(s, t, timeout, k))
  {
    var r := TryRecv(s, t, timeout, k);
    TryRecvSides(s, t, timeout, k);
    AfterWait(RecvSide(s), a, RecvSide(r));
    if s.contents != [] { AfterWait(SendSide(s), W.Produce, SendSide(r)); }
  }

  /** Every step of a mailbox keeps its bound and loses no wake-up on either side. */
  lemma InvStep(s: State, a: Action)
    requires Inv(s) && Enabled(s, a)
    ensures Inv(Next(s, a))
  {
    var r := Next(s, a);
    match a {
      case Send(t, value, timeout, k) => SendStep(s, t, value, timeout, k, W.Enter(t, timeout, k));
      case ResumeSend(t, elapsed, k) =>
        SendStep(s, t, s.pcs[t].value, W.Remaining(s.pcs[t].timeout, elapsed), k, W.Recheck(t, elapsed, k));
      case Urgent(value) =>
        if |s.contents| < s.size {
          UrgentSides(s, value);
          AfterWait(RecvSide(s), W.Produce, RecvSide(r));
          FewerUnits(SendSide(s), SendSide(s).avail - 1);
        }
      case Recv(t, timeout, k) => RecvStep(s, t, timeout, k, W.Enter(t, timeout, k));
      case ResumeRecv(t, elapsed, k) =>
        RecvStep(s, t, W.Remaining(s.pcs[t].timeout, elapsed), k, W.Recheck(t, elapsed, k));
      case Expire(t) =>
        ExpireSides(s, t);
        if s.pcs[t].RecvWait? { AfterWait(RecvSide(s), W.Expire(t), RecvSide(r)); }
        else { AfterWait(SendSide(s), W.Expire(t), SendSide(r)); }
      case Reset =>
        ResetSides(s);
        AfterWait(RecvSide(s), W.Reset(0), RecvSide(r));
        AfterWait(SendSide(s), W.Reset(s.size), SendSide(r));
    }
  }

  ghost predicate Initial(s: State) {
    s.contents == [] && s.recvWait == [] && s.sendWait == [] && forall t :: t in s.pcs ==> s.pcs[t].Idle?
  }

  ghost predicate Step(s: State, r: State) { exists a :: Enabled(s, a) && r == Next(s, a) }

  ghost predicate Behaviour(run: seq<State>) {
    && |run| > 0 && Initial(run[0])
    && forall i, j {:trigger Step(run[i], run[j])} :: 0 <= i && j == i + 1 && j < |run| ==> Step(run[i], run[j])
  }

  lemma {:induction false} AlwaysInv(run: seq<State>, i: nat)
    requires Behaviour(run) && i < |run|
    ensures Inv(run[i])
  {
    if i > 0 {
      AlwaysInv(run, i - 1);
      assert Step(run[i - 1], run[i]);
      var a :| Enabled(run[i - 1], a) && run[i] == Next(run[i - 1], a);
      InvStep(run[i - 1], a);
    }
  }

  /** In every run: nobody sleeps on a mailbox holding mail, or on one with room, unless a
      thread already resumed for it is about to look. */
  lemma NoSleeperForgotten(run: seq<State>, i: nat)
    requires Behaviour(run) && i < |run|
    ensures run[i].recvWait != [] && run[i].contents != [] ==> exists t :: t in run[i].pcs && run[i].pcs[t].RecvWoken?
    ensures run[i].sendWait != [] && |run[i].contents| < run[i].size ==> exists t :: t in run[i].pcs && run[i].pcs[t].SendWoken?
  {
    var s := run[i];
    AlwaysInv(run, i);
    if s.recvWait != [] && s.contents != [] {
      W.SleeperHasAgent(RecvSide(s));
      var t :| t in RecvSide(s).status && RecvSide(s).status[t].Woken?;
    }
    if s.sendWait != [] && |s.contents| < s.size {
      W.SleeperHasAgent(SendSide(s));
      var t :| t in SendSide(s).status && SendSide(s).status[t].Woken?;
    }
  }

  // ---------------------------------------------------------------- timeouts

  /** On an empty box a receive gives up exactly with timeout 0; otherwise the thread sleeps. */
  lemma RecvAnswers(s: State, t: Tid, timeout: int, k: nat)
    requires Enabled(s, Recv(t, timeout, k)) && s.contents == []
    ensures var r := Next(s, Recv(t, timeout, k));
      if timeout == 0 then r == s else t in r.recvWait && r.pcs == s.pcs[t := RecvWait(timeout)]
  {
    L.InsertIs(s.recvWait, k, t);
    assert s.pcs[t := Idle] == s.pcs;
  }

  lemma SendAnswers(s: State, t: Tid, value: Word, timeout: int, k: nat)
    requires Enabled(s, Send(t, value, timeout, k)) && |s.contents| >= s.size
    ensures var r := Next(s, Send(t, value, timeout, k));
      if timeout == 0 then r == s else t in r.sendWait && r.pcs == s.pcs[t := SendWait(value, timeout)]
  {
    L.InsertIs(s.sendWait, k, t);
    assert s.pcs[t := Idle] == s.pcs;
  }

  /** A resumed receiver that finds nothing: one that waits for ever sleeps as before; another
      gives up exactly when the ticks it slept reach its timeout, and otherwise sleeps for the
      difference. */
  lemma ResumedRecvAnswers(s: State, t: Tid, elapsed: nat, k: nat)
    requires Enabled(s, ResumeRecv(t, elapsed, k)) && s.contents == []
    ensures var r, timeout := Next(s, ResumeRecv(t, elapsed, k)), s.pcs[t].timeout;
      && (timeout < 0 ==> t in r.recvWait && r.pcs[t] == RecvWait(timeout))
      && (r.pcs[t].Idle? <==> 0 <= timeout <= elapsed)
      && (timeout > elapsed ==> t in r.recvWait && r.pcs[t] == RecvWait(timeout - elapsed))
  {
    L.InsertIs(s.recvWait, k, t);
  }

  lemma ResumedSendAnswers(s: State, t: Tid, elapsed: nat, k: nat)
    requires Enabled(s, ResumeSend(t, elapsed, k)) && |s.contents| >= s.size
    ensures var r, timeout, value := Next(s, ResumeSend(t, elapsed, k)), s.pcs[t].timeout, s.pcs[t].value;
      && (timeout < 0 ==> t in r.sendWait && r.pcs[t] == SendWait(value, timeout))
      && (r.pcs[t].Idle? <==> 0 <= timeout <= elapsed)
      && (timeout > elapsed ==> t in r.sendWait && r.pcs[t] == SendWait(value, timeout - elapsed))
  {
    L.InsertIs(s.sendWait, k, t);
  }

  /** Inside a call that waits for ever. */
  predicate ForEver(pc: Pc) { !pc.Idle? && pc.timeout < 0 }

  /** The same call, suspended or resumed. */
  predicate SameCall(p: Pc, q: Pc) {
    match p
    case Idle => false
    case SendWait(value, timeout) => q == SendWait(value, timeout) || q == SendWoken(value, timeout)
    case SendWoken(value, timeout) => q == SendWait(value, timeout) || q == SendWoken(value, timeout)
    case RecvWait(timeout) => q == RecvWait(timeout) || q == RecvWoken(timeout)
    case RecvWoken(timeout) => q == RecvWait(timeout) || q == RecvWoken(timeout)
  }

  /** How a thread that waits for ever may leave: with the front mail, with its own mail in the
      box, or by a reset. */
  ghost predicate Leaves(s: State, r: State, t: Tid, pc: Pc) {
    || (pc.RecvWoken? && s.contents != [] && r.contents == s.contents[1..])
    || (pc.SendWoken? && |s.contents| < s.size && r.contents == s.contents + [pc.value])
    || (t in s.recvWait + s.sendWait && r.contents == [] && r.recvWait == [] && r.sendWait == [])
  }

  ghost predicate Goes(s: State, r: State, t: Tid)
    requires t in s.pcs
  {
    t in r.pcs && (SameCall(s.pcs[t], r.pcs[t]) || Leaves(s, r, t, s.pcs[t]))
  }

  lemma SendGoes(s: State, u: Tid, value: Word, timeout: int, k: nat, t: Tid)
    requires Inv(s) && u in s.pcs && k <= |s.sendWait| && t in s.pcs && ForEver(s.pcs[t])
    requires u == t ==> s.pcs[t] == SendWoken(value, timeout)
    ensures Goes(s, TrySend(s, u, value, timeout, k), t)
  {
    if s.recvWait != [] { HeadWaits(s, s.recvWait[0]); }
  }

  lemma RecvGoes(s: State, u: Tid, timeout: int, k: nat, t: Tid)
    requires Inv(s) && u in s.pcs && k <= |s.recvWait| && t in s.pcs && ForEver(s.pcs[t])
    requires u == t ==> s.pcs[t] == RecvWoken(timeout)
    ensures Goes(s, TryRecv(s, u, timeout, k), t)
  {
    if s.sendWait != [] { HeadWaits(s, s.sendWait[0]); }
  }

  lemma UrgentGoes(s: State, value: Word, t: Tid)
    requires Inv(s) && t in s.pcs && ForEver(s.pcs[t])
    ensures Goes(s, Next(s, Urgent(value)), t)
  {
    if s.recvWait != [] { HeadWaits(s, s.recvWait[0]); }
  }

  lemma ForEverStep(s: State, r: State, t: Tid)
    requires Inv(s) && Step(s, r) && t in s.pcs && ForEver(s.pcs[t])
    ensures Goes(s, r, t)
  {
    var a :| Enabled(s, a) && r == Next(s, a);
    match a {
      case Send(u, value, timeout, k) => SendGoes(s, u, value, timeout, k, t);
      case ResumeSend(u, elapsed, k) =>
        SendGoes(s, u, s.pcs[u].value, W.Remaining(s.pcs[u].timeout, elapsed), k, t);
      case Urgent(value) => UrgentGoes(s, value, t);
      case Recv(u, timeout, k) => RecvGoes(s, u, timeout, k, t);
      case ResumeRecv(u, elapsed, k) => RecvGoes(s, u, W.Remaining(s.pcs[u].timeout, elapsed), k, t);
      case Expire(u) =>
      case Reset =>
    }
  }

  lemma HeadWaits(s: State, w: Tid)
    requires Inv(s) && w in s.recvWait + s.sendWait
    ensures w in s.pcs && (w in s.recvWait <==> s.pcs[w].RecvWait?) && (w in s.sendWait <==> s.pcs[w].SendWait?)
  {
    assert w in s.recvWait ==> w in RecvSide(s).status;
    assert w in s.sendWait ==> w in SendSide(s).status;
    OnList(s, w);
  }

  lemma SameCallTrans(p: Pc, q: Pc, r: Pc)
    requires SameCall(p, q) && SameCall(q, r)
    ensures SameCall(p, r)
  {
  }

  /** In every run: a call that waits for ever goes on, with the mail it was made with, until it
      gets its mail across or the box is reset. */
  lemma {:induction false} WaitsOn(run: seq<State>, i: nat, j: nat, t: Tid)
    requires Behaviour(run) && i <= j < |run| && t in run[i].pcs && ForEver(run[i].pcs[t])
    ensures (t in run[j].pcs && SameCall(run[i].pcs[t], run[j].pcs[t])) ||
            exists k, l :: i <= k && l == k + 1 && l <= j && t in run[k].pcs && Leaves(run[k], run[l], t, run[k].pcs[t])
  {
    if i < j {
      WaitsOn(run, i, j - 1, t);
      if t in run[j - 1].pcs && SameCall(run[i].pcs[t], run[j - 1].pcs[t]) {
        AlwaysInv(run, j - 1);
        assert Step(run[j - 1], run[j]);
        ForEverStep(run[j - 1], run[j], t);
        if !Leaves(run[j - 1], run[j], t, run[j - 1].pcs[t]) { SameCallTrans(run[i].pcs[t], run[j - 1].pcs[t], run[j].pcs[t]); }
      }
    }
  }
}
