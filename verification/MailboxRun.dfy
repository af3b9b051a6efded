/** The state machine of MailboxModel runs on the ring of Mailbox: every action is one of the
    class's critical sections, whatever the interleaving. */
module MailboxRun {
  import opened Mailbox
  import opened MailboxModel
  import L = WaitList
  import W = WaitProtocol

  /** The ring holds the state's mails, oldest first, and has its wait lists. */
  ghost predicate Represents(r: Ring, s: State)
    reads r, r.pool
  {
    && r.Valid() && r.size == s.size && r.contents == s.contents
    && r.recvWait == s.recvWait && r.sendWait == s.sendWait
  }

  /** One pass of rt_mb_send_wait, suspension included. */
  method TrySendOn(r: Ring, t: Tid, value: Word, timeout: int, k: nat, ghost s: State) returns (sent: bool)
    requires Represents(r, s) && t in s.pcs && k <= |s.sendWait|
    modifies r, r.pool
    ensures Represents(r, TrySend(s, t, value, timeout, k)) && (sent <==> |s.contents| < s.size)
  {
    var woken;
    sent, woken := r.TrySend(value);
    if !sent && timeout != 0 {
      r.sendWait := L.Insert(r.sendWait, k, t);
    }
  }

  /** One pass of rt_mb_recv, suspension included: what is received is the oldest mail. */
  method TryRecvOn(r: Ring, t: Tid, timeout: int, k: nat, ghost s: State) returns (got: bool, value: Word)
    requires Represents(r, s) && t in s.pcs && k <= |s.recvWait|
    modifies r, r.pool
    ensures Represents(r, TryRecv(s, t, timeout, k))
    ensures (got <==> s.contents != []) && (got ==> value == s.contents[0])
  {
    var woken;
    got, value, woken := r.TryRecv();
    if !got && timeout != 0 {
      r.recvWait := L.Insert(r.recvWait, k, t);
    }
  }

  /** Any action, performed on the ring; `pcs` are the threads' own variables. */
  method Perform(r: Ring, a: Action, pcs: map<Tid, Pc>, ghost s: State)
    requires Represents(r, s) && Enabled(s, a) && pcs == s.pcs
    modifies r, r.pool
    ensures Represents(r, Next(s, a))
  {
    match a {
      case Send(t, value, timeout, k) => var sent := TrySendOn(r, t, value, timeout, k, s);
      case ResumeSend(t, elapsed, k) =>
        var sent := TrySendOn(r, t, pcs[t].value, W.Remaining(pcs[t].timeout, elapsed), k, s);
      case Urgent(value) => var sent, woken := r.Urgent(value);
      case Recv(t, timeout, k) => var got, value := TryRecvOn(r, t, timeout, k, s);
      case ResumeRecv(t, elapsed, k) =>
        var got, value := TryRecvOn(r, t, W.Remaining(pcs[t].timeout, elapsed), k, s);
      case Expire(t) =>
        r.recvWait := L.Without(r.recvWait, t);
        r.sendWait := L.Without(r.sendWait, t);
      case Reset => var resumed := r.Reset();
    }
  }

  /** After every run, whatever the interleaving, the ring holds the machine's mails. */
  method Play(r: Ring, run: seq<State>, actions: seq<Action>)
    requires Behaviour(run) && |actions| == |run| - 1
    requires forall i :: 0 <= i < |actions| ==> Enabled(run[i], actions[i]) && run[i + 1] == Next(run[i], actions[i])
    requires Represents(r, run[0])
    modifies r, r.pool
    ensures Represents(r, run[|run| - 1])
  {
    for i := 0 to |actions|
      invariant Represents(r, run[i])
    {
      Perform(r, actions[i], run[i].pcs, run[i]);
    }
  }
}
