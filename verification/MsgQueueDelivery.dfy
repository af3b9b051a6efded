/** End to end: what a receiver copies out of a message queue is what some thread asked to
    send. */
module MsgQueueDelivery {
  import opened MsgQueueModel
  import opened MsgQueueLaws

  // ------------------------------------------------------------- from the log

  ghost predicate InLog(log: seq<Event>, msg: Msg) { Sent(msg, false) in log || Sent(msg, true) in log }

  /** What a replayed history still contains was sent in it. */
  lemma {:induction false} ContentsWereSent(log: seq<Event>, msg: Msg)
    requires Replay(log).Deque? && msg in Replay(log).msgs
    ensures InLog(log, msg)
  {
    var front, last := log[..|log| - 1], log[|log| - 1];
    assert log == front + [last];
    if Replay(front).Deque? && msg in Replay(front).msgs { ContentsWereSent(front, msg); }
  }

  predicate Carries(pc: Pc) { pc.Popped? || pc.CopiedOut? }

  /** Every message a receiver has in hand is in the log as sent. */
  ghost predicate Provenance(s: State) {
    forall t :: t in s.pcs && Carries(s.pcs[t]) ==> InLog(s.log, s.pcs[t].msg)
  }

  /** How a step changes one thread that ends up with a message in hand. */
  lemma CarriedOver(s: State, a: Action, u: Tid)
    requires |s.contents| == |s.queue| && Enabled(s, a) && u in Next(s, a).pcs && Carries(Next(s, a).pcs[u])
    ensures u in s.pcs
    ensures (Carries(s.pcs[u]) && s.pcs[u].msg == Next(s, a).pcs[u].msg) ||
            (s.contents != [] && Next(s, a).pcs[u].msg == s.contents[0])
  {
  }

  lemma LogGrows(s: State, a: Action, msg: Msg)
    requires Enabled(s, a) && InLog(s.log, msg)
    ensures InLog(Next(s, a).log, msg)
  {
  }

  lemma ProvenanceStep(s: State, a: Action)
    requires Inv(s) && Provenance(s) && Enabled(s, a)
    ensures Provenance(Next(s, a))
  {
    var r := Next(s, a);
    forall u | u in r.pcs && Carries(r.pcs[u]) ensures InLog(r.log, r.pcs[u].msg) {
      CarriedOver(s, a, u);
      if !(Carries(s.pcs[u]) && s.pcs[u].msg == r.pcs[u].msg) { ContentsWereSent(s.log, s.contents[0]); }
      LogGrows(s, a, r.pcs[u].msg);
    }
  }

  lemma {:induction false} AlwaysProvenance(run: seq<State>, i: nat)
    requires Behaviour(run) && i < |run|
    ensures Provenance(run[i])
  {
    if i > 0 {
      AlwaysProvenance(run, i - 1);
      AlwaysInv(run, i - 1);
      assert Step(run[i - 1], run[i]);
      var a :| Enabled(run[i - 1], a) && run[i] == Next(run[i - 1], a);
      ProvenanceStep(run[i - 1], a);
    }
  }

  // ------------------------------------------------------- from the log to a call

  predicate HasBuf(pc: Pc) { pc.SendWait? || pc.SendWoken? || pc.Holding? || pc.Filled? }

  /** The step from `s` to `r` is a call of rt_mq_send_wait or rt_mq_urgent with `msg`. */
  ghost predicate Asks(s: State, r: State, msg: Msg) {
    exists a :: Enabled(s, a) && r == Next(s, a) && ((a.Send? && a.buf == msg) || (a.Urgent? && a.buf == msg))
  }

  ghost predicate AskedBefore(run: seq<State>, i: nat, msg: Msg)
    requires i < |run|
  {
    exists j, k :: 0 <= j && k == j + 1 && k <= i && Asks(run[j], run[k], msg)
  }

  lemma AskedLater(run: seq<State>, i: nat, i': nat, msg: Msg)
    requires i <= i' < |run| && AskedBefore(run, i, msg)
    ensures AskedBefore(run, i', msg)
  {
  }

  /** A thread on its way to send has the buffer it had before, or the one it is called with. */
  lemma BufStep(s: State, a: Action, u: Tid)
    requires Enabled(s, a) && u in Next(s, a).pcs && HasBuf(Next(s, a).pcs[u])
    ensures (u in s.pcs && HasBuf(s.pcs[u]) && s.pcs[u].buf == Next(s, a).pcs[u].buf) ||
            ((a.Send? || a.Urgent?) && a.buf == Next(s, a).pcs[u].buf)
  {
  }

  /** A message enters the log from the hands of a sender. */
  lemma LogStep(s: State, a: Action, msg: Msg)
    requires Enabled(s, a) && InLog(Next(s, a).log, msg)
    ensures InLog(s.log, msg) || exists u :: u in s.pcs && HasBuf(s.pcs[u]) && s.pcs[u].buf == msg
  {
    if a.Link? { assert HasBuf(s.pcs[a.t]); }
  }

  lemma {:induction false} BufWasAsked(run: seq<State>, i: nat, u: Tid)
    requires Behaviour(run) && i < |run| && u in run[i].pcs && HasBuf(run[i].pcs[u])
    ensures AskedBefore(run, i, run[i].pcs[u].buf)
  {
    if i > 0 {
      assert Step(run[i - 1], run[i]);
      var a :| Enabled(run[i - 1], a) && run[i] == Next(run[i - 1], a);
      BufStep(run[i - 1], a, u);
      if (a.Send? || a.Urgent?) && a.buf == run[i].pcs[u].buf {
        assert Asks(run[i - 1], run[i], a.buf);
      } else {
        BufWasAsked(run, i - 1, u);
        AskedLater(run, i - 1, i, run[i].pcs[u].buf);
      }
    }
  }

  lemma {:induction false} LoggedWasAsked(run: seq<State>, i: nat, msg: Msg)
    requires Behaviour(run) && i < |run| && InLog(run[i].log, msg)
    ensures AskedBefore(run, i, msg)
  {
    assert i > 0;
    assert Step(run[i - 1], run[i]);
    var a :| Enabled(run[i - 1], a) && run[i] == Next(run[i - 1], a);
    LogStep(run[i - 1], a, msg);
    if InLog(run[i - 1].log, msg) {
      LoggedWasAsked(run, i - 1, msg);
    } else {
      var u :| u in run[i - 1].pcs && HasBuf(run[i - 1].pcs[u]) && run[i - 1].pcs[u].buf == msg;
      BufWasAsked(run, i - 1, u);
    }
    AskedLater(run, i - 1, i, msg);
  }

  // ------------------------------------------------------------------- results

  /** On its first pass or after a resume, a receiver that finds a message takes the front one
      of the sequence. */
  lemma ReceiverGetsMessage(s: State, a: Action)
    requires Inv(s) && s.queue != [] && Enabled(s, a) && (a.Recv? || a.ResumeRecv?)
    ensures var r := Next(s, a);
      && s.contents != [] && r.pcs[a.t].Popped? && r.pcs[a.t].node == s.queue[0] && r.pcs[a.t].msg == s.contents[0]
      && r.contents == s.contents[1..] && r.queue == s.queue[1..]
      && r.pcs[a.t].size == if a.Recv? then a.size else s.pcs[a.t].size
  {
  }

  /** In every run: whoever has copied a message out, by whichever path, holds the bytes of a
      message that rt_mq_send_wait or rt_mq_urgent was called with earlier in the run, up to the
      smaller of the two sizes; and that message went through the queue. */
  lemma Delivery(run: seq<State>, i: nat, t: Tid)
    requires Behaviour(run) && i < |run| && t in run[i].pcs && run[i].pcs[t].CopiedOut?
    ensures var pc := run[i].pcs[t];
      AskedBefore(run, i, pc.msg) && InLog(run[i].log, pc.msg) && Delivered(pc.out, pc.msg, pc.size)
  {
    AlwaysInv(run, i);
    AlwaysProvenance(run, i);
    assert PcData(run[i], run[i].pcs[t]);
    LoggedWasAsked(run, i, run[i].pcs[t].msg);
  }
}
