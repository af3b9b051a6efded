/** The event object of rt-thread/src/ipc.c, updated in place: the event word and the list of
    suspended threads, each with its event_set and event_info. */
module Event {
  import opened EventModel
  import opened EventBits
  import WaitList

  const AND: bv8 := 0x01 // RT_EVENT_FLAG_AND
  const OR: bv8 := 0x02 // RT_EVENT_FLAG_OR
  const CLEAR: bv8 := 0x04 // RT_EVENT_FLAG_CLEAR

  predicate Has(info: bv8, flag: bv8) { info & flag != 0 }

  datatype Result = Ok | Error | Invalid | Timeout | Suspended

  datatype Thread = Thread(t: Tid, eventSet: Word, eventInfo: bv8, timeout: int)

  // ------------------------------------------------------- what the fields mean

  ghost function OptionsOf(info: bv8): Options { Options(Has(info, AND), Has(info, OR), Has(info, CLEAR)) }

  ghost function WaiterOf(w: Thread): Waiter { Waiter(w.t, FlagsOf(w.eventSet), OptionsOf(w.eventInfo), w.timeout) }

  ghost function WaitersOf(ws: seq<Thread>): (r: seq<Waiter>)
    ensures |r| == |ws|
  {
    seq(|ws|, i requires 0 <= i < |ws| => WaiterOf(ws[i]))
  }

  ghost function ResumedOf(w: Thread): Resumed { Resumed(w.t, FlagsOf(w.eventSet)) }

  ghost function AllResumed(ws: seq<Thread>): seq<Resumed> {
    seq(|ws|, i requires 0 <= i < |ws| => ResumedOf(ws[i]))
  }

  /** A thread that rt_event_recv can have suspended. */
  ghost predicate CanSleep(w: Thread) { Waits(WaiterOf(w)) }

  class EventObject {
    var events: Word
    var waiters: seq<Thread>

    ghost function Abs(): State
      reads this
    {
      State(FlagsOf(events), WaitersOf(waiters))
    }

    constructor ()
      ensures Abs() == State(iset{}, [])
    {
      events, waiters := 0, [];
      ZeroIff(0);
    }

    /** The condition, as a send tests it for each suspended thread and a receive for itself. */
    static method Test(events: Word, want: Word, info: bv8) returns (status: bool)
      requires Has(info, AND) || Has(info, OR)
      ensures status == Passes(events, want, info)
    {
      status := false;
      if Has(info, AND) {
        if want & events == want {
          status := true;
        }
      } else if Has(info, OR) {
        if want & events != 0 {
          status := true;
        }
      }
    }

    /** What a satisfied thread has received in its event_set, and what is left. */
    static method Grant(events: Word, want: Word, info: bv8) returns (eventSet: Word, left: Word)
      requires Passes(events, want, info)
      ensures FlagsOf(eventSet) == Received(FlagsOf(events), FlagsOf(want))
      ensures FlagsOf(left) == Left(FlagsOf(events), FlagsOf(want), OptionsOf(info))
    {
      eventSet := if Has(info, AND) then want else want & events;
      SendIsRecv(events, want, eventSet, info);
      left := if Has(info, CLEAR) then events & !eventSet else events;
    }

    /** One suspended thread against the event: whether it is satisfied, what it receives, and
        what is left. */
    static method Try(events: Word, thread: Thread) returns (status: bool, eventSet: Word, left: Word)
      requires CanSleep(thread)
      ensures var want, option := FlagsOf(thread.eventSet), OptionsOf(thread.eventInfo);
        && (status <==> Satisfied(FlagsOf(events), want, option))
        && (status ==> FlagsOf(eventSet) == Received(FlagsOf(events), want))
        && FlagsOf(left) == (if status then Left(FlagsOf(events), want, option) else FlagsOf(events))
    {
      PassesIff(events, thread.eventSet, thread.eventInfo);
      eventSet, left := thread.eventSet, events;
      status := Test(events, thread.eventSet, thread.eventInfo);
      if status {
        eventSet, left := Grant(events, thread.eventSet, thread.eventInfo);
      }
    }

    /** The walk of rt_event_send over the wait list. */
    method Walk() returns (result: Result, resumed: seq<Thread>)
      requires forall w :: w in waiters ==> CanSleep(w)
      modifies this
      ensures result == Ok
      ensures Outcome(FlagsOf(events), WaitersOf(waiters), AllResumed(resumed)) == LetAll(old(Abs()).events, old(Abs()).waiters)
    {
      resumed := [];
      ghost var start := Abs();
      var n := 0;
      assert waiters[..n] == [] && waiters[n..] == waiters;
      while n < |waiters|
        invariant n <= |waiters| && forall w :: w in waiters ==> CanSleep(w)
        invariant LetAll(start.events, start.waiters) == GoesOn(waiters[..n], resumed, events, waiters[n..])
        decreases |waiters| - n
      {
        var thread := waiters[n];
        GoesOnStep(events, waiters[..n], resumed, waiters[n..]);
        Around(waiters, n);
        assert CanSleep(thread);
        if !Has(thread.eventInfo, AND) && !Has(thread.eventInfo, OR) {
          return Invalid, resumed;
        }
        var status, eventSet, left := Try(events, thread);
        events := left;
        if status {
          resumed := resumed + [thread.(eventSet := eventSet)];
          waiters := waiters[..n] + waiters[n + 1..];
        } else {
          n := n + 1;
        }
      }
      assert waiters[..n] == waiters && waiters[n..] == [];
      result := Ok;
    }

    /** rt_event_send adds the bits to the set, then walks the wait list. */
    method Send(bits: Word) returns (result: Result, resumed: seq<Thread>)
      requires forall w :: w in waiters ==> CanSleep(w)
      modifies this
      ensures result == if bits == 0 then Error else Ok
      ensures Outcome(FlagsOf(events), WaitersOf(waiters), AllResumed(resumed)) ==
              SendOutcome(old(Abs()).events, old(Abs()).waiters, FlagsOf(bits))
    {
      ZeroIff(bits);
      if bits == 0 { return Error, []; }
      Or(events, bits);
      events := events | bits;
      result, resumed := Walk();
    }

    /** What a thread that need not wait receives, and what it leaves. */
    static method Accept(events: Word, want: Word, info: bv8) returns (recved: Word, left: Word)
      ensures FlagsOf(recved) == Received(FlagsOf(events), FlagsOf(want))
      ensures FlagsOf(left) == Left(FlagsOf(events), FlagsOf(want), OptionsOf(info))
    {
      And(events, want);
      recved := events & want;
      left := events;
      if Has(info, CLEAR) {
        Minus(events, want);
        left := events & !want;
      }
    }

    /** rt_event_recv up to the point where the thread runs on or sleeps; `k` is its place in
        the wait list. */
    method Recv(t: Tid, want: Word, option: bv8, timeout: int, k: nat) returns (result: Result, recved: Word)
      requires (Has(option, AND) || Has(option, OR)) && k <= |waiters|
      modifies this
      ensures Abs() == DoRecv(old(Abs()), t, FlagsOf(want), OptionsOf(option), timeout, k)
      ensures result == if want == 0 then Error
                        else if Satisfied(old(Abs()).events, FlagsOf(want), OptionsOf(option)) then Ok
                        else if timeout == 0 then Timeout else Suspended
      ensures result == Ok ==> FlagsOf(recved) == Received(old(Abs()).events, FlagsOf(want))
    {
      PassesIff(events, want, option);
      ZeroIff(want);
      recved := 0;
      if want == 0 { return Error, 0; }
      var status := Test(events, want, option);
      if status {
        recved, events := Accept(events, want, option);
        return Ok, recved;
      } else if timeout == 0 {
        return Timeout, 0;
      } else {
        InsertOne(waiters, k, Thread(t, want, option, timeout));
        waiters := waiters[..k] + [Thread(t, want, option, timeout)] + waiters[k..];
        return Suspended, 0;
      }
    }

    /** rt_event_control(RT_IPC_CMD_RESET) */
    method Reset() returns (resumed: seq<Thread>)
      modifies this
      ensures Abs() == State(iset{}, []) && resumed == old(waiters)
    {
      ZeroIff(0);
      resumed := waiters;
      waiters := [];
      events := 0;
    }
  }

  predicate Passes(events: Word, want: Word, info: bv8) {
    if Has(info, AND) then want & events == want else want & events != 0
  }

  /** The tests of a send and of a receive are those of the model. */
  lemma PassesIff(events: Word, want: Word, info: bv8)
    requires Has(info, AND) || Has(info, OR)
    ensures Passes(events, want, info) <==> Satisfied(FlagsOf(events), FlagsOf(want), OptionsOf(info))
  {
    Swap(want, events);
    And(events, want);
    CoversIff(want, events);
    ZeroIff(events & want);
  }

  /** What a send stores for the thread, the masked set by OR and the set itself by AND, is what
      a receive gives, and clearing either leaves the same. */
  lemma SendIsRecv(events: Word, want: Word, got: Word, info: bv8)
    requires Passes(events, want, info) && got == (if Has(info, AND) then want else want & events)
    ensures FlagsOf(got) == Received(FlagsOf(events), FlagsOf(want))
    ensures FlagsOf(if Has(info, CLEAR) then events & !got else events) == Left(FlagsOf(events), FlagsOf(want), OptionsOf(info))
  {
    Swap(want, events);
    And(events, want);
    Minus(events, got);
    CoversIff(want, events);
    assert FlagsOf(events) - FlagsOf(events) * FlagsOf(want) == FlagsOf(events) - FlagsOf(want);
  }

  lemma Swap(x: Word, y: Word)
    ensures x & y == y & x
  {
  }

  lemma InsertOne(ws: seq<Thread>, k: nat, w: Thread)
    requires k <= |ws|
    ensures WaitersOf(ws[..k] + [w] + ws[k..]) == WaitList.Insert(WaitersOf(ws), k, WaiterOf(w))
  {
  }

  /** The list around place `n`, and without it. */
  lemma Around(ws: seq<Thread>, n: nat)
    requires n < |ws|
    ensures ws[n..][0] == ws[n] && ws[n..][1..] == ws[n + 1..] && ws[..n + 1] == ws[..n] + [ws[n]]
    ensures var r := ws[..n] + ws[n + 1..];
      |r| == |ws| - 1 && r[..n] == ws[..n] && r[n..] == ws[n + 1..] && forall w :: w in r ==> w in ws
  {
  }

  /** A walk that has kept `kept`, resumed `resumed` and goes on with `rest` from `events`. */
  ghost function GoesOn(kept: seq<Thread>, resumed: seq<Thread>, events: Word, rest: seq<Thread>): Outcome {
    Continue(WaitersOf(kept), AllResumed(resumed), LetAll(FlagsOf(events), WaitersOf(rest)))
  }

  ghost function Continue(kept: seq<Waiter>, resumed: seq<Resumed>, rest: Outcome): Outcome {
    Outcome(rest.events, kept + rest.kept, resumed + rest.resumed)
  }

  /** One more waiter of the walk. */
  lemma {:induction false} ContinueStep(events: Flags, kept: seq<Waiter>, resumed: seq<Resumed>, ws: seq<Waiter>)
    requires ws != []
    ensures var w := ws[0];
      Continue(kept, resumed, LetAll(events, ws)) ==
      if Satisfied(events, w.want, w.option)
      then Continue(kept, resumed + [Resumed(w.t, Received(events, w.want))], LetAll(Left(events, w.want, w.option), ws[1..]))
      else Continue(kept + [w], resumed, LetAll(events, ws[1..]))
  {
    var w := ws[0];
    if Satisfied(events, w.want, w.option) {
      var rest := LetAll(Left(events, w.want, w.option), ws[1..]);
      assert resumed + ([Resumed(w.t, Received(events, w.want))] + rest.resumed) == resumed + [Resumed(w.t, Received(events, w.want))] + rest.resumed;
    } else {
      var rest := LetAll(events, ws[1..]);
      assert kept + ([w] + rest.kept) == kept + [w] + rest.kept;
    }
  }

  lemma Append(ws: seq<Thread>, w: Thread)
    ensures WaitersOf(ws + [w]) == WaitersOf(ws) + [WaiterOf(w)]
    ensures AllResumed(ws + [w]) == AllResumed(ws) + [ResumedOf(w)]
  {
  }

  lemma GoesOnStep(events: Word, kept: seq<Thread>, resumed: seq<Thread>, ws: seq<Thread>)
    requires ws != []
    ensures var want, option := FlagsOf(ws[0].eventSet), OptionsOf(ws[0].eventInfo);
      if Satisfied(FlagsOf(events), want, option) then
        forall got: Word, left: Word ::
          FlagsOf(got) == Received(FlagsOf(events), want) && FlagsOf(left) == Left(FlagsOf(events), want, option) ==>
          GoesOn(kept, resumed, events, ws) == GoesOn(kept, resumed + [ws[0].(eventSet := got)], left, ws[1..])
      else GoesOn(kept, resumed, events, ws) == GoesOn(kept + [ws[0]], resumed, events, ws[1..])
  {
    ContinueStep(FlagsOf(events), WaitersOf(kept), AllResumed(resumed), WaitersOf(ws));
    assert WaitersOf(ws)[1..] == WaitersOf(ws[1..]);
    Append(kept, ws[0]);
    forall got: Word ensures AllResumed(resumed + [ws[0].(eventSet := got)]) == AllResumed(resumed) + [Resumed(ws[0].t, FlagsOf(got))] {
      Append(resumed, ws[0].(eventSet := got));
    }
  }
}
