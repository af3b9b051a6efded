/** Event sets of rt-thread/src/ipc.c as sets of flags: what a send means for the threads
    suspended on the event, and what holds between operations in every run. */
module EventModel {
  import opened WaitList

  type Tid = nat

  /** A flag is named by the word that has only its bit. */
  type Flag = bv32

  type Flags = iset<Flag>

  /** RT_EVENT_FLAG_AND, RT_EVENT_FLAG_OR and RT_EVENT_FLAG_CLEAR. */
  datatype Options = Options(all: bool, any: bool, clear: bool)

  /** A suspended thread with its event_set, event_info and timeout. */
  datatype Waiter = Waiter(t: Tid, want: Flags, option: Options, timeout: int)

  /** A thread resumed by a send, with the event set it received. */
  datatype Resumed = Resumed(t: Tid, got: Flags)

  /** The condition of rt_event_recv: AND takes precedence. */
  ghost predicate Satisfied(events: Flags, want: Flags, option: Options) {
    if option.all then want <= events else option.any && events * want != iset{}
  }

  /** What an immediate rt_event_recv receives, and what it leaves in the event. */
  ghost function Received(events: Flags, want: Flags): Flags { events * want }

  ghost function Left(events: Flags, want: Flags, option: Options): Flags {
    if option.clear then events - want else events
  }

  /** The event after each thread of `ws`, in list order, tried an immediate receive; the
      threads that got nothing; and what the others got. */
  datatype Outcome = Outcome(events: Flags, kept: seq<Waiter>, resumed: seq<Resumed>)

  ghost function LetAll(events: Flags, ws: seq<Waiter>): Outcome {
    if ws == [] then Outcome(events, [], [])
    else
      var w := ws[0];
      if Satisfied(events, w.want, w.option) then
        var rest := LetAll(Left(events, w.want, w.option), ws[1..]);
        rest.(resumed := [Resumed(w.t, Received(events, w.want))] + rest.resumed)
      else
        var rest := LetAll(events, ws[1..]);
        rest.(kept := [w] + rest.kept)
  }

  // -------------------------------------------------------------------- sends

  /** What one waiter's turn leaves. */
  ghost function Served(events: Flags, w: Waiter): Flags {
    if Satisfied(events, w.want, w.option) then Left(events, w.want, w.option) else events
  }

  lemma {:induction false} LetAllTail(events: Flags, ws: seq<Waiter>)
    requires ws != []
    ensures LetAll(events, ws).events == LetAll(Served(events, ws[0]), ws[1..]).events
  {
  }

  /** A send only removes flags after adding its own. */
  lemma {:induction false} LetAllShrinks(events: Flags, ws: seq<Waiter>)
    ensures LetAll(events, ws).events <= events
  {
    if ws != [] {
      LetAllTail(events, ws);
      LetAllShrinks(Served(events, ws[0]), ws[1..]);
    }
  }

  /** A condition that fails of a set fails of every smaller one. */
  lemma FewerFlags(a: Flags, b: Flags, want: Flags, option: Options)
    requires a <= b && Satisfied(a, want, option)
    ensures Satisfied(b, want, option)
  {
    assert a * want <= b * want;
  }

  /** Whoever stays suspended was on the list, and what the send leaves does not satisfy it. */
  lemma {:induction false} KeptUnsatisfied(events: Flags, ws: seq<Waiter>, v: Waiter)
    requires v in LetAll(events, ws).kept
    ensures v in ws && !Satisfied(LetAll(events, ws).events, v.want, v.option)
  {
    var w := ws[0];
    assert ws == [w] + ws[1..];
    if Satisfied(events, w.want, w.option) {
      KeptUnsatisfied(Left(events, w.want, w.option), ws[1..], v);
    } else if v in LetAll(events, ws[1..]).kept {
      KeptUnsatisfied(events, ws[1..], v);
    } else {
      assert v == w;
      LetAllShrinks(events, ws[1..]);
      var r := LetAll(events, ws[1..]).events;
      if Satisfied(r, w.want, w.option) { FewerFlags(r, events, w.want, w.option); }
    }
  }

  lemma Covers(a: Flags, b: Flags)
    requires forall f :: f in a ==> f in b
    ensures a <= b
  {
    forall f | f in a ensures f in b {}
  }

  /** A thread goes on only with flags it wants: all of them by AND, some of them by OR; and a
      thread that is left asleep misses one of them, or all. */
  lemma WhatItTakes(events: Flags, want: Flags, option: Options)
    requires option.all || option.any
    ensures Satisfied(events, want, option) && option.all ==> Received(events, want) == want
    ensures Satisfied(events, want, option) && !option.all ==>
      Received(events, want) != iset{} && forall f :: f in Received(events, want) ==> f in want && f in events
    ensures !Satisfied(events, want, option) && option.all ==> exists f :: f in want && f !in events
    ensures !Satisfied(events, want, option) && !option.all ==> forall f :: f in want ==> f !in events
  {
    assert want <= events ==> events * want == want;
    if forall f :: f in want ==> f in events { Covers(want, events); }
    assert forall f :: f in want && f in events ==> f in events * want;
  }

  ghost predicate GotFrom(r: Resumed, w: Waiter) {
    w.t == r.t && r.got <= w.want && (w.option.all ==> r.got == w.want) && (!w.option.all ==> r.got != iset{})
  }

  /** A resumed thread was on the list and receives only flags it asked for: all of them by AND,
      at least one by OR. */
  lemma {:induction false} ResumedWaited(events: Flags, ws: seq<Waiter>, r: Resumed)
    requires r in LetAll(events, ws).resumed
    ensures exists w :: w in ws && GotFrom(r, w)
  {
    var w := ws[0];
    assert w in ws;
    if Satisfied(events, w.want, w.option) && r == Resumed(w.t, Received(events, w.want)) {
      assert w.option.all ==> events * w.want == w.want;
      assert GotFrom(r, w);
    } else {
      assert r in LetAll(Served(events, w), ws[1..]).resumed;
      ResumedWaited(Served(events, w), ws[1..], r);
      var v :| v in ws[1..] && GotFrom(r, v);
      assert v in ws;
    }
  }

  // --------------------------------------------------------- whom a send resumes

  /** The waiters marked `yes`, in list order. */
  ghost function Pick(ws: seq<Waiter>, marks: seq<bool>, yes: bool): seq<Waiter>
    requires |marks| == |ws|
  {
    if ws == [] then [] else (if marks[0] == yes then [ws[0]] else []) + Pick(ws[1..], marks[1..], yes)
  }

  lemma {:induction false} PickCons(ws: seq<Waiter>, rest: seq<bool>, yes: bool)
    requires ws != [] && |rest| == |ws| - 1
    ensures Pick(ws, [yes] + rest, yes) == [ws[0]] + Pick(ws[1..], rest, yes)
    ensures Pick(ws, [yes] + rest, !yes) == Pick(ws[1..], rest, !yes)
  {
    assert ([yes] + rest)[1..] == rest;
  }

  /** The resumed threads are those of the waiters `ws`, one for one. */
  ghost predicate AreThreadsOf(rs: seq<Resumed>, ws: seq<Waiter>) {
    |rs| == |ws| && forall i :: 0 <= i < |rs| ==> rs[i].t == ws[i].t
  }

  lemma AreThreadsCons(r: Resumed, rs: seq<Resumed>, w: Waiter, ws: seq<Waiter>)
    requires AreThreadsOf(rs, ws) && r.t == w.t
    ensures AreThreadsOf([r] + rs, [w] + ws)
  {
    forall i | 0 <= i < |rs| + 1 ensures ([r] + rs)[i].t == ([w] + ws)[i].t {
      if i > 0 { assert ([r] + rs)[i] == rs[i - 1] && ([w] + ws)[i] == ws[i - 1]; }
    }
  }

  /** Whom a walk from the set `events` resumes, by their places in the list. */
  ghost function WokenBy(events: Flags, ws: seq<Waiter>): (r: seq<bool>)
    ensures |r| == |ws|
  {
    if ws == [] then []
    else [Satisfied(events, ws[0].want, ws[0].option)] + WokenBy(Served(events, ws[0]), ws[1..])
  }

  /** A send divides the list: each waiter is either kept or resumed, once, and both parts
      stand in list order. */
  lemma {:induction false} LetAllSplits(events: Flags, ws: seq<Waiter>)
    ensures LetAll(events, ws).kept == Pick(ws, WokenBy(events, ws), false)
    ensures AreThreadsOf(LetAll(events, ws).resumed, Pick(ws, WokenBy(events, ws), true))
  {
    if ws != [] {
      var w, next := ws[0], Served(events, ws[0]);
      var yes, woken := Satisfied(events, w.want, w.option), WokenBy(next, ws[1..]);
      LetAllSplits(next, ws[1..]);
      PickCons(ws, woken, yes);
      if yes {
        AreThreadsCons(Resumed(w.t, Received(events, w.want)), LetAll(next, ws[1..]).resumed, w, Pick(ws[1..], woken, true));
      }
    }
  }

  /** The flags that the waiters of `woken` with CLEAR want. */
  ghost function Cleared(woken: seq<Waiter>): Flags {
    if woken == [] then iset{} else (if woken[0].option.clear then woken[0].want else iset{}) + Cleared(woken[1..])
  }

  lemma {:induction false} ClearedIs(woken: seq<Waiter>, f: Flag)
    ensures f in Cleared(woken) <==> exists w :: w in woken && w.option.clear && f in w.want
  {
    if woken != [] {
      ClearedIs(woken[1..], f);
      assert woken == [woken[0]] + woken[1..];
    }
  }

  /** What is left is what was there, less what those resumed with CLEAR wanted. */
  lemma {:induction false} LetAllLeaves(events: Flags, ws: seq<Waiter>)
    ensures LetAll(events, ws).events == events - Cleared(Pick(ws, WokenBy(events, ws), true))
  {
    if ws != [] {
      var w, yes, next := ws[0], Satisfied(events, ws[0].want, ws[0].option), Served(events, ws[0]);
      var rest := Pick(ws[1..], WokenBy(next, ws[1..]), true);
      LetAllTail(events, ws);
      LetAllLeaves(next, ws[1..]);
      PickCons(ws, WokenBy(next, ws[1..]), yes);
      if yes { assert ([w] + rest)[1..] == rest; }
    }
  }

  /** `w` wants a flag that `v`, with CLEAR, wants as well. */
  ghost predicate Takes(v: Waiter, w: Waiter) { v.option.clear && v.want * w.want != iset{} }

  ghost predicate TakenBefore(ws: seq<Waiter>, woken: seq<bool>, i: nat)
    requires |woken| == |ws| && i < |ws|
  {
    exists j :: 0 <= j < i && woken[j] && Takes(ws[j], ws[i])
  }

  /** A waiter that is not resumed, or takes nothing `w` wants, leaves `w` as satisfied as before. */
  lemma ServedSame(events: Flags, v: Waiter, w: Waiter)
    requires !(Satisfied(events, v.want, v.option) && Takes(v, w)) && Satisfied(events, w.want, w.option)
    ensures Satisfied(Served(events, v), w.want, w.option)
  {
    assert Served(events, v) * w.want == events * w.want by {
      forall f | f in events * w.want ensures f in Served(events, v) {
        if f in v.want { assert f in v.want * w.want; }
      }
    }
    if w.option.all { assert events * w.want == w.want; }
  }

  lemma TakenLater(ws: seq<Waiter>, rest: seq<bool>, woken: seq<bool>, i: nat)
    requires |rest| + 1 == |woken| == |ws| && woken[1..] == rest && 0 < i < |ws|
    ensures woken[i] == rest[i - 1] && ws[1..][i - 1] == ws[i]
    ensures TakenBefore(ws[1..], rest, i - 1) ==> TakenBefore(ws, woken, i)
  {
    if TakenBefore(ws[1..], rest, i - 1) {
      var j :| 0 <= j < i - 1 && rest[j] && Takes(ws[1..][j], ws[1..][i - 1]);
      assert woken[j + 1] && ws[j + 1] == ws[1..][j];
    }
  }

  /** A waiter that the set satisfies is resumed unless one resumed in front of it took a flag it
      wants. */
  lemma {:induction false} Resumes(events: Flags, ws: seq<Waiter>, i: nat)
    requires i < |ws| && Satisfied(events, ws[i].want, ws[i].option)
    ensures WokenBy(events, ws)[i] || TakenBefore(ws, WokenBy(events, ws), i)
  {
    if i > 0 {
      var woken, next := WokenBy(events, ws), Served(events, ws[0]);
      if woken[0] && Takes(ws[0], ws[i]) {
        assert TakenBefore(ws, woken, i);
      } else {
        ServedSame(events, ws[0], ws[i]);
        Resumes(next, ws[1..], i - 1);
        TakenLater(ws, WokenBy(next, ws[1..]), woken, i);
      }
    }
  }

  /** Whoever is resumed was satisfied by the set. */
  lemma {:induction false} WokenSatisfied(events: Flags, ws: seq<Waiter>, i: nat)
    requires i < |ws| && WokenBy(events, ws)[i]
    ensures Satisfied(events, ws[i].want, ws[i].option)
  {
    if i > 0 {
      WokenSatisfied(Served(events, ws[0]), ws[1..], i - 1);
      FewerFlags(Served(events, ws[0]), events, ws[i].want, ws[i].option);
    }
  }

  // -------------------------------------------------------------------- steps

  datatype State = State(events: Flags, waiters: seq<Waiter>)

  datatype Action =
    | Send(flags: Flags)
    | Recv(t: Tid, want: Flags, option: Options, timeout: int, k: nat)
    | Expire(w: Waiter)
    | Reset

  ghost predicate Enabled(s: State, a: Action) {
    match a
    case Send(_) => true
    case Recv(t, want, option, _, k) => (option.all || option.any) && k <= |s.waiters| && forall w :: w in s.waiters ==> w.t != t
    case Expire(w) => w in s.waiters && w.timeout > 0
    case Reset => true
  }

  /** rt_event_send: nothing is refused; otherwise the flags are set and the waiters served. */
  ghost function SendOutcome(events: Flags, ws: seq<Waiter>, flags: Flags): Outcome {
    if flags == iset{} then Outcome(events, ws, []) else LetAll(events + flags, ws)
  }

  ghost function After(r: Outcome): State { State(r.events, r.kept) }

  ghost function DoSend(s: State, flags: Flags): State { After(SendOutcome(s.events, s.waiters, flags)) }

  ghost function DoRecv(s: State, t: Tid, want: Flags, option: Options, timeout: int, k: nat): State
    requires k <= |s.waiters|
  {
    if want == iset{} then s
    else if Satisfied(s.events, want, option) then s.(events := Left(s.events, want, option))
    else if timeout == 0 then s
    else s.(waiters := Insert(s.waiters, k, Waiter(t, want, option, timeout)))
  }

  ghost function DoExpire(s: State, w: Waiter): State { s.(waiters := Drop(s.waiters, w)) }

  /** The list without the first entry equal to `w`. */
  ghost function Drop(ws: seq<Waiter>, w: Waiter): seq<Waiter> {
    if ws == [] then [] else if ws[0] == w then ws[1..] else [ws[0]] + Drop(ws[1..], w)
  }

  ghost function Next(s: State, a: Action): State
    requires Enabled(s, a)
  {
    match a
    case Send(flags) => DoSend(s, flags)
    case Recv(t, want, option, timeout, k) => DoRecv(s, t, want, option, timeout, k)
    case Expire(w) => DoExpire(s, w)
    case Reset => State(iset{}, [])
  }

  ghost predicate Waits(w: Waiter) { w.want != iset{} && (w.option.all || w.option.any) }

  // ---------------------------------------------------------- what a send does

  /** A send: every flag that was pending or is sent stays set unless a thread resumed with CLEAR
      wanted it, and no other flag gets set. */
  lemma SendLeaves(s: State, flags: Flags, f: Flag)
    requires flags != iset{}
    ensures var woken := Pick(s.waiters, WokenBy(s.events + flags, s.waiters), true);
      && AreThreadsOf(SendOutcome(s.events, s.waiters, flags).resumed, woken)
      && (f in DoSend(s, flags).events <==>
           (f in s.events || f in flags) && !exists w :: w in woken && w.option.clear && f in w.want)
  {
    var u := s.events + flags;
    LetAllLeaves(u, s.waiters);
    LetAllSplits(u, s.waiters);
    ClearedIs(Pick(s.waiters, WokenBy(u, s.waiters), true), f);
  }

  /** With nobody waiting exactly the flags of both are set; sending nothing changes nothing. */
  lemma SendAlone(s: State, flags: Flags)
    ensures s.waiters == [] ==> DoSend(s, flags) == State(s.events + flags, [])
    ensures flags == iset{} ==> DoSend(s, flags) == s
  {
  }

  /** A send resumes every waiter that the pending and the sent flags together satisfy, unless a
      waiter in front of it, resumed with CLEAR, wants a flag it wants; and it resumes no other. */
  lemma SendResumes(s: State, flags: Flags, i: nat)
    requires flags != iset{} && i < |s.waiters|
    ensures var ws, u := s.waiters, s.events + flags; var woken := WokenBy(u, ws);
      && AreThreadsOf(SendOutcome(s.events, ws, flags).resumed, Pick(ws, woken, true))
      && (Satisfied(u, ws[i].want, ws[i].option) ==> woken[i] || TakenBefore(ws, woken, i))
      && (woken[i] ==> Satisfied(u, ws[i].want, ws[i].option))
  {
    var u := s.events + flags;
    LetAllSplits(u, s.waiters);
    if Satisfied(u, s.waiters[i].want, s.waiters[i].option) { Resumes(u, s.waiters, i); }
    if WokenBy(u, s.waiters)[i] { WokenSatisfied(u, s.waiters, i); }
  }

  /** The event after each of `ws`, in order, called rt_event_recv with a zero timeout, and
      what the successful calls received. */
  ghost function RecvEach(s: State, ws: seq<Waiter>): State
    decreases |ws|
  {
    if ws == [] then s else RecvEach(DoRecv(s, ws[0].t, ws[0].want, ws[0].option, 0, 0), ws[1..])
  }

  ghost function RecvedEach(s: State, ws: seq<Waiter>): seq<Resumed>
    decreases |ws|
  {
    if ws == [] then []
    else
      var w := ws[0];
      var rest := RecvedEach(DoRecv(s, w.t, w.want, w.option, 0, 0), ws[1..]);
      if Satisfied(s.events, w.want, w.option) then [Resumed(w.t, Received(s.events, w.want))] + rest else rest
  }

  lemma {:induction false} WalkIsRecvEach(s: State, ws: seq<Waiter>)
    requires forall w :: w in ws ==> Waits(w)
    ensures LetAll(s.events, ws).events == RecvEach(s, ws).events
    ensures LetAll(s.events, ws).resumed == RecvedEach(s, ws)
    decreases |ws|
  {
    if ws != [] {
      var w := ws[0];
      assert Waits(w);
      var next := DoRecv(s, w.t, w.want, w.option, 0, 0);
      assert next.events == Served(s.events, w);
      WalkIsRecvEach(next, ws[1..]);
    }
  }

  /** A send adds its flags to the set; what follows is the waiters' own immediate receives, in
      list order. */
  lemma SendIsRecvEach(s: State, flags: Flags)
    requires flags != iset{} && forall w :: w in s.waiters ==> Waits(w)
    ensures var start := State(s.events + flags, []);
      && DoSend(s, flags).events == RecvEach(start, s.waiters).events
      && SendOutcome(s.events, s.waiters, flags).resumed == RecvedEach(start, s.waiters)
  {
    WalkIsRecvEach(State(s.events + flags, []), s.waiters);
  }

  // ------------------------------------------------------ receiving and sleeping

  /** A receive that is not satisfied fails at once exactly with timeout 0, changing nothing;
      otherwise the thread is on the list with what it asked for, and the set is as before. */
  lemma RecvAnswers(s: State, t: Tid, want: Flags, option: Options, timeout: int, k: nat)
    requires Enabled(s, Recv(t, want, option, timeout, k)) && want != iset{} && !Satisfied(s.events, want, option)
    ensures var r := Next(s, Recv(t, want, option, timeout, k));
      && r.events == s.events
      && if timeout == 0 then r == s
         else Waiter(t, want, option, timeout) in r.waiters && forall w :: w in s.waiters ==> w in r.waiters
  {
    InsertIs(s.waiters, k, Waiter(t, want, option, timeout));
  }

  /** One that is satisfied suspends nobody and takes away what it wants exactly with CLEAR. */
  lemma RecvTakes(s: State, t: Tid, want: Flags, option: Options, timeout: int, k: nat, f: Flag)
    requires Enabled(s, Recv(t, want, option, timeout, k)) && want != iset{} && Satisfied(s.events, want, option)
    ensures var r := Next(s, Recv(t, want, option, timeout, k));
      r.waiters == s.waiters && (f in r.events <==> f in s.events && !(option.clear && f in want))
  {
  }

  lemma {:induction false} PickKeeps(ws: seq<Waiter>, marks: seq<bool>, i: nat)
    requires |marks| == |ws| && i < |ws|
    ensures ws[i] in Pick(ws, marks, marks[i])
  {
    if i > 0 { PickKeeps(ws[1..], marks[1..], i - 1); }
  }

  lemma WalkDrops(u: Flags, ws: seq<Waiter>, i: nat)
    requires i < |ws| && ws[i] !in LetAll(u, ws).kept
    ensures Satisfied(u, ws[i].want, ws[i].option) && exists r :: r in LetAll(u, ws).resumed && r.t == ws[i].t
  {
    var woken, resumed := WokenBy(u, ws), LetAll(u, ws).resumed;
    LetAllSplits(u, ws);
    PickKeeps(ws, woken, i);
    WokenSatisfied(u, ws, i);
    var picked := Pick(ws, woken, true);
    var j :| 0 <= j < |picked| && picked[j] == ws[i];
    assert resumed[j] in resumed;
  }

  lemma {:induction false} DropKeeps(ws: seq<Waiter>, w: Waiter, v: Waiter)
    requires v in ws && v != w
    ensures v in Drop(ws, w)
  {
    if ws[0] != w && ws[0] != v { DropKeeps(ws[1..], w, v); }
  }

  lemma {:induction false} DropWithin(ws: seq<Waiter>, w: Waiter)
    ensures forall v :: v in Drop(ws, w) ==> v in ws
  {
    if ws != [] {
      DropWithin(ws[1..], w);
      assert ws == [ws[0]] + ws[1..];
    }
  }

  /** A timeout takes one thread off the list and nothing else. */
  lemma ExpireTakesOne(s: State, w: Waiter, v: Waiter)
    requires Enabled(s, Expire(w))
    ensures var r := Next(s, Expire(w));
      r.events == s.events && |r.waiters| == |s.waiters| - 1 && (v in s.waiters && v != w ==> v in r.waiters)
  {
    DropShorter(s.waiters, w);
    if v in s.waiters && v != w { DropKeeps(s.waiters, w, v); }
  }

  lemma {:induction false} DropShorter(ws: seq<Waiter>, w: Waiter)
    requires w in ws
    ensures |Drop(ws, w)| == |ws| - 1
  {
    if ws[0] != w { DropShorter(ws[1..], w); }
  }

  /** A thread that waits for ever leaves the list only when a send resumes it, with its condition
      satisfied by the pending and the sent flags, or by a reset. */
  lemma LeavesOnlyWith(s: State, a: Action, w: Waiter)
    requires Enabled(s, a) && w in s.waiters && w.timeout < 0 && w !in Next(s, a).waiters
    ensures a == Reset || (a.Send? && Satisfied(s.events + a.flags, w.want, w.option) &&
              exists r :: r in SendOutcome(s.events, s.waiters, a.flags).resumed && r.t == w.t)
  {
    match a {
      case Send(flags) =>
        var i :| 0 <= i < |s.waiters| && s.waiters[i] == w;
        WalkDrops(s.events + flags, s.waiters, i);
      case Recv(t, want, option, timeout, k) =>
        if want != iset{} && !Satisfied(s.events, want, option) { RecvAnswers(s, t, want, option, timeout, k); }
      case Expire(v) => DropKeeps(s.waiters, v, w);
      case Reset =>
    }
  }

  // -------------------------------------------------------------------- runs

  /** A suspended thread waits for something, by AND or OR, and the event does not satisfy it. */
  ghost predicate Asleep(events: Flags, w: Waiter) {
    !Satisfied(events, w.want, w.option) && Waits(w)
  }

  ghost predicate Inv(s: State) {
    forall w :: w in s.waiters ==> Asleep(s.events, w)
  }

  lemma LetAllInv(events: Flags, ws: seq<Waiter>)
    requires forall w :: w in ws ==> Waits(w)
    ensures Inv(After(LetAll(events, ws)))
  {
    forall w | w in LetAll(events, ws).kept ensures Asleep(LetAll(events, ws).events, w) {
      KeptUnsatisfied(events, ws, w);
    }
  }

  lemma SendInv(s: State, flags: Flags)
    requires Inv(s)
    ensures Inv(DoSend(s, flags))
  {
    if flags != iset{} { LetAllInv(s.events + flags, s.waiters); }
  }

  lemma RecvInv(s: State, t: Tid, want: Flags, option: Options, timeout: int, k: nat)
    requires Inv(s) && k <= |s.waiters| && (option.all || option.any)
    ensures Inv(DoRecv(s, t, want, option, timeout, k))
  {
    if want != iset{} {
      InsertIs(s.waiters, k, Waiter(t, want, option, timeout));
      if Satisfied(s.events, want, option) {
        var left := Left(s.events, want, option);
        forall w | w in s.waiters ensures Asleep(left, w) {
          assert Asleep(s.events, w);
          if Satisfied(left, w.want, w.option) { FewerFlags(left, s.events, w.want, w.option); }
        }
      }
    }
  }

  lemma NextInv(s: State, a: Action)
    requires Inv(s) && Enabled(s, a)
    ensures Inv(Next(s, a))
  {
    match a {
      case Send(flags) => SendInv(s, flags);
      case Recv(t, want, option, timeout, k) => RecvInv(s, t, want, option, timeout, k);
      case Expire(w) => DropWithin(s.waiters, w);
      case Reset =>
    }
  }

  ghost predicate Step(s: State, r: State) { exists a :: Enabled(s, a) && r == Next(s, a) }

  ghost predicate Behaviour(run: seq<State>) {
    && |run| > 0 && run[0].waiters == []
    && forall i, j {:trigger Step(run[i], run[j])} :: 0 <= i && j == i + 1 && j < |run| ==> Step(run[i], run[j])
  }

  /** In every run, between operations, no suspended thread's condition is satisfied by the
      event, and the invalid-option return of a send is unreachable. */
  lemma {:induction false} AlwaysInv(run: seq<State>, i: nat)
    requires Behaviour(run) && i < |run|
    ensures Inv(run[i])
  {
    if i > 0 {
      AlwaysInv(run, i - 1);
      assert Step(run[i - 1], run[i]);
      var a :| Enabled(run[i - 1], a) && run[i] == Next(run[i - 1], a);
      NextInv(run[i - 1], a);
    }
  }

  /** The step from `s` to `r` resumes the thread of `w` by a send that satisfies it, or resets
      the event. */
  ghost predicate Leaves(s: State, r: State, w: Waiter) {
    || r == State(iset{}, [])
    || exists flags :: r == DoSend(s, flags) && Satisfied(s.events + flags, w.want, w.option)
         && exists got :: got in SendOutcome(s.events, s.waiters, flags).resumed && got.t == w.t
  }

  lemma StaysOrLeaves(s: State, r: State, w: Waiter)
    requires Step(s, r) && w in s.waiters && w.timeout < 0
    ensures w in r.waiters || Leaves(s, r, w)
  {
    var a :| Enabled(s, a) && r == Next(s, a);
    if w !in r.waiters { LeavesOnlyWith(s, a, w); }
  }

  /** In every run: a thread that waits for ever does so until then. */
  lemma {:induction false} WaitsOn(run: seq<State>, i: nat, j: nat, w: Waiter)
    requires Behaviour(run) && i <= j < |run| && w in run[i].waiters && w.timeout < 0
    ensures w in run[j].waiters || exists k, l :: i <= k && l == k + 1 && l <= j && Leaves(run[k], run[l], w)
  {
    if i < j {
      WaitsOn(run, i, j - 1, w);
      if w in run[j - 1].waiters {
        assert Step(run[j - 1], run[j]);
        StaysOrLeaves(run[j - 1], run[j], w);
      }
    }
  }
}
