/** The blocking protocol shared by mailboxes, message queues and memory pools
    (rt-thread/src/ipc.c and mempool.c): a thread that finds nothing available suspends
    itself on the object's wait list; whoever makes one unit available resumes the first
    waiter, which re-checks the condition when it runs again.  Between the resume and the
    re-check any other thread may steal the unit.

    Each action below is one critical section (rt_hw_interrupt_disable … enable). */
module WaitProtocol {
  import opened WaitList

  type Tid = nat

  /** A thread as this wait list sees it.  A timeout is negative for ever, 0 for not at all. */
  datatype Status =
    | Running
    | Waiting(timeout: int)    // suspended on the list
    | Woken(timeout: int)      // resumed without error, has not re-checked yet

  datatype Side = Side(avail: nat, waiting: seq<Tid>, status: map<Tid, Status>)

  datatype Action =
    | Enter(t: Tid, timeout: int, k: nat)      // first check; k is the place in the list if it suspends
    | Recheck(t: Tid, elapsed: nat, k: nat)    // the check after a resume
    | Produce                                  // one unit more, resume the first waiter
    | Expire(t: Tid)                           // the thread timer fires
    | Reset(avail: nat)                        // resume every waiter with an error

  /** What is left of a timeout after `elapsed` ticks. */
  function Remaining(timeout: int, elapsed: nat): int {
    if timeout > 0 then (if timeout - elapsed < 0 then 0 else timeout - elapsed) else timeout
  }

  /** The loop test: take a unit, give up, or suspend. */
  function Check(s: Side, t: Tid, timeout: int, k: nat): Side
    requires k <= |s.waiting|
  {
    if s.avail > 0 then s.(avail := s.avail - 1, status := s.status[t := Running])
    else if timeout == 0 then s.(status := s.status[t := Running])
    else s.(waiting := Insert(s.waiting, k, t), status := s.status[t := Waiting(timeout)])
  }

  ghost predicate Enabled(s: Side, a: Action) {
    match a
    case Enter(t, _, k) => t in s.status && s.status[t].Running? && k <= |s.waiting|
    case Recheck(t, _, k) => t in s.status && s.status[t].Woken? && k <= |s.waiting|
    case Produce => true
    case Expire(t) => t in s.status && s.status[t].Waiting? && s.status[t].timeout > 0
    case Reset(_) => true
  }

  function Release(s: map<Tid, Status>, ts: seq<Tid>): map<Tid, Status> {
    map t | t in s :: if t in ts then Running else s[t]
  }

  function TimeoutOf(s: map<Tid, Status>, t: Tid): int {
    if t in s && !s[t].Running? then s[t].timeout else 0
  }

  function Next(s: Side, a: Action): Side
    requires Enabled(s, a)
  {
    match a
    case Enter(t, timeout, k) => Check(s, t, timeout, k)
    case Recheck(t, elapsed, k) => Check(s, t, Remaining(s.status[t].timeout, elapsed), k)
    case Produce =>
      if s.waiting == [] then s.(avail := s.avail + 1)
      else
        var w := s.waiting[0];
        Side(s.avail + 1, s.waiting[1..], s.status[w := Woken(TimeoutOf(s.status, w))])
    case Expire(t) => s.(waiting := Without(s.waiting, t), status := s.status[t := Running])
    case Reset(n) => Side(n, [], Release(s.status, s.waiting))
  }

  /** The list holds exactly the suspended threads, each once. */
  ghost predicate Consistent(s: Side) {
    && Distinct(s.waiting)
    && (forall t :: t in s.waiting <==> t in s.status && s.status[t].Waiting?)
  }

  function WokenSet(s: Side): set<Tid> {
    set t | t in s.status && s.status[t].Woken?
  }

  /** While someone is suspended, no more units are available than there are resumed
      threads that have yet to look. */
  ghost predicate NoLostWakeup(s: Side) {
    s.waiting != [] ==> s.avail <= |WokenSet(s)|
  }

  ghost predicate Inv(s: Side) {
    Consistent(s) && NoLostWakeup(s)
  }

  /** What a step of some object is for one of its wait lists. */
  datatype Seen = Nothing | Does(a: Action)

  ghost predicate Moves(side: Side, seen: Seen, side': Side) {
    match seen
    case Nothing => side' == side
    case Does(a) => Enabled(side, a) && side' == Next(side, a)
  }

  // ------------------------------------------------------------------ lemmas

  /** Changing one thread's status moves it in or out of the woken set, nothing else. */
  lemma WokenUpdate(s: Side, r: Side, t: Tid, x: Status)
    requires r.status == s.status[t := x]
    ensures WokenSet(r) == if x.Woken? then WokenSet(s) + {t} else WokenSet(s) - {t}
  {
  }

  lemma CheckInv(s: Side, t: Tid, timeout: int, k: nat)
    requires Inv(s) && k <= |s.waiting| && t in s.status && !s.status[t].Waiting?
    ensures Inv(Check(s, t, timeout, k))
  {
    var r := Check(s, t, timeout, k);
    WokenUpdate(s, r, t, r.status[t]);
    InsertIs(s.waiting, k, t);
    assert |WokenSet(r)| >= |WokenSet(s)| - 1 by {
      assert WokenSet(s) == WokenSet(r) || WokenSet(s) == WokenSet(r) + {t};
    }
  }

  lemma ProduceInv(s: Side)
    requires Inv(s)
    ensures Inv(Next(s, Produce))
  {
    var r := Next(s, Produce);
    if s.waiting != [] {
      var w := s.waiting[0];
      WokenUpdate(s, r, w, r.status[w]);
      assert s.waiting == [w] + s.waiting[1..];
      assert w !in WokenSet(s) && w in s.waiting;
    } else {
      assert r.status == s.status;
    }
  }

  /** Every action keeps the list consistent and loses no wake-up. */
  lemma NextInv(s: Side, a: Action)
    requires Inv(s) && Enabled(s, a)
    ensures Inv(Next(s, a))
  {
    match a
    case Enter(t, timeout, k) => CheckInv(s, t, timeout, k);
    case Recheck(t, elapsed, k) => CheckInv(s, t, Remaining(s.status[t].timeout, elapsed), k);
    case Produce => ProduceInv(s);
    case Expire(t) =>
      WithoutIs(s.waiting, t);
      WokenUpdate(s, Next(s, a), t, Running);
      assert WokenSet(Next(s, a)) == WokenSet(s);
    case Reset(n) =>
  }

  /** An initial side: units available, nobody suspended or resumed. */
  ghost predicate Initial(s: Side) {
    s.waiting == [] && forall t :: t in s.status ==> s.status[t].Running?
  }

  ghost predicate Step(s: Side, r: Side) { exists a :: Enabled(s, a) && r == Next(s, a) }

  ghost predicate Behaviour(run: seq<Side>) {
    && |run| > 0 && Initial(run[0])
    && forall i, j {:trigger Step(run[i], run[j])} :: 0 <= i && j == i + 1 && j < |run| ==> Step(run[i], run[j])
  }

  /** In no reachable state of any run is a wake-up lost. */
  lemma {:induction false} NeverLost(run: seq<Side>, i: nat)
    requires Behaviour(run) && i < |run|
    ensures Inv(run[i])
  {
    if i > 0 {
      NeverLost(run, i - 1);
      assert Step(run[i - 1], run[i]);
      var a :| Enabled(run[i - 1], a) && run[i] == Next(run[i - 1], a);
      NextInv(run[i - 1], a);
    }
  }

  /** What the invariant is for: when a thread sleeps although a unit is available, another
      thread is on its way that will find a unit when it looks. */
  lemma SleeperHasAgent(s: Side)
    requires Inv(s) && s.waiting != [] && s.avail > 0
    ensures exists t :: t in s.status && s.status[t].Woken? &&
              forall elapsed: nat, k: nat :: k <= |s.waiting| ==>
                Next(s, Recheck(t, elapsed, k)).avail == s.avail - 1
  {
    assert |WokenSet(s)| > 0;
    var t :| t in WokenSet(s);
  }

  // ---------------------------------------------------------------- timeouts

  /** A call that finds nothing gives up exactly with timeout 0; otherwise it sleeps. */
  lemma EnterAnswers(s: Side, t: Tid, timeout: int, k: nat)
    requires Enabled(s, Enter(t, timeout, k)) && s.avail == 0
    ensures var r := Next(s, Enter(t, timeout, k));
      if timeout == 0 then r == s else t in r.waiting && r.status == s.status[t := Waiting(timeout)]
  {
    InsertIs(s.waiting, k, t);
    assert s.status[t := Running] == s.status;
  }

  /** A resumed thread that finds nothing: one that waits for ever sleeps again as before; one
      with a finite timeout gives up exactly when the ticks it slept reach it, and otherwise
      sleeps for the difference. */
  lemma RecheckAnswers(s: Side, t: Tid, elapsed: nat, k: nat)
    requires Enabled(s, Recheck(t, elapsed, k)) && s.avail == 0
    ensures var r, timeout := Next(s, Recheck(t, elapsed, k)), s.status[t].timeout;
      && (timeout < 0 ==> t in r.waiting && r.status[t] == Waiting(timeout))
      && (r.status[t] == Running <==> 0 <= timeout <= elapsed)
      && (timeout > elapsed ==> t in r.waiting && r.status[t] == Waiting(timeout - elapsed))
  {
    InsertIs(s.waiting, k, t);
  }

  /** Being resumed does not change what a thread asked for. */
  lemma ProduceKeepsTimeout(s: Side)
    requires Consistent(s) && s.waiting != []
    ensures var w := s.waiting[0];
      w in s.status && s.status[w].Waiting? && Next(s, Produce).status == s.status[w := Woken(s.status[w].timeout)]
  {
    assert s.waiting[0] in s.waiting;
  }

  /** Suspended or resumed by a call that waits for ever. */
  ghost predicate WaitsForEver(s: Side, t: Tid) { t in s.status && !s.status[t].Running? && s.status[t].timeout < 0 }

  /** Such a thread leaves only with a unit, or because a reset takes it off the list. */
  lemma LeavesOnlyWith(s: Side, a: Action, t: Tid)
    requires Consistent(s) && Enabled(s, a) && WaitsForEver(s, t)
    ensures var r := Next(s, a);
      || (WaitsForEver(r, t) && r.status[t].timeout == s.status[t].timeout)
      || (a.Recheck? && a.t == t && s.avail > 0 && r.avail == s.avail - 1)
      || (a.Reset? && t in s.waiting)
  {
    if a.Produce? && s.waiting != [] { ProduceKeepsTimeout(s); }
  }

  /** The step from `s` to `r` gives `t` a unit, or resets the object while `t` sleeps. */
  ghost predicate UnitOrReset(s: Side, r: Side, t: Tid) {
    exists a :: Enabled(s, a) && r == Next(s, a) &&
      ((a.Recheck? && a.t == t && s.avail > 0 && r.avail == s.avail - 1) || (a.Reset? && t in s.waiting))
  }

  lemma ForEverStep(s: Side, r: Side, t: Tid)
    requires Consistent(s) && Step(s, r) && WaitsForEver(s, t)
    ensures WaitsForEver(r, t) || UnitOrReset(s, r, t)
  {
    var a :| Enabled(s, a) && r == Next(s, a);
    LeavesOnlyWith(s, a, t);
  }

  /** In every run: a thread that waits for ever still does, unless it got a unit or the object
      was reset in between. */
  lemma {:induction false} ForEver(run: seq<Side>, i: nat, j: nat, t: Tid)
    requires Behaviour(run) && i <= j < |run| && WaitsForEver(run[i], t)
    ensures WaitsForEver(run[j], t) || exists k, l :: i <= k && l == k + 1 && l <= j && UnitOrReset(run[k], run[l], t)
  {
    if i < j {
      ForEver(run, i, j - 1, t);
      if WaitsForEver(run[j - 1], t) {
        NeverLost(run, j - 1);
        assert Step(run[j - 1], run[j]);
        ForEverStep(run[j - 1], run[j], t);
      }
    }
  }

  // ------------------------------------------------------- who is resumed first

  /** Nobody is resumed while another one stands before it, and two who stay keep their order. */
  lemma InOrder(s: Side, a: Action, x: Tid, y: Tid)
    requires Consistent(s) && Enabled(s, a) && Before(s.waiting, x, y)
    ensures var r := Next(s, a);
      && y in r.status && !r.status[y].Woken?
      && (x in r.waiting && y in r.waiting ==> Before(r.waiting, x, y))
  {
    var i, j :| 0 <= i < j < |s.waiting| && s.waiting[i] == x && s.waiting[j] == y;
    assert x in s.waiting && y in s.waiting;
    match a {
      case Enter(t, timeout, k) => if s.avail == 0 && timeout != 0 { InsertKeepsOrder(s.waiting, k, t, x, y); }
      case Recheck(t, elapsed, k) =>
        if t in Next(s, a).waiting { InsertKeepsOrder(s.waiting, k, t, x, y); }
      case Produce =>
        var tail := s.waiting[1..];
        assert i > 0 ==> tail[i - 1] == x && tail[j - 1] == y;
      case Expire(t) =>
        WithoutIs(s.waiting, t);
        if t != x && t != y { WithoutKeepsOrder(s.waiting, t, x, y); }
      case Reset(_) =>
    }
  }

  lemma InOrderStep(s: Side, r: Side, x: Tid, y: Tid)
    requires Consistent(s) && Step(s, r) && Before(s.waiting, x, y)
    ensures y in r.status && !r.status[y].Woken?
    ensures x in r.waiting && y in r.waiting ==> Before(r.waiting, x, y)
  {
    var a :| Enabled(s, a) && r == Next(s, a);
    InOrder(s, a, x, y);
  }

  ghost predicate BothWait(run: seq<Side>, i: nat, j: nat, x: Tid, y: Tid)
    requires j < |run|
  {
    forall k :: i <= k <= j ==> x in run[k].waiting && y in run[k].waiting
  }

  /** In every run: as long as two threads wait, the one in front stays in front, and the next
      step does not resume the other. */
  lemma {:induction false} NeverOvertaken(run: seq<Side>, i: nat, j: nat, x: Tid, y: Tid)
    requires Behaviour(run) && i <= j && j + 1 < |run| && Before(run[i].waiting, x, y) && BothWait(run, i, j, x, y)
    ensures Before(run[j].waiting, x, y) && y in run[j + 1].status && !run[j + 1].status[y].Woken?
  {
    if i < j {
      assert x in run[j].waiting && y in run[j].waiting;
      NeverOvertaken(run, i, j - 1, x, y);
      NeverLost(run, j - 1);
      assert Step(run[j - 1], run[j]);
      InOrderStep(run[j - 1], run[j], x, y);
    }
    NeverLost(run, j);
    assert Step(run[j], run[j + 1]);
    InOrderStep(run[j], run[j + 1], x, y);
  }
}
