/** The mutex of rt-thread/src/ipc.c with priority inheritance, under every interleaving of
    takes, releases and timeouts on one mutex whose threads' priorities nobody else changes.

    A lower number is a higher priority.  Each action is one critical section. */
module MutexModel {
  import opened IpcList
  import opened WaitList

  type Tid = nat

  const HOLD_MAX: nat := 255       // RT_MUTEX_HOLD_MAX
  const VALUE_MAX: nat := 65535    // RT_MUTEX_VALUE_MAX
  const NOBODY: nat := 0xff        // original_priority of a free mutex

  datatype Owner = None | Some(t: Tid)

  datatype State = State(
    value: nat, owner: Owner, hold: nat, original: nat,
    waiters: seq<Tid>,           // suspend_thread, in list order
    prio: map<Tid, nat>,         // current_priority of every thread
    timeout: map<Tid, int>)      // of every suspended thread; negative for ever

  datatype Result = Ok | Full | Timeout | Error | Suspended

  datatype Action = Take(t: Tid, time: int) | Release(t: Tid) | Expire(t: Tid)

  function Prio(s: State, t: Tid): nat { if t in s.prio then s.prio[t] else 0 }

  function WaiterPrios(s: State): seq<nat> {
    seq(|s.waiters|, i requires 0 <= i < |s.waiters| => Prio(s, s.waiters[i]))
  }

  /** A thread acts only while it is not suspended; only a finite timeout expires. */
  ghost predicate Enabled(s: State, a: Action) {
    match a
    case Take(t, _) => t in s.prio && t !in s.waiters
    case Release(t) => t in s.prio && t !in s.waiters
    case Expire(t) => t in s.waiters && t in s.timeout && s.timeout[t] > 0
  }

  /** The owner inherits the priority of a more urgent thread about to wait. */
  function Inherit(s: State, t: Tid): map<Tid, nat> {
    if s.owner.Some? && s.owner.t in s.prio && t in s.prio && s.prio[t] < s.prio[s.owner.t]
    then s.prio[s.owner.t := s.prio[t]] else s.prio
  }

  /** Where _ipc_list_suspend puts `t`. */
  function PlaceOf(s: State, t: Tid): (k: nat)
    ensures k <= |s.waiters|
  {
    Place(WaiterPrios(s), Prio(s, t), 0)
  }

  function Enqueue(s: State, t: Tid, time: int): State {
    var boosted := s.(prio := Inherit(s, t));
    boosted.(waiters := Insert(s.waiters, PlaceOf(boosted, t), t), timeout := s.timeout[t := time])
  }

  /** rt_mutex_take (ipc.c:937-1042) */
  function DoTake(s: State, t: Tid, time: int): (State, Result) {
    if s.owner == Some(t) then
      if s.hold < HOLD_MAX then (s.(hold := s.hold + 1), Ok) else (s, Full)
    else if s.value > 0 then
      var taken := s.(value := s.value - 1, owner := Some(t), original := Prio(s, t));
      if s.hold < HOLD_MAX then (taken.(hold := s.hold + 1), Ok) else (taken, Full)
    else if time == 0 then (s, Timeout)
    else (Enqueue(s, t, time), Suspended)
  }

  /** The outermost release: restore the priority, then hand over or free (ipc.c:1126-1183). */
  function Give(s: State, t: Tid): (State, Result) {
    var restored := s.(hold := 0, prio := if t in s.prio then s.prio[t := s.original] else s.prio);
    if s.waiters != [] then
      var w := s.waiters[0];
      (restored.(owner := Some(w), original := Prio(restored, w), hold := 1, waiters := s.waiters[1..]), Ok)
    else if s.value < VALUE_MAX then
      (restored.(value := s.value + 1, owner := None, original := NOBODY), Ok)
    else (restored, Full)
  }

  /** rt_mutex_release (ipc.c:1085-1192) */
  function DoRelease(s: State, t: Tid): (State, Result) {
    if s.owner != Some(t) then (s, Error)
    else if s.hold > 1 then (s.(hold := s.hold - 1), Ok)
    else Give(s, t)
  }

  /** The thread timer fires: the waiter leaves; nothing else changes. */
  function DoExpire(s: State, t: Tid): State { s.(waiters := Without(s.waiters, t)) }

  function Next(s: State, a: Action): State {
    match a
    case Take(t, time) => DoTake(s, t, time).0
    case Release(t) => DoRelease(s, t).0
    case Expire(t) => DoExpire(s, t)
  }

  // -------------------------------------------------------------- invariants

  /** value, owner, hold and the wait list agree. */
  ghost predicate Shape(s: State) {
    && (s.value == 1 <==> s.owner == None) && s.value <= 1
    && (s.hold == 0 <==> s.owner == None) && s.hold <= HOLD_MAX
    && (s.waiters != [] ==> s.owner != None)
    && Distinct(s.waiters)
    && (s.owner != None ==> s.owner.t !in s.waiters && s.owner.t in s.prio)
    && (forall t :: t in s.waiters ==> t in s.prio)
  }

  ghost predicate Sorted(s: State) {
    forall i, j :: 0 <= i < j < |s.waiters| ==> Prio(s, s.waiters[i]) <= Prio(s, s.waiters[j])
  }

  /** Only the owner runs above its own priority, `base`, and the mutex remembers it. */
  ghost predicate Own(s: State, base: map<Tid, nat>) {
    && s.prio.Keys == base.Keys
    && (forall t :: t in base && s.owner != Some(t) ==> s.prio[t] == base[t])
    && (s.owner != None ==> s.owner.t in base && s.original == base[s.owner.t] && s.prio[s.owner.t] <= s.original)
  }

  /** No waiter is more urgent than the owner. */
  ghost predicate Inherited(s: State) {
    s.owner != None ==> forall t :: t in s.waiters ==> Prio(s, s.owner.t) <= Prio(s, t)
  }

  ghost predicate Inv(s: State, base: map<Tid, nat>) {
    Shape(s) && Own(s, base) && Sorted(s) && Inherited(s)
  }

  // ------------------------------------------------------------------ steps

  /** Removing a waiter keeps the order of the others. */
  lemma {:induction false} WithoutSorted(ts: seq<Tid>, t: Tid, s: State)
    requires Distinct(ts) && forall i, j :: 0 <= i < j < |ts| ==> Prio(s, ts[i]) <= Prio(s, ts[j])
    ensures forall i, j :: 0 <= i < j < |Without(ts, t)| ==> Prio(s, Without(ts, t)[i]) <= Prio(s, Without(ts, t)[j])
  {
    if ts != [] {
      var r := Without(ts[1..], t);
      WithoutSorted(ts[1..], t, s);
      assert Distinct(ts[1..]);
      WithoutIs(ts[1..], t);
      forall x | x in r ensures Prio(s, ts[0]) <= Prio(s, x) {
        var i :| 0 <= i < |ts[1..]| && ts[1..][i] == x;
        assert x == ts[i + 1];
      }
    }
  }

  lemma InheritIs(s: State, base: map<Tid, nat>, t: Tid)
    requires Inv(s, base) && s.owner != None && s.owner != Some(t) && t in s.prio
    ensures var b := s.(prio := Inherit(s, t));
      && Own(b, base) && Inherited(b) && Prio(b, s.owner.t) <= Prio(b, t)
      && b.prio.Keys == s.prio.Keys && (forall u :: u != s.owner.t ==> Prio(b, u) == Prio(s, u))
  {
    var b := s.(prio := Inherit(s, t));
    assert b.prio.Keys == s.prio.Keys;
    assert Prio(b, s.owner.t) <= Prio(s, s.owner.t);
  }

  /** Where a newcomer stands: behind everyone at least as urgent, before all others. */
  ghost predicate Stands(s: State, ts: seq<Tid>, t: Tid, k: nat) {
    && k <= |ts|
    && (forall i :: 0 <= i < k ==> Prio(s, ts[i]) <= Prio(s, t))
    && (forall i :: k <= i < |ts| ==> Prio(s, t) < Prio(s, ts[i]))
  }

  lemma StandsSorted(s: State, ts: seq<Tid>, t: Tid, k: nat, r: State)
    requires Stands(s, ts, t, k) && r.waiters == Insert(ts, k, t)
    requires forall i, j :: 0 <= i < j < |ts| ==> Prio(s, ts[i]) <= Prio(s, ts[j])
    requires forall i :: 0 <= i < |ts| ==> Prio(r, ts[i]) == Prio(s, ts[i])
    requires Prio(r, t) == Prio(s, t)
    ensures Sorted(r)
  {
    InsertAt(ts, k, t);
  }

  /** A newcomer stands behind everyone at least as urgent: first come, first served among
      equals. */
  lemma EnqueuePlace(s: State, base: map<Tid, nat>, t: Tid)
    requires Inv(s, base) && s.owner != None && s.owner != Some(t) && t in s.prio
    ensures Stands(s, s.waiters, t, PlaceOf(s.(prio := Inherit(s, t)), t))
  {
    var b := s.(prio := Inherit(s, t));
    InheritIs(s, base, t);
    var ps := WaiterPrios(b);
    assert forall i :: 0 <= i < |ps| ==> ps[i] == Prio(s, s.waiters[i]);
    InsertSorted(ps, Prio(b, t));
  }

  /** A thread joins the wait list: the list stays sorted and the owner is at least as urgent
      as the newcomer. */
  lemma EnqueueInv(s: State, base: map<Tid, nat>, t: Tid, time: int)
    requires Inv(s, base) && s.owner != None && s.owner != Some(t) && t in s.prio && t !in s.waiters
    ensures Inv(Enqueue(s, t, time), base)
  {
    var b := s.(prio := Inherit(s, t));
    InheritIs(s, base, t);
    EnqueuePlace(s, base, t);
    JoinInv(s, b, Enqueue(s, t, time), base, t, PlaceOf(b, t));
  }

  lemma JoinInv(s: State, b: State, r: State, base: map<Tid, nat>, t: Tid, k: nat)
    requires Shape(s) && Sorted(s) && s.owner != None && s.owner != Some(t) && t in s.prio && t !in s.waiters
    requires b == s.(prio := b.prio) && Own(b, base) && Inherited(b) && Prio(b, s.owner.t) <= Prio(b, t)
    requires b.prio.Keys == s.prio.Keys && forall u :: u != s.owner.t ==> Prio(b, u) == Prio(s, u)
    requires Stands(s, s.waiters, t, k) && r == b.(waiters := Insert(s.waiters, k, t), timeout := r.timeout)
    ensures Inv(r, base)
  {
    InsertIs(s.waiters, k, t);
    assert forall u :: Prio(r, u) == Prio(b, u);
    StandsSorted(s, s.waiters, t, k, r);
  }

  /** The head of a sorted list is at least as urgent as everyone behind it. */
  lemma HeadMostUrgent(s: State)
    requires Sorted(s) && s.waiters != []
    ensures s.waiters[0] in s.waiters && forall u :: u in s.waiters ==> Prio(s, s.waiters[0]) <= Prio(s, u)
  {
    forall u | u in s.waiters ensures Prio(s, s.waiters[0]) <= Prio(s, u) {
      var i :| 0 <= i < |s.waiters| && s.waiters[i] == u;
      assert i > 0 ==> Prio(s, s.waiters[0]) <= Prio(s, s.waiters[i]);
    }
  }

  /** With the owner's priority restored every thread runs at its own. */
  lemma Restored(s: State, base: map<Tid, nat>, t: Tid)
    requires Own(s, base) && s.owner == Some(t) && t in s.prio
    ensures s.prio[t := s.original] == base
  {
  }

  /** With the head of a sorted list as owner, the rest is sorted and less urgent. */
  lemma TailSorted(s: State, r: State)
    requires Sorted(s) && s.waiters != [] && r.owner == Some(s.waiters[0]) && r.waiters == s.waiters[1..]
    requires forall u :: u in s.waiters ==> Prio(r, u) == Prio(s, u)
    ensures Sorted(r) && Inherited(r)
  {
    HeadMostUrgent(s);
    var ts := r.waiters;
    forall i, j | 0 <= i < j < |ts| ensures Prio(r, ts[i]) <= Prio(r, ts[j]) {
      assert ts[i] == s.waiters[i + 1] && ts[j] == s.waiters[j + 1];
      assert Prio(s, s.waiters[i + 1]) <= Prio(s, s.waiters[j + 1]);
    }
  }

  lemma HandOver(s: State, base: map<Tid, nat>, t: Tid, r: State)
    requires Inv(s, base) && s.owner == Some(t) && s.waiters != []
    requires r == s.(hold := 1, prio := base, owner := Some(s.waiters[0]), original := Prio(r, s.waiters[0]), waiters := s.waiters[1..])
    ensures Inv(r, base)
  {
    assert s.waiters == [s.waiters[0]] + s.waiters[1..];
    forall u | u in s.waiters ensures Prio(r, u) == Prio(s, u) && u in base { }
    TailSorted(s, r);
  }

  lemma GiveInv(s: State, base: map<Tid, nat>, t: Tid)
    requires Inv(s, base) && s.owner == Some(t)
    ensures Inv(Give(s, t).0, base) && Give(s, t).1 == Ok
  {
    Restored(s, base, t);
    if s.waiters != [] { HandOver(s, base, t, Give(s, t).0); }
  }

  lemma TakeInv(s: State, base: map<Tid, nat>, t: Tid, time: int)
    requires Inv(s, base) && t in s.prio && t !in s.waiters
    ensures Inv(DoTake(s, t, time).0, base)
  {
    if s.owner != Some(t) && s.value == 0 && time != 0 { EnqueueInv(s, base, t, time); }
  }

  lemma ReleaseInv(s: State, base: map<Tid, nat>, t: Tid)
    requires Inv(s, base)
    ensures Inv(DoRelease(s, t).0, base)
  {
    if s.owner == Some(t) && s.hold == 1 { GiveInv(s, base, t); }
  }

  /** Every critical section keeps the invariant, and the overflow returns of take and
      release other than on a deep recursive take are unreachable. */
  lemma NextInv(s: State, base: map<Tid, nat>, a: Action)
    requires Inv(s, base) && Enabled(s, a)
    ensures Inv(Next(s, a), base)
  {
    match a {
      case Take(t, time) => TakeInv(s, base, t, time);
      case Release(t) => ReleaseInv(s, base, t);
      case Expire(t) =>
        WithoutIs(s.waiters, t);
        WithoutSorted(s.waiters, t, s);
    }
  }

  /** A take answers Full only on the 256th recursive take; a release never does. */
  lemma FullOnlyWhenDeep(s: State, base: map<Tid, nat>, t: Tid, time: int)
    requires Inv(s, base)
    ensures DoTake(s, t, time).1 == Full <==> s.owner == Some(t) && s.hold == HOLD_MAX
    ensures DoRelease(s, t).1 != Full
    ensures DoRelease(s, t).1 == Error <==> s.owner != Some(t)
  {
    if s.owner == Some(t) { GiveInv(s, base, t); }
  }

  ghost predicate Step(s: State, r: State) { exists a :: Enabled(s, a) && r == Next(s, a) }

  ghost predicate Behaviour(run: seq<State>, base: map<Tid, nat>) {
    && |run| > 0 && run[0] == State(1, None, 0, NOBODY, [], base, map[])
    && forall i, j {:trigger Step(run[i], run[j])} :: 0 <= i && j == i + 1 && j < |run| ==> Step(run[i], run[j])
  }

  lemma StepInv(s: State, r: State, base: map<Tid, nat>)
    requires Inv(s, base) && Step(s, r)
    ensures Inv(r, base)
  {
    var a :| Enabled(s, a) && r == Next(s, a);
    NextInv(s, base, a);
  }

  lemma {:induction false} AlwaysInv(run: seq<State>, base: map<Tid, nat>, i: nat)
    requires Behaviour(run, base) && i < |run|
    ensures Inv(run[i], base)
  {
    if i > 0 {
      AlwaysInv(run, base, i - 1);
      assert Step(run[i - 1], run[i]);
      StepInv(run[i - 1], run[i], base);
    }
  }

  /** The outermost release: the priority is the thread's own again; the mutex is free, or
      its new owner is the most urgent waiter and no less urgent than any left waiting. */
  lemma GiveRestores(s: State, base: map<Tid, nat>, t: Tid)
    requires Inv(s, base) && s.owner == Some(t)
    ensures var r := Give(s, t).0;
      && t in base && Prio(r, t) == base[t]
      && (s.waiters == [] ==> r.owner == None && r.value == 1 && r.hold == 0)
      && (s.waiters != [] ==> r.owner == Some(s.waiters[0]) && r.hold == 1 && r.value == 0)
    ensures forall u :: u in s.waiters ==> Prio(Give(s, t).0, s.waiters[0]) <= Prio(Give(s, t).0, u)
  {
    Restored(s, base, t);
    if s.waiters != [] { HeadMostUrgent(s); }
  }

  /** In every run, whatever boosts happened in between, an outermost release gives a thread
      back the priority it had when it took the mutex. */
  lemma ReleaseRestores(run: seq<State>, base: map<Tid, nat>, i: nat, j: nat, t: Tid)
    requires Behaviour(run, base) && i < j < |run|
    requires t in run[i].prio && run[i].owner != Some(t)
    requires run[j].owner == Some(t) && run[j].hold == 1
    ensures Prio(Next(run[j], Release(t)), t) == Prio(run[i], t)
  {
    AlwaysInv(run, base, i);
    AlwaysInv(run, base, j);
    GiveRestores(run[j], base, t);
  }

  /** In every run: while a thread waits, the owner is at least as urgent. */
  lemma NoInversion(run: seq<State>, base: map<Tid, nat>, i: nat, t: Tid)
    requires Behaviour(run, base) && i < |run| && t in run[i].waiters && t in base
    ensures run[i].owner != None && Prio(run[i], run[i].owner.t) <= Prio(run[i], t) == base[t]
  {
    AlwaysInv(run, base, i);
  }

  // ------------------------------------------------------ first come, first served

  /** What a step does to the list. */
  ghost predicate ListMove(ts: seq<Tid>, rs: seq<Tid>) {
    || rs == ts
    || (exists k: nat, t :: k <= |ts| && t !in ts && rs == Insert(ts, k, t))
    || (ts != [] && rs == ts[1..])
    || exists t :: t in ts && rs == Without(ts, t)
  }

  lemma ListMoves(s: State, a: Action)
    requires Enabled(s, a)
    ensures ListMove(s.waiters, Next(s, a).waiters)
  {
  }

  /** Whoever stays on the list keeps its place relative to every other who stays. */
  lemma OrderKept(ts: seq<Tid>, rs: seq<Tid>, x: Tid, y: Tid)
    requires Distinct(ts) && ListMove(ts, rs) && Before(ts, x, y) && x in rs && y in rs
    ensures Before(rs, x, y)
  {
    var i, j :| 0 <= i < j < |ts| && ts[i] == x && ts[j] == y;
    if rs == ts {
    } else if ts != [] && rs == ts[1..] {
      assert rs[j - 1] == y && (i > 0 ==> rs[i - 1] == x);
    } else if k: nat, t :| k <= |ts| && t !in ts && rs == Insert(ts, k, t) {
      InsertKeepsOrder(ts, k, t, x, y);
    } else {
      var t :| t in ts && rs == Without(ts, t);
      WithoutIs(ts, t);
      WithoutKeepsOrder(ts, t, x, y);
    }
  }

  lemma InsertedBehind(s: State, ts: seq<Tid>, x: Tid, y: Tid, k: nat)
    requires Stands(s, ts, y, k) && x in ts && Prio(s, x) <= Prio(s, y)
    ensures Before(Insert(ts, k, y), x, y)
  {
    var i :| 0 <= i < |ts| && ts[i] == x;
    InsertAt(ts, k, y);
    assert Insert(ts, k, y)[i] == x && Insert(ts, k, y)[k] == y;
  }

  /** Whoever joins stands behind every waiter at least as urgent. */
  lemma JoinsBehind(s: State, base: map<Tid, nat>, a: Action, x: Tid, y: Tid)
    requires Inv(s, base) && Enabled(s, a) && x in base && y in base && base[x] <= base[y]
    requires x in s.waiters && y !in s.waiters && y in Next(s, a).waiters
    ensures Before(Next(s, a).waiters, x, y)
  {
    match a {
      case Take(t, time) =>
        var k := PlaceOf(s.(prio := Inherit(s, t)), t);
        assert Next(s, a).waiters == Insert(s.waiters, k, t) && k <= |s.waiters|;
        InsertIs(s.waiters, k, t);
        EnqueuePlace(s, base, t);
        InsertedBehind(s, s.waiters, x, y, k);
      case Release(t) =>
      case Expire(t) => WithoutWithin(s.waiters, t);
    }
  }

  ghost predicate WaitsFrom(run: seq<State>, i: nat, j: nat, t: Tid)
    requires j < |run|
  {
    forall k :: i <= k <= j ==> t in run[k].waiters
  }

  /** `u` is not in the list, or behind `t`. */
  ghost predicate NotAhead(ts: seq<Tid>, t: Tid, u: Tid) { u in ts ==> Before(ts, t, u) }

  lemma NotAheadStep(s: State, r: State, base: map<Tid, nat>, t: Tid, u: Tid)
    requires Inv(s, base) && Step(s, r) && t in base && u in base && base[t] <= base[u]
    requires t in s.waiters && t in r.waiters && NotAhead(s.waiters, t, u)
    ensures NotAhead(r.waiters, t, u)
  {
    var a :| Enabled(s, a) && r == Next(s, a);
    if u in r.waiters {
      if u in s.waiters {
        ListMoves(s, a);
        OrderKept(s.waiters, r.waiters, t, u);
      } else {
        JoinsBehind(s, base, a, t, u);
      }
    }
  }

  lemma NotAheadNext(run: seq<State>, base: map<Tid, nat>, j: nat, t: Tid, u: Tid)
    requires Behaviour(run, base) && 0 < j < |run| && t in base && u in base && base[t] <= base[u]
    requires t in run[j - 1].waiters && t in run[j].waiters && NotAhead(run[j - 1].waiters, t, u)
    ensures NotAhead(run[j].waiters, t, u)
  {
    AlwaysInv(run, base, j - 1);
    assert Step(run[j - 1], run[j]);
    NotAheadStep(run[j - 1], run[j], base, t, u);
  }

  /** In every run: a thread that comes while `t` waits, and is no more urgent, stands behind
      `t` for as long as both wait. */
  lemma {:induction false} FirstCome(run: seq<State>, base: map<Tid, nat>, i: nat, j: nat, t: Tid, u: Tid)
    requires Behaviour(run, base) && i <= j < |run| && WaitsFrom(run, i, j, t) && t in base && u in base && base[t] <= base[u]
    requires u !in run[i].waiters
    ensures NotAhead(run[j].waiters, t, u)
  {
    if j > i {
      FirstCome(run, base, i, j - 1, t, u);
      assert t in run[j - 1].waiters && t in run[j].waiters;
      NotAheadNext(run, base, j, t, u);
    }
  }

  /** While someone waits, the mutex changes hands only to the head of the list. */
  lemma HandedToHead(s: State, r: State, base: map<Tid, nat>)
    requires Inv(s, base) && Step(s, r) && s.waiters != []
    ensures r.owner == s.owner || r.owner == Some(s.waiters[0])
  {
  }

  lemma NotHead(ts: seq<Tid>, t: Tid, u: Tid)
    requires Distinct(ts) && t in ts && t != u && NotAhead(ts, t, u)
    ensures ts[0] != u
  {
    assert forall i, j :: 0 <= i < j < |ts| && ts[i] == t ==> ts[j] != ts[0];
  }

  /** In every run: a thread that comes while `t` waits, and is no more urgent, does not get the
      mutex before `t` has left the list. */
  lemma {:induction false} FirstServed(run: seq<State>, base: map<Tid, nat>, i: nat, j: nat, t: Tid, u: Tid)
    requires Behaviour(run, base) && i <= j && j + 1 < |run| && WaitsFrom(run, i, j, t)
    requires t in base && u in base && base[t] <= base[u]
    requires u !in run[i].waiters && run[i].owner != Some(u)
    ensures run[j + 1].owner != Some(u)
  {
    if j > i { FirstServed(run, base, i, j - 1, t, u); }
    AlwaysInv(run, base, j);
    FirstCome(run, base, i, j, t, u);
    assert t in run[i].waiters && t in run[j].waiters && Step(run[j], run[j + 1]);
    HandedToHead(run[j], run[j + 1], base);
    NotHead(run[j].waiters, t, u);
  }

  // ------------------------------------------------ what a timeout leaves behind

  /** The owner runs exactly as urgently as inheritance asks for: at its own priority, or at
      that of some waiter. */
  ghost predicate Exact(s: State, base: map<Tid, nat>)
    requires s.owner != None && s.owner.t in base
  {
    Prio(s, s.owner.t) == base[s.owner.t] || exists u :: u in s.waiters && Prio(s, u) == Prio(s, s.owner.t)
  }

  /** In an exact state, the head of the list is the waiter a boosted owner's priority is from. */
  lemma BoostIsHead(s: State, base: map<Tid, nat>)
    requires Inv(s, base) && s.owner != None && s.owner.t in base && Exact(s, base) && Prio(s, s.owner.t) != base[s.owner.t]
    ensures s.waiters != [] && Prio(s, s.waiters[0]) == Prio(s, s.owner.t)
  {
    var u :| u in s.waiters && Prio(s, u) == Prio(s, s.owner.t);
    HeadMostUrgent(s);
  }

  /** Taking out the head makes the second the first; taking out anyone else keeps the head. */
  lemma {:induction false} HeadAfter(ts: seq<Tid>, t: Tid)
    requires ts != [] && Distinct(ts) && t in ts
    ensures ts[0] == t ==> Without(ts, t) == ts[1..]
    ensures ts[0] != t ==> Without(ts, t) != [] && Without(ts, t)[0] == ts[0]
  {
  }

  /** A waiter that times out does not lower the owner again.  From an exact state the timeout
      of `t` leaves the owner too urgent if and only if the owner is boosted, `t` is the head of
      the list, and there is no second waiter or the second is strictly less urgent. */
  lemma TimeoutKeepsExact(s: State, base: map<Tid, nat>, t: Tid)
    requires Inv(s, base) && Enabled(s, Expire(t)) && Exact(s, base)
    ensures !Exact(Next(s, Expire(t)), base) <==>
      && Prio(s, s.owner.t) != base[s.owner.t] && s.waiters[0] == t
      && (|s.waiters| == 1 || Prio(s, s.waiters[0]) < Prio(s, s.waiters[1]))
  {
    var r := Next(s, Expire(t));
    assert forall u :: Prio(r, u) == Prio(s, u);
    if Prio(s, s.owner.t) != base[s.owner.t] {
      BoostIsHead(s, base);
      HeadAfter(s.waiters, t);
      if s.waiters[0] != t {
        assert r.waiters[0] in r.waiters;
      } else if |s.waiters| > 1 {
        assert r.waiters[0] == s.waiters[1] && s.waiters[1] in r.waiters;
        assert Prio(s, s.waiters[0]) <= Prio(s, s.waiters[1]);
        NextInv(s, base, Expire(t));
        if Exact(r, base) { BoostIsHead(r, base); }
      }
    }
  }

  /** A run in which a timed-out waiter leaves the owner boosted with nobody waiting. */
  lemma BoostOutlivesWaiter() returns (run: seq<State>, base: map<Tid, nat>)
    ensures Behaviour(run, base) && |run| == 4
    ensures run[3].owner == Some(1) && run[3].waiters == [] && Prio(run[3], 1) == 5 && base == map[1 := 20, 2 := 5]
  {
    base := map[1 := 20, 2 := 5];
    var s0 := State(1, None, 0, NOBODY, [], base, map[]);
    var s1 := Next(s0, Take(1, -1));
    var s2 := Next(s1, Take(2, 10));
    var s3 := Next(s2, Expire(2));
    assert s2.waiters == [2];
    run := [s0, s1, s2, s3];
    assert Enabled(s0, Take(1, -1)) && Enabled(s1, Take(2, 10)) && Enabled(s2, Expire(2));
    assert Step(s0, s1) && Step(s1, s2) && Step(s2, s3);
  }
}
