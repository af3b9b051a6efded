/** What a mutex of rt-thread/src/ipc.c means to its callers: takes and releases count, what a
    take answers, how long a waiter waits, and how urgent the owner runs. */
module MutexLaws {
  import opened MutexModel
  import opened WaitList

  // --------------------------------------------------- takes against releases

  /** A release undoes a recursive take, below the limit of 255 holds. */
  lemma ReleaseUndoesRetake(s: State, t: Tid, time: int)
    requires s.owner == Some(t) && 0 < s.hold < 255
    ensures DoTake(s, t, time).1 == Ok && DoRelease(DoTake(s, t, time).0, t) == (s, Ok)
  {
  }

  /** A release undoes the first take of a free mutex. */
  lemma ReleaseUndoesTake(s: State, base: map<Tid, nat>, t: Tid, time: int)
    requires Inv(s, base) && t in s.prio && s.owner == None && s.original == NOBODY
    ensures DoTake(s, t, time).1 == Ok && DoRelease(DoTake(s, t, time).0, t) == (s, Ok)
  {
    assert s.prio[t := s.prio[t]] == s.prio;
  }

  /** A run with the actions that make it. */
  ghost predicate Plays(run: seq<State>, actions: seq<Action>, base: map<Tid, nat>) {
    && |run| == |actions| + 1 && run[0] == State(1, None, 0, NOBODY, [], base, map[])
    && forall i, j {:trigger Does(run[i], actions[i], run[j])} :: 0 <= i < |actions| && j == i + 1 ==> Does(run[i], actions[i], run[j])
  }

  ghost predicate Does(s: State, a: Action, r: State) { Enabled(s, a) && r == Next(s, a) }

  lemma PlaysBehaves(run: seq<State>, actions: seq<Action>, base: map<Tid, nat>)
    requires Plays(run, actions, base)
    ensures Behaviour(run, base)
  {
    forall i, j {:trigger Step(run[i], run[j])} | 0 <= i && j == i + 1 && j < |run| ensures Step(run[i], run[j]) {
      assert Does(run[i], actions[i], run[j]);
    }
  }

  /** What an action of `t` adds to its holds: a take that succeeds one, a release minus one. */
  function Counted(s: State, a: Action, t: Tid): int {
    match a
    case Take(u, time) => if u == t && DoTake(s, u, time).1 == Ok then 1 else 0
    case Release(u) => if u == t then -1 else 0
    case Expire(_) => 0
  }

  /** The takes of the present owner minus its releases, counted from the take, or the hand-over,
      that made it the owner. */
  ghost function Depth(run: seq<State>, actions: seq<Action>, j: nat): int
    requires j < |run| && j <= |actions|
  {
    if j == 0 || run[j].owner == None then 0
    else if run[j].owner != run[j - 1].owner then 1
    else Depth(run, actions, j - 1) + Counted(run[j - 1], actions[j - 1], run[j].owner.t)
  }

  lemma HoldStep(s: State, a: Action, r: State, base: map<Tid, nat>)
    requires Inv(s, base) && Does(s, a, r)
    ensures r.hold == if r.owner == None then 0 else if r.owner != s.owner then 1 else s.hold + Counted(s, a, r.owner.t)
  {
  }

  /** In every run `hold` is the owner's takes minus its releases. */
  lemma {:induction false} HoldCounts(run: seq<State>, actions: seq<Action>, base: map<Tid, nat>, j: nat)
    requires Plays(run, actions, base) && j < |run|
    ensures run[j].hold == Depth(run, actions, j)
  {
    if j > 0 {
      HoldCounts(run, actions, base, j - 1);
      PlaysBehaves(run, actions, base);
      AlwaysInv(run, base, j - 1);
      assert Does(run[j - 1], actions[j - 1], run[j]);
      HoldStep(run[j - 1], actions[j - 1], run[j], base);
    }
  }

  lemma LosesStep(s: State, a: Action, r: State, base: map<Tid, nat>, t: Tid)
    requires Inv(s, base) && Does(s, a, r) && s.owner == Some(t)
    ensures r.owner != Some(t) <==> a == Release(t) && s.hold == 1
  {
  }

  /** In every run the owner loses the mutex exactly at the release that matches its first take. */
  lemma LosesAtMatchingRelease(run: seq<State>, actions: seq<Action>, base: map<Tid, nat>, j: nat, t: Tid)
    requires Plays(run, actions, base) && j < |actions| && run[j].owner == Some(t)
    ensures run[j + 1].owner != Some(t) <==> actions[j] == Release(t) && Depth(run, actions, j) == 1
  {
    HoldCounts(run, actions, base, j);
    PlaysBehaves(run, actions, base);
    AlwaysInv(run, base, j);
    assert Does(run[j], actions[j], run[j + 1]);
    LosesStep(run[j], actions[j], run[j + 1], base, t);
  }

  // ------------------------------------------------------- what a take answers

  function Min(a: nat, b: nat): nat { if a < b then a else b }

  /** A free mutex is taken at once; one that another thread owns is refused exactly with timeout
      0, leaving everything as it was, and waited for with any other. */
  lemma TakeAnswers(s: State, base: map<Tid, nat>, t: Tid, time: int)
    requires Inv(s, base) && Enabled(s, Take(t, time)) && s.owner != Some(t)
    ensures var (r, answer) := DoTake(s, t, time);
      && (s.owner == None ==> answer == Ok && r.owner == Some(t) && r.hold == 1 && r.prio == s.prio && r.waiters == [])
      && (s.owner != None && time == 0 ==> answer == Timeout && r == s)
      && (s.owner != None && time != 0 ==> answer == Suspended && Queued(s, r, t, time))
  {
    if s.owner != None && time != 0 {
      InsertIs(s.waiters, PlaceOf(s.(prio := Inherit(s, t)), t), t);
    }
  }

  /** `t` has joined the list with timeout `time`, and the owner runs at least as urgently as it,
      but no more urgently than it or before; nothing else has changed. */
  ghost predicate Queued(s: State, r: State, t: Tid, time: int)
    requires s.owner != None
  {
    && t in r.waiters && |r.waiters| == |s.waiters| + 1 && (forall u :: u in s.waiters ==> u in r.waiters)
    && r.owner == s.owner && r.hold == s.hold && r.value == s.value && r.original == s.original
    && r.timeout == s.timeout[t := time]
    && Prio(r, s.owner.t) == Min(Prio(s, s.owner.t), Prio(s, t))
    && forall u :: u != s.owner.t ==> Prio(r, u) == Prio(s, u)
  }

  // ---------------------------------------------------------- waiting for ever

  /** On the list with a timeout that never fires. */
  ghost predicate ForEver(s: State, t: Tid) { t in s.waiters && t in s.timeout && s.timeout[t] < 0 }

  lemma TakeKeepsWaiter(s: State, base: map<Tid, nat>, u: Tid, time: int, t: Tid)
    requires Inv(s, base) && Enabled(s, Take(u, time)) && ForEver(s, t)
    ensures ForEver(DoTake(s, u, time).0, t)
  {
    if s.owner != Some(u) { TakeAnswers(s, base, u, time); }
  }

  lemma ReleaseKeepsWaiter(s: State, u: Tid, t: Tid)
    requires ForEver(s, t)
    ensures ForEver(DoRelease(s, u).0, t) || DoRelease(s, u).0.owner == Some(t)
  {
    assert s.waiters == [s.waiters[0]] + s.waiters[1..];
  }

  lemma ForEverStep(s: State, r: State, base: map<Tid, nat>, t: Tid)
    requires Inv(s, base) && Step(s, r) && ForEver(s, t)
    ensures ForEver(r, t) || r.owner == Some(t)
  {
    var a :| Enabled(s, a) && r == Next(s, a);
    match a {
      case Take(u, time) => TakeKeepsWaiter(s, base, u, time, t);
      case Release(u) => ReleaseKeepsWaiter(s, u, t);
      case Expire(u) => WithoutIs(s.waiters, u);
    }
  }

  /** In every run: a thread that waits for ever is on the list until it owns the mutex. */
  lemma {:induction false} WaitsOn(run: seq<State>, base: map<Tid, nat>, i: nat, j: nat, t: Tid)
    requires Behaviour(run, base) && i <= j < |run| && ForEver(run[i], t)
    ensures ForEver(run[j], t) || exists k :: i < k <= j && run[k].owner == Some(t)
  {
    if i < j {
      WaitsOn(run, base, i, j - 1, t);
      if ForEver(run[j - 1], t) {
        AlwaysInv(run, base, j - 1);
        assert Step(run[j - 1], run[j]);
        ForEverStep(run[j - 1], run[j], base, t);
      }
    }
  }

  // --------------------------------------------------- how urgent the owner runs

  ghost predicate ExactlyBoosted(s: State, base: map<Tid, nat>) { s.owner != None && s.owner.t in base ==> Exact(s, base) }

  lemma TakeKeepsExact(s: State, base: map<Tid, nat>, t: Tid, time: int)
    requires Inv(s, base) && Enabled(s, Take(t, time)) && ExactlyBoosted(s, base)
    ensures ExactlyBoosted(DoTake(s, t, time).0, base)
  {
    if s.owner != Some(t) {
      TakeAnswers(s, base, t, time);
      NextInv(s, base, Take(t, time));
    }
  }

  lemma ReleaseKeepsExact(s: State, base: map<Tid, nat>, t: Tid)
    requires Inv(s, base) && ExactlyBoosted(s, base)
    ensures ExactlyBoosted(DoRelease(s, t).0, base)
  {
    if s.owner == Some(t) && s.hold == 1 { Restored(s, base, t); }
  }

  /** In every run in which nobody times out, the owner runs exactly at its own priority or at
      that of a thread that waits. */
  lemma {:induction false} ExactWithoutTimeouts(run: seq<State>, actions: seq<Action>, base: map<Tid, nat>, j: nat)
    requires Plays(run, actions, base) && j < |run| && forall i :: 0 <= i < j ==> !actions[i].Expire?
    ensures ExactlyBoosted(run[j], base)
  {
    if j > 0 {
      ExactWithoutTimeouts(run, actions, base, j - 1);
      PlaysBehaves(run, actions, base);
      AlwaysInv(run, base, j - 1);
      assert Does(run[j - 1], actions[j - 1], run[j]);
      match actions[j - 1] {
        case Take(t, time) => TakeKeepsExact(run[j - 1], base, t, time);
        case Release(t) => ReleaseKeepsExact(run[j - 1], base, t);
      }
    }
  }
}
