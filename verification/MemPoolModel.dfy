/** Threads blocking on a memory pool of rt-thread/src/mempool.c, under every interleaving, and
    the pool of module MemPool under them.  Each action is one critical section. */
module MemPoolModel {
  import L = WaitList
  import M = MemPool
  import W = WaitProtocol

  type Tid = W.Tid

  /** `free` and `live` are slots; a thread is running, suspended or resumed and yet to look. */
  datatype State = State(total: nat, free: seq<nat>, live: set<nat>, waiting: seq<Tid>, threads: map<Tid, W.Status>)

  datatype Action =
    | Alloc(t: Tid, timeout: int)      // rt_mp_alloc is called
    | Recheck(t: Tid, elapsed: nat)    // its loop test after a resume
    | Free(n: nat)                     // rt_mp_free of slot `n`
    | Expire(t: Tid)

  ghost predicate Enabled(s: State, a: Action) {
    match a
    case Alloc(t, _) => t in s.threads && s.threads[t].Running?
    case Recheck(t, _) => t in s.threads && s.threads[t].Woken?
    case Free(n) => n in s.live
    case Expire(t) => t in s.threads && s.threads[t].Waiting? && s.threads[t].timeout > 0
  }

  /** The loop of rt_mp_alloc: take the first free slot, give up, or suspend in front of the
      other waiters. */
  function TryAlloc(s: State, t: Tid, timeout: int): State {
    if s.free != [] then
      s.(free := s.free[1..], live := s.live + {s.free[0]}, threads := s.threads[t := W.Running])
    else if timeout == 0 then s.(threads := s.threads[t := W.Running])
    else s.(waiting := L.Insert(s.waiting, 0, t), threads := s.threads[t := W.Waiting(timeout)])
  }

  /** rt_mp_free: the slot heads the free list, the first waiter is resumed. */
  function DoFree(s: State, n: nat): State {
    var r := s.(free := [n] + s.free, live := s.live - {n});
    if s.waiting == [] then r
    else
      var w := s.waiting[0];
      r.(waiting := s.waiting[1..], threads := s.threads[w := W.Woken(W.TimeoutOf(s.threads, w))])
  }

  function Next(s: State, a: Action): State
    requires Enabled(s, a)
  {
    match a
    case Alloc(t, timeout) => TryAlloc(s, t, timeout)
    case Recheck(t, elapsed) => TryAlloc(s, t, W.Remaining(s.threads[t].timeout, elapsed))
    case Free(n) => DoFree(s, n)
    case Expire(t) => s.(waiting := L.Without(s.waiting, t), threads := s.threads[t := W.Running])
  }

  // ---------------------------------------------------------------- invariant

  /** The pool as its waiters see it: the units are free slots. */
  function Side(s: State): W.Side { W.Side(|s.free|, s.waiting, s.threads) }

  ghost predicate Inv(s: State) { M.Partition(s.free, s.live, s.total) && W.Inv(Side(s)) }

  function ForWaiters(a: Action): W.Action {
    match a
    case Alloc(t, timeout) => W.Enter(t, timeout, 0)
    case Recheck(t, elapsed) => W.Recheck(t, elapsed, 0)
    case Free(_) => W.Produce
    case Expire(t) => W.Expire(t)
  }

  /** Every step of the pool is a step of the blocking protocol. */
  lemma SideMoves(s: State, a: Action)
    requires Enabled(s, a)
    ensures W.Enabled(Side(s), ForWaiters(a)) && Side(Next(s, a)) == W.Next(Side(s), ForWaiters(a))
  {
  }

  /** Every step keeps free and allocated slots a partition and loses no wake-up. */
  lemma InvStep(s: State, a: Action)
    requires Inv(s) && Enabled(s, a)
    ensures Inv(Next(s, a))
  {
    SideMoves(s, a);
    W.NextInv(Side(s), ForWaiters(a));
    match a {
      case Alloc(_, _) => if s.free != [] { M.PartitionTake(s.free, s.live, s.total); }
      case Recheck(_, _) => if s.free != [] { M.PartitionTake(s.free, s.live, s.total); }
      case Free(n) => M.PartitionPut(s.free, s.live, s.total, n);
      case Expire(_) =>
    }
  }

  ghost predicate Initial(s: State) {
    && M.Partition(s.free, s.live, s.total) && s.live == {} && s.waiting == []
    && forall t :: t in s.threads ==> s.threads[t].Running?
  }

  ghost predicate Step(s: State, r: State) { exists a :: Enabled(s, a) && r == Next(s, a) }

  ghost predicate Behaviour(run: seq<State>) {
    && |run| > 0 && Initial(run[0])
    && forall i, j {:trigger Step(run[i], run[j])} :: 0 <= i && j == i + 1 && j < |run| ==> Step(run[i], run[j])
  }

  lemma {:induction false} AlwaysInv(run: seq<State>, i: nat)
    requires Behaviour(run) && i < |run|
    ensures Inv(run[i])
  {
    if i > 0 {
      AlwaysInv(run, i - 1);
      assert Step(run[i - 1], run[i]);
      var a :| Enabled(run[i - 1], a) && run[i] == Next(run[i - 1], a);
      InvStep(run[i - 1], a);
    }
  }

  /** In every run: nobody sleeps on a pool with a free slot unless a thread already resumed for
      it is about to look and will find one. */
  lemma NoSleeperForgotten(run: seq<State>, i: nat)
    requires Behaviour(run) && i < |run| && run[i].waiting != [] && run[i].free != []
    ensures exists t :: t in run[i].threads && run[i].threads[t].Woken? &&
              forall elapsed: nat :: |Next(run[i], Recheck(t, elapsed)).live| == |run[i].live| + 1
  {
    var s := run[i];
    AlwaysInv(run, i);
    W.SleeperHasAgent(Side(s));
    var t :| t in s.threads && s.threads[t].Woken?;
    assert s.free[0] in s.free && s.free[0] !in s.live;
  }

  /** Without a free slot a call gives up exactly with timeout 0; otherwise it sleeps, in front of
      the others: the newest waiter is the next to be resumed. */
  lemma AllocAnswers(s: State, t: Tid, timeout: int)
    requires Enabled(s, Alloc(t, timeout)) && s.free == []
    ensures var r := Next(s, Alloc(t, timeout));
      if timeout == 0 then r == s else r.waiting == [t] + s.waiting && r.threads == s.threads[t := W.Waiting(timeout)]
  {
    SideMoves(s, Alloc(t, timeout));
    W.EnterAnswers(Side(s), t, timeout, 0);
  }

  /** A resumed thread that finds nothing: one that waits for ever sleeps as before; another gives
      up exactly when the ticks it slept reach its timeout, and otherwise sleeps for the difference. */
  lemma RecheckAnswers(s: State, t: Tid, elapsed: nat)
    requires Enabled(s, Recheck(t, elapsed)) && s.free == []
    ensures var r, timeout := Next(s, Recheck(t, elapsed)), s.threads[t].timeout;
      && (timeout < 0 ==> r.waiting == [t] + s.waiting && r.threads[t] == W.Waiting(timeout))
      && (r.threads[t] == W.Running <==> 0 <= timeout <= elapsed)
      && (timeout > elapsed ==> r.waiting == [t] + s.waiting && r.threads[t] == W.Waiting(timeout - elapsed))
  {
    SideMoves(s, Recheck(t, elapsed));
    W.RecheckAnswers(Side(s), t, elapsed, 0);
  }

  ghost predicate ForEver(s: State, t: Tid) { W.WaitsForEver(Side(s), t) }

  lemma ForEverStep(s: State, r: State, t: Tid)
    requires Inv(s) && Step(s, r) && ForEver(s, t)
    ensures ForEver(r, t) || GotSlot(s, r)
  {
    var a :| Enabled(s, a) && r == Next(s, a);
    SideMoves(s, a);
    W.LeavesOnlyWith(Side(s), ForWaiters(a), t);
    if s.free != [] { assert s.free[0] in s.free && s.free[0] !in s.live; }
  }

  /** A step that hands out the first free slot. */
  ghost predicate GotSlot(s: State, r: State) {
    s.free != [] && r.free == s.free[1..] && r.live == s.live + {s.free[0]} && s.free[0] !in s.live
  }

  /** In every run: a call that waits for ever goes on until a slot is handed out. */
  lemma {:induction false} WaitsOn(run: seq<State>, i: nat, j: nat, t: Tid)
    requires Behaviour(run) && i <= j < |run| && ForEver(run[i], t)
    ensures ForEver(run[j], t) || exists k, l :: i <= k && l == k + 1 && l <= j && ForEver(run[k], t) && !ForEver(run[l], t) && GotSlot(run[k], run[l])
  {
    if i < j {
      WaitsOn(run, i, j - 1, t);
      if ForEver(run[j - 1], t) {
        AlwaysInv(run, j - 1);
        assert Step(run[j - 1], run[j]);
        ForEverStep(run[j - 1], run[j], t);
      }
    }
  }

  // -------------------------------------------------- on the pool of module MemPool

  /** The pool in memory is the state's: free list in order, allocated slots, wait list. */
  ghost predicate Represents(p: M.Pool, s: State)
    reads p, p.mem
  {
    p.Valid() && p.total == s.total && p.free == s.free && p.live == s.live && p.waiting == s.waiting
  }

  /** One pass of rt_mp_alloc, suspension included. */
  method AllocOn(p: M.Pool, t: Tid, timeout: int, ghost s: State) returns (block: nat)
    requires Represents(p, s)
    modifies p, p.mem
    ensures Represents(p, TryAlloc(s, t, timeout))
    ensures block == if s.free == [] then M.NULL else M.Pointer(p.base, p.span, s.free[0]) + 1
  {
    block := p.TryAlloc();
    if block == M.NULL && timeout != 0 {
      ghost var h := p.mem[..];
      p.waiting := L.Insert(p.waiting, 0, t);
      assert p.mem[..] == h;
    }
  }

  /** rt_mp_free of the block in slot `n`. */
  method FreeOn(p: M.Pool, block: nat, ghost n: nat, ghost s: State)
    requires Represents(p, s) && Enabled(s, Free(n)) && block == M.Pointer(p.base, p.span, n) + 1
    modifies p, p.mem
    ensures Represents(p, Next(s, Free(n)))
  {
    var pool, woken := p.Free(block, n);
  }

  /** The thread timer takes `t` off the list. */
  method ExpireOn(p: M.Pool, t: Tid, ghost s: State)
    requires Represents(p, s) && Enabled(s, Expire(t))
    modifies p, p.mem
    ensures Represents(p, Next(s, Expire(t)))
  {
    ghost var h := p.mem[..];
    p.waiting := L.Without(p.waiting, t);
    assert p.mem[..] == h;
  }
}
