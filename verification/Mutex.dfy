/** The mutex object of rt-thread/src/ipc.c, updated in place; each method is a critical
    section and does what the step functions of module MutexModel say. */
module Mutex {
  import opened IpcList
  import opened MutexModel
  import opened WaitList

  class MutexObject {
    var value: nat
    var owner: Owner
    var hold: nat
    var originalPriority: nat
    var waiters: seq<Tid>
    var priority: map<Tid, nat>   // current_priority of the threads
    var timeout: map<Tid, int>    // their running timers

    ghost function Abs(): State
      reads this
    {
      State(value, owner, hold, originalPriority, waiters, priority, timeout)
    }

    /** rt_mutex_init */
    constructor (priority: map<Tid, nat>)
      ensures Abs() == State(1, None, 0, NOBODY, [], priority, map[])
    {
      value, owner, hold, originalPriority := 1, None, 0, NOBODY;
      waiters, this.priority, timeout := [], priority, map[];
    }

    /** The search loop of _ipc_list_suspend for RT_IPC_FLAG_PRIO. */
    method SuspendOnList(thread: Tid)
      requires thread in priority && forall t :: t in waiters ==> t in priority
      modifies this`waiters
      ensures waiters == Insert(old(waiters), PlaceOf(old(Abs()), thread), thread)
    {
      var n := 0;
      ghost var ps := WaiterPrios(Abs());
      while n < |waiters|
        invariant 0 <= n <= |waiters| && waiters == old(waiters)
        invariant forall i :: 0 <= i < n ==> ps[i] <= priority[thread]
      {
        assert waiters[n] in waiters && ps[n] == priority[waiters[n]];
        if priority[thread] < priority[waiters[n]] {
          break;
        }
        n := n + 1;
      }
      PlaceIs(ps, priority[thread], n);
      waiters := waiters[..n] + [thread] + waiters[n..];
    }

    /** rt_mutex_take up to the point where the thread runs on or sleeps. */
    method Take(thread: Tid, time: int) returns (result: Result)
      requires Shape(Abs()) && thread in priority && thread !in waiters
      modifies this
      ensures Abs() == DoTake(old(Abs()), thread, time).0 && result == DoTake(old(Abs()), thread, time).1
    {
      if owner == Some(thread) {
        if hold < HOLD_MAX {
          hold := hold + 1;
        } else {
          return Full;
        }
      } else {
        if value > 0 {
          value := value - 1;
          owner := Some(thread);
          originalPriority := priority[thread];
          if hold < HOLD_MAX {
            hold := hold + 1;
          } else {
            return Full;
          }
        } else {
          if time == 0 {
            return Timeout;
          } else {
            if priority[thread] < priority[owner.t] {
              priority := priority[owner.t := priority[thread]];
            }
            SuspendOnList(thread);
            timeout := timeout[thread := time];
            return Suspended;
          }
        }
      }
      return Ok;
    }

    /** rt_mutex_release */
    method Release(thread: Tid) returns (result: Result)
      requires Shape(Abs()) && thread in priority
      modifies this
      ensures Abs() == DoRelease(old(Abs()), thread).0 && result == DoRelease(old(Abs()), thread).1
    {
      if owner != Some(thread) {
        return Error;
      }
      hold := hold - 1;
      if hold == 0 {
        if originalPriority != priority[owner.t] {
          priority := priority[owner.t := originalPriority];
        }
        if waiters != [] {
          var next := waiters[0];
          owner := Some(next);
          originalPriority := priority[next];
          if hold < HOLD_MAX {
            hold := hold + 1;
          } else {
            return Full;
          }
          waiters := waiters[1..];
        } else {
          if value < VALUE_MAX {
            value := value + 1;
          } else {
            return Full;
          }
          owner := None;
          originalPriority := NOBODY;
        }
      }
      return Ok;
    }
  }
}
