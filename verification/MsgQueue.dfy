/** The message queue of rt-thread/src/ipc.c with its linked message nodes.  Every method
    is one critical section, or one unlocked copy into or out of a node in flight.

    Nodes are indices into the pool; NIL stands for RT_NULL. */
module MsgQueue {
  import opened MsgQueueModel
  import opened MsgQueueLaws
  import W = WaitProtocol

  const NIL := -1
  const ENTRY_MAX := 65535   // RT_MQ_ENTRY_MAX

  /** `from` starts the chain of `next` links that runs through `ns`. */
  ghost predicate Chain(next: seq<int>, from: int, ns: seq<Node>) {
    && from == (if ns == [] then NIL else ns[0])
    && (forall i :: 0 <= i < |ns| ==> ns[i] < |next|)
    && (forall i, j :: 0 <= i < |ns| && j == i + 1 && j < |ns| ==> next[ns[i]] == ns[j])
    && (ns != [] ==> next[ns[|ns| - 1]] == NIL)
  }

  lemma ChainSame(next: seq<int>, next': seq<int>, from: int, ns: seq<Node>)
    requires Chain(next, from, ns) && |next'| == |next|
    requires forall i :: 0 <= i < |ns| ==> next'[ns[i]] == next[ns[i]]
    ensures Chain(next', from, ns)
  {
  }

  lemma ChainTail(next: seq<int>, from: int, ns: seq<Node>)
    requires Chain(next, from, ns) && ns != []
    ensures Chain(next, next[ns[0]], ns[1..])
  {
    assert ns[1..] != [] ==> next[ns[0]] == ns[1];
  }

  lemma ChainCons(next: seq<int>, next': seq<int>, from: int, ns: seq<Node>, n: Node)
    requires Chain(next, from, ns) && |next'| == |next| && n < |next| && next'[n] == from
    requires forall i :: 0 <= i < |ns| ==> next'[ns[i]] == next[ns[i]]
    ensures Chain(next', n, [n] + ns)
  {
  }

  lemma ChainAppend(next: seq<int>, next': seq<int>, from: int, ns: seq<Node>, n: Node)
    requires Chain(next, from, ns) && |next'| == |next| && n < |next| && next'[n] == NIL
    requires ns != [] ==> next'[ns[|ns| - 1]] == n
    requires forall i :: 0 <= i < |ns| - 1 ==> next'[ns[i]] == next[ns[i]]
    ensures Chain(next', if ns == [] then n else from, ns + [n])
  {
  }

  // -------------------------------------------------------------- the links

  /** Queue, free list and nodes in flight partition the nodes below `max`. */
  ghost predicate Apart(queue: seq<Node>, freeList: seq<Node>, held: set<Node>, max: nat) {
    && Distinct(queue, max) && Distinct(freeList, max)
    && (forall n :: n in queue ==> n !in freeList && n !in held)
    && (forall n :: n in held ==> n < max && n !in freeList)
    && (forall n :: 0 <= n < max ==> n in queue || n in freeList || n in held)
  }

  /** The links carry `queue` and `freeList`. */
  ghost predicate Links(next: seq<int>, head: int, tail: int, free: int, queue: seq<Node>, freeList: seq<Node>) {
    && Chain(next, head, queue) && Chain(next, free, freeList)
    && tail == (if queue == [] then NIL else queue[|queue| - 1])
  }

  /** `next'` differs from `next` at most at `at`, which is none of `held`. */
  ghost predicate LinkAt(next: seq<int>, next': seq<int>, at: int, held: set<Node>) {
    && |next'| == |next| && at !in held
    && forall n :: 0 <= n < |next| && n != at ==> next'[n] == next[n]
  }

  /** The nodes `ns` have the links they had. */
  ghost predicate SameLinks(ns: set<Node>, next: seq<int>, next': seq<int>) {
    |next'| == |next| && forall n :: n in ns && n < |next| ==> next'[n] == next[n]
  }

  lemma SameLinksTrans(ns: set<Node>, n0: seq<int>, n1: seq<int>, n2: seq<int>)
    requires SameLinks(ns, n0, n1) && SameLinks(ns, n1, n2)
    ensures SameLinks(ns, n0, n2)
  {
  }

  lemma AppendLinks(next: seq<int>, next': seq<int>, head: int, tail: int, free: int,
                    queue: seq<Node>, freeList: seq<Node>, held: set<Node>, msg: Node)
    requires Links(next, head, tail, free, queue, freeList) && Apart(queue, freeList, held, |next|)
    requires msg in held && next[msg] == NIL && next' == if tail == NIL then next else next[tail := msg]
    ensures Links(next', if head == NIL then msg else head, msg, free, queue + [msg], freeList)
    ensures LinkAt(next, next', tail, held) && next'[msg] == NIL
  {
    assert queue != [] ==> tail in queue;
    assert forall i :: 0 <= i < |freeList| ==> freeList[i] in freeList;
    ChainAppend(next, next', head, queue, msg);
    ChainSame(next, next', free, freeList);
  }

  lemma PrependLinks(next: seq<int>, next': seq<int>, head: int, tail: int, free: int,
                     queue: seq<Node>, freeList: seq<Node>, held: set<Node>, msg: Node)
    requires Links(next, head, tail, free, queue, freeList) && Apart(queue, freeList, held, |next|)
    requires msg in held && next' == next[msg := head]
    ensures Links(next', msg, if tail == NIL then msg else tail, free, [msg] + queue, freeList)
    ensures LinkAt(next, next', msg, held - {msg})
  {
    assert forall i :: 0 <= i < |queue| ==> queue[i] in queue;
    assert forall i :: 0 <= i < |freeList| ==> freeList[i] in freeList;
    ChainCons(next, next', head, queue, msg);
    ChainSame(next, next', free, freeList);
  }

  lemma PushLinks(next: seq<int>, next': seq<int>, head: int, tail: int, free: int,
                  queue: seq<Node>, freeList: seq<Node>, held: set<Node>, msg: Node)
    requires Links(next, head, tail, free, queue, freeList) && Apart(queue, freeList, held, |next|)
    requires msg in held && next' == next[msg := free]
    ensures Links(next', head, tail, msg, queue, [msg] + freeList)
    ensures LinkAt(next, next', msg, held - {msg})
  {
    assert forall i :: 0 <= i < |queue| ==> queue[i] in queue;
    assert forall i :: 0 <= i < |freeList| ==> freeList[i] in freeList;
    ChainCons(next, next', free, freeList, msg);
    ChainSame(next, next', head, queue);
  }

  lemma UnlinkHeld(next: seq<int>, next': seq<int>, head: int, tail: int, free: int,
                   queue: seq<Node>, freeList: seq<Node>, held: set<Node>, msg: Node)
    requires Links(next, head, tail, free, queue, freeList) && Apart(queue, freeList, held, |next|)
    requires msg in held && (next' == next || next' == next[msg := NIL])
    ensures Links(next', head, tail, free, queue, freeList)
  {
    assert forall i :: 0 <= i < |queue| ==> queue[i] in queue;
    assert forall i :: 0 <= i < |freeList| ==> freeList[i] in freeList;
    ChainSame(next, next', free, freeList);
    ChainSame(next, next', head, queue);
  }

  lemma DetachLinks(next: seq<int>, head: int, tail: int, free: int, queue: seq<Node>, freeList: seq<Node>)
    requires Links(next, head, tail, free, queue, freeList) && queue != [] && Distinct(queue, |next|)
    ensures Links(next, next[queue[0]], if tail == queue[0] then NIL else tail, free, queue[1..], freeList)
  {
    ChainTail(next, head, queue);
  }

  lemma ApartLink(queue: seq<Node>, freeList: seq<Node>, held: set<Node>, max: nat, msg: Node)
    requires Apart(queue, freeList, held, max) && msg in held
    ensures Apart(queue + [msg], freeList, held - {msg}, max) && Apart([msg] + queue, freeList, held - {msg}, max)
    ensures Apart(queue, [msg] + freeList, held - {msg}, max)
  {
    DistinctCons(queue, max, msg);
    DistinctCons(freeList, max, msg);
  }

  /** The free list of rt_mq_init holds every node. */
  lemma AllFree(freeList: seq<Node>, max: nat)
    requires |freeList| == max && forall i :: 0 <= i < max ==> freeList[i] == max - 1 - i
    ensures Apart([], freeList, {}, max)
  {
    forall n | 0 <= n < max ensures n in freeList {
      assert freeList[max - 1 - n] == n;
    }
  }

  lemma ApartTake(queue: seq<Node>, freeList: seq<Node>, held: set<Node>, max: nat)
    requires Apart(queue, freeList, held, max)
    ensures queue != [] ==> queue[0] !in held && Apart(queue[1..], freeList, held + {queue[0]}, max)
    ensures freeList != [] ==> freeList[0] !in held && Apart(queue, freeList[1..], held + {freeList[0]}, max)
  {
    if queue != [] { DistinctTail(queue, max); }
    if freeList != [] { DistinctTail(freeList, max); }
  }

  class MessageQueue {
    const maxMsgs: nat
    const msgSize: nat
    const next: array<int>
    const slots: array<Msg>
    var head: int
    var tail: int
    var free: int
    var entry: nat
    var recvWait: seq<Tid>
    var sendWait: seq<Tid>
    ghost var queue: seq<Node>
    ghost var freeList: seq<Node>
    ghost var held: set<Node>    // taken by a thread between its two critical sections

    /** The links carry `queue` and `freeList`; these and `held` partition the nodes. */
    ghost predicate Wired()
      reads this`head, this`tail, this`free, this`queue, this`freeList, this`held, next, slots
    {
      && next.Length == slots.Length == maxMsgs <= ENTRY_MAX
      && (forall n :: 0 <= n < maxMsgs ==> |slots[n]| == msgSize)
      && Apart(queue, freeList, held, maxMsgs)
      && Links(next[..], head, tail, free, queue, freeList)
    }

    ghost predicate Valid()
      reads this, next, slots
    {
      Wired() && entry == |queue|
    }

    /** rt_mq_init */
    constructor (maxMsgs: nat, msgSize: nat)
      requires maxMsgs <= ENTRY_MAX
      ensures Valid() && this.maxMsgs == maxMsgs && this.msgSize == msgSize
      ensures queue == [] && held == {} && recvWait == [] && sendWait == []
      ensures |freeList| == maxMsgs && forall i :: 0 <= i < maxMsgs ==> freeList[i] == maxMsgs - 1 - i
    {
      this.maxMsgs, this.msgSize := maxMsgs, msgSize;
      next := new int[maxMsgs];
      slots := new Msg[maxMsgs](_ => seq(msgSize, _ => 0 as bv8));
      head, tail, free, entry := NIL, NIL, NIL, 0;
      recvWait, sendWait := [], [];
      queue, freeList, held := [], [], {};
      new;
      var temp := 0;
      while temp < maxMsgs
        invariant 0 <= temp <= maxMsgs && |freeList| == temp && next.Length == slots.Length == maxMsgs
        invariant forall i :: 0 <= i < temp ==> freeList[i] == temp - 1 - i
        invariant Chain(next[..], free, freeList)
        invariant forall n :: 0 <= n < maxMsgs ==> |slots[n]| == msgSize
        invariant head == tail == NIL && entry == 0 && queue == [] && held == {} && recvWait == [] && sendWait == []
      {
        ghost var n' := next[..][temp := free];
        ChainCons(next[..], n', free, freeList, temp);
        next[temp] := free;
        free := temp;
        freeList := [temp] + freeList;
        temp := temp + 1;
        assert next[..] == n';
      }
      AllFree(freeList, maxMsgs);
    }

    /** First critical section of rt_mq_send_wait and rt_mq_urgent: NIL when full. */
    method TakeFree() returns (msg: int)
      requires Valid()
      modifies this`free, this`freeList, this`held
      ensures Valid()
      ensures old(freeList) == [] ==> msg == NIL && freeList == [] && held == old(held)
      ensures old(freeList) != [] ==> msg == old(freeList)[0] && freeList == old(freeList)[1..] && held == old(held) + {msg}
    {
      msg := free;
      if msg == NIL { return; }
      ApartTake(queue, freeList, held, maxMsgs);
      ChainTail(next[..], free, freeList);
      free := next[msg];
      held := held + {msg};
      freeList := freeList[1..];
    }

    /** The unlocked copy of a send; rt_mq_send_wait also clears the link (ipc.c:2850-2852). */
    method CopyIn(msg: Node, buf: Msg, urgent: bool)
      requires Valid() && msg in held && |buf| <= msgSize
      modifies next, slots
      ensures Valid() && SameLinks(held - {msg}, old(next[..]), next[..])
      ensures slots[msg] == Overwrite(old(slots[msg]), buf) && (!urgent ==> next[msg] == NIL)
      ensures forall n :: 0 <= n < maxMsgs && n != msg ==> slots[n] == old(slots[n])
    {
      ghost var n := next[..];
      UnlinkHeld(n, if urgent then n else n[msg := NIL], head, tail, free, queue, freeList, held, msg);
      if !urgent {
        next[msg] := NIL;
      }
      assert next[..] == if urgent then n else n[msg := NIL];
      slots[msg] := Overwrite(slots[msg], buf);
    }

    /** Resume the first suspended receiver. */
    method ResumeReceiver() returns (woken: seq<Tid>)
      modifies this`recvWait
      ensures old(recvWait) == [] ==> woken == [] && recvWait == []
      ensures old(recvWait) != [] ==> woken == [old(recvWait)[0]] && recvWait == old(recvWait)[1..]
    {
      woken := [];
      if recvWait != [] {
        woken := [recvWait[0]];
        recvWait := recvWait[1..];
      }
    }

    method ResumeSender() returns (woken: seq<Tid>)
      modifies this`sendWait
      ensures old(sendWait) == [] ==> woken == [] && sendWait == []
      ensures old(sendWait) != [] ==> woken == [old(sendWait)[0]] && sendWait == old(sendWait)[1..]
    {
      woken := [];
      if sendWait != [] {
        woken := [sendWait[0]];
        sendWait := sendWait[1..];
      }
    }

    /** Link the held node behind the tail (ipc.c:2856-2867). */
    method Append(msg: Node)
      requires Valid() && msg in held && next[msg] == NIL
      modifies next, this`head, this`tail, this`queue, this`held
      ensures Wired() && SameLinks(held, old(next[..]), next[..])
      ensures queue == old(queue) + [msg] && held == old(held) - {msg}
    {
      ghost var n := next[..];
      ghost var n' := if tail == NIL then n else n[tail := msg];
      AppendLinks(n, n', head, tail, free, queue, freeList, held, msg);
      ApartLink(queue, freeList, held, maxMsgs, msg);
      if tail != NIL {
        next[tail] := msg;
      }
      tail := msg;
      if head == NIL {
        head := msg;
      }
      queue := queue + [msg];
      held := held - {msg};
      assert next[..] == n';
    }

    /** Link the held node before the head (ipc.c:2990-2996). */
    method Prepend(msg: Node)
      requires Valid() && msg in held
      modifies next, this`head, this`tail, this`queue, this`held
      ensures Wired() && SameLinks(held, old(next[..]), next[..])
      ensures queue == [msg] + old(queue) && held == old(held) - {msg}
    {
      ghost var n := next[..];
      PrependLinks(n, n[msg := head], head, tail, free, queue, freeList, held, msg);
      ApartLink(queue, freeList, held, maxMsgs, msg);
      ghost var n' := n[msg := head];
      next[msg] := head;
      head := msg;
      if tail == NIL {
        tail := msg;
      }
      queue := [msg] + queue;
      held := held - {msg};
      assert next[..] == n';
    }

    /** Count the linked message, unless the counter is at its limit, and resume a receiver. */
    method Announce() returns (full: bool, woken: seq<Tid>)
      modifies this`entry, this`recvWait
      ensures full <==> old(entry) >= ENTRY_MAX
      ensures full ==> entry == old(entry) && recvWait == old(recvWait) && woken == []
      ensures !full ==> entry == old(entry) + 1 && woken == (if old(recvWait) == [] then [] else [old(recvWait)[0]])
      ensures !full ==> recvWait == if old(recvWait) == [] then [] else old(recvWait)[1..]
    {
      full, woken := false, [];
      if entry < ENTRY_MAX {
        entry := entry + 1;
      } else {
        full := true;
        return;
      }
      woken := ResumeReceiver();
    }

    /** Second critical section of a send: rt_mq_send_wait appends, rt_mq_urgent prepends;
        then one receiver is resumed.  The overflow return is proved unreachable. */
    method Link(msg: Node, urgent: bool) returns (full: bool, woken: seq<Tid>)
      requires Valid() && msg in held && (!urgent ==> next[msg] == NIL)
      modifies next, this`head, this`tail, this`entry, this`queue, this`held, this`recvWait
      ensures Valid() && SameLinks(held, old(next[..]), next[..]) && !full
      ensures queue == (if urgent then [msg] + old(queue) else old(queue) + [msg]) && held == old(held) - {msg}
      ensures woken == (if old(recvWait) == [] then [] else [old(recvWait)[0]])
      ensures recvWait == if old(recvWait) == [] then [] else old(recvWait)[1..]
    {
      OneLeftOut(queue, maxMsgs, msg);
      if urgent {
        Prepend(msg);
      } else {
        Append(msg);
      }
      full, woken := Announce();
    }

    /** Take the head node off the queue (ipc.c:3149-3156 and 3237-3244). */
    method DetachHead() returns (msg: int)
      requires Wired() && head != NIL
      modifies this`head, this`tail, this`queue, this`held
      ensures Wired()
      ensures old(queue) != [] && msg == old(queue)[0] && queue == old(queue)[1..] && held == old(held) + {msg}
      ensures msg !in old(held)
    {
      ghost var n := next[..];
      ApartTake(queue, freeList, held, maxMsgs);
      DetachLinks(n, head, tail, free, queue, freeList);
      msg := head;
      head := next[msg];
      if tail == msg {
        tail := NIL;
      }
      held := held + {msg};
      queue := queue[1..];
      assert next[..] == n;
    }

    /** Put a node in flight on the free list (ipc.c:3172-3174 and 3246-3248). */
    method PushFree(msg: Node)
      requires Wired() && msg in held
      modifies next, this`free, this`freeList, this`held
      ensures Wired() && SameLinks(held, old(next[..]), next[..])
      ensures freeList == [msg] + old(freeList) && held == old(held) - {msg}
    {
      ghost var n' := next[..][msg := free];
      PushLinks(next[..], n', head, tail, free, queue, freeList, held, msg);
      ApartLink(queue, freeList, held, maxMsgs, msg);
      next[msg] := free;
      free := msg;
      freeList := [msg] + freeList;
      held := held - {msg};
      assert next[..] == n';
    }

    /** First critical section of rt_mq_recv: NIL when empty. */
    method PopHead() returns (msg: int)
      requires Valid()
      modifies this`head, this`tail, this`entry, this`queue, this`held
      ensures Valid()
      ensures old(queue) == [] ==> msg == NIL && queue == [] && held == old(held)
      ensures old(queue) != [] ==> msg == old(queue)[0] && queue == old(queue)[1..] && held == old(held) + {msg}
    {
      if entry == 0 { return NIL; }
      msg := DetachHead();
      ghost var n := next[..];
      if entry > 0 {
        entry := entry - 1;
      }
      assert next[..] == n;
    }

    /** The unlocked copy of a receive. */
    method CopyOut(msg: Node, size: nat) returns (buffer: Msg)
      requires Valid() && msg in held
      ensures buffer == Read(slots[msg], size)
    {
      buffer := slots[msg][..if size > msgSize then msgSize else size];
    }

    /** Second critical section of rt_mq_recv: give the node back and resume a sender. */
    method PutFree(msg: Node) returns (woken: seq<Tid>)
      requires Valid() && msg in held
      modifies next, this`free, this`freeList, this`held, this`sendWait
      ensures Valid() && SameLinks(held, old(next[..]), next[..])
      ensures freeList == [msg] + old(freeList) && held == old(held) - {msg}
      ensures woken == (if old(sendWait) == [] then [] else [old(sendWait)[0]])
      ensures sendWait == if old(sendWait) == [] then [] else old(sendWait)[1..]
    {
      PushFree(msg);
      ghost var n := next[..];
      woken := ResumeSender();
      assert next[..] == n;
    }

    /** Move the head of the queue to the free list. */
    method FlushOne()
      requires Wired() && head != NIL
      modifies next, this`head, this`tail, this`free, this`queue, this`freeList, this`held
      ensures Wired() && held == old(held) && SameLinks(held, old(next[..]), next[..])
      ensures old(queue) != [] && queue == old(queue)[1..] && freeList == [old(queue)[0]] + old(freeList)
    {
      var msg := DetachHead();
      PushFree(msg);
    }

    /** The release loop of a reset (ipc.c:3234-3249). */
    method FlushAll()
      requires Wired()
      modifies next, this`head, this`tail, this`free, this`queue, this`freeList, this`held
      ensures Wired() && SameLinks(held, old(next[..]), next[..]) && held == old(held)
      ensures queue == [] && freeList == Reverse(old(queue)) + old(freeList)
    {
      ghost var all := Reverse(queue) + freeList;
      while head != NIL
        invariant Wired() && held == old(held)
        invariant SameLinks(held, old(next[..]), next[..])
        invariant Reverse(queue) + freeList == all
        decreases |queue|
      {
        ghost var n, h := next[..], held;
        FlushStep(queue, freeList);
        FlushOne();
        SameLinksTrans(h, old(next[..]), n, next[..]);
      }
      assert queue == [] && Reverse(queue) + freeList == freeList;
    }

    /** Every waiter resumed with an error (ipc.c:3229-3232). */
    method ResumeAll() returns (resumed: seq<Tid>)
      modifies this`recvWait, this`sendWait
      ensures recvWait == sendWait == [] && resumed == old(recvWait) + old(sendWait)
    {
      resumed := recvWait + sendWait;
      recvWait, sendWait := [], [];
    }

    /** rt_mq_control(RT_IPC_CMD_RESET): every waiter resumed with an error, every queued
        node back on the free list, nodes in flight untouched. */
    method Reset() returns (resumed: seq<Tid>)
      requires Valid()
      modifies next, this`head, this`tail, this`free, this`entry, this`queue, this`freeList, this`held, this`recvWait, this`sendWait
      ensures Valid() && SameLinks(held, old(next[..]), next[..]) && held == old(held)
      ensures queue == [] && freeList == Reverse(old(queue)) + old(freeList)
      ensures recvWait == sendWait == [] && resumed == old(recvWait) + old(sendWait)
    {
      resumed := ResumeAll();
      FlushAll();
      entry := 0;
    }
  }

  lemma {:induction false} FlushStep(q: seq<Node>, f: seq<Node>)
    requires q != []
    ensures Reverse(q) + f == Reverse(q[1..]) + ([q[0]] + f)
  {
    assert Reverse(q[1..]) + [q[0]] + f == Reverse(q[1..]) + ([q[0]] + f);
  }
}
