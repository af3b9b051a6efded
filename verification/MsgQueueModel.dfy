/** Message queues of rt-thread/src/ipc.c under every interleaving.

    A send takes a free node in one critical section, fills it with interrupts enabled and
    links it in a second one; a receive pops a node, copies it out with interrupts enabled
    and gives it back in a second critical section.  Each action below is one critical
    section or one unlocked copy; any thread may act between any two of them. */
module MsgQueueModel {
  import L = WaitList
  import W = WaitProtocol

  type Tid = W.Tid
  type Node = nat
  type Byte = bv8
  type Msg = seq<Byte>

  /** Where a thread is inside rt_mq_send_wait, rt_mq_urgent or rt_mq_recv. */
  datatype Pc =
    | Idle
    | SendWait(buf: Msg, timeout: int)
    | SendWoken(buf: Msg, timeout: int)
    | Holding(node: Node, buf: Msg, urgent: bool)            // took a free node
    | Filled(node: Node, buf: Msg, urgent: bool)             // copied the buffer into it
    | RecvWait(size: nat, timeout: int)
    | RecvWoken(size: nat, timeout: int)
    | Popped(node: Node, size: nat, msg: Msg)                // took the head; `msg` is the message it stood for
    | CopiedOut(node: Node, size: nat, msg: Msg, out: Msg)   // copied it to the caller's buffer

  /** What the queue is a sequence of, seen from outside. */
  datatype Event = Sent(msg: Msg, urgent: bool) | Got(msg: Msg) | Flushed

  datatype State = State(
    maxMsgs: nat, msgSize: nat,
    free: seq<Node>, queue: seq<Node>, slots: seq<Msg>,
    recvWait: seq<Tid>, sendWait: seq<Tid>, pcs: map<Tid, Pc>,
    contents: seq<Msg>, log: seq<Event>)

  datatype Action =
    | Send(t: Tid, buf: Msg, timeout: int, k: nat)
    | Urgent(t: Tid, buf: Msg)
    | ResumeSend(t: Tid, elapsed: nat, k: nat)
    | Fill(t: Tid)
    | Link(t: Tid)
    | Recv(t: Tid, size: nat, timeout: int, k: nat)
    | ResumeRecv(t: Tid, elapsed: nat, k: nat)
    | CopyOut(t: Tid)
    | Release(t: Tid)
    | Expire(t: Tid)
    | Reset

  function Min(a: nat, b: nat): nat { if a < b then a else b }

  function Reverse(s: seq<Node>): seq<Node> {
    if s == [] then [] else Reverse(s[1..]) + [s[0]]
  }

  ghost predicate Enabled(s: State, a: Action) {
    match a
    case Send(t, buf, _, k) => t in s.pcs && s.pcs[t].Idle? && buf != [] && k <= |s.sendWait|
    case Urgent(t, buf) => t in s.pcs && s.pcs[t].Idle? && buf != []
    case ResumeSend(t, _, k) => t in s.pcs && s.pcs[t].SendWoken? && k <= |s.sendWait|
    case Fill(t) => t in s.pcs && s.pcs[t].Holding? && s.pcs[t].node < |s.slots|
    case Link(t) => t in s.pcs && s.pcs[t].Filled?
    case Recv(t, size, _, k) => t in s.pcs && s.pcs[t].Idle? && size != 0 && k <= |s.recvWait|
    case ResumeRecv(t, _, k) => t in s.pcs && s.pcs[t].RecvWoken? && k <= |s.recvWait|
    case CopyOut(t) => t in s.pcs && s.pcs[t].Popped? && s.pcs[t].node < |s.slots|
    case Release(t) => t in s.pcs && s.pcs[t].CopiedOut?
    case Expire(t) => t in s.pcs && (s.pcs[t].SendWait? || s.pcs[t].RecvWait?) && s.pcs[t].timeout > 0
    case Reset => true
  }

  /** The loop test of rt_mq_send_wait (ipc.c:2770-2841) and the first critical section. */
  function TrySend(s: State, t: Tid, buf: Msg, timeout: int, k: nat): State
    requires k <= |s.sendWait|
  {
    if s.free != [] then s.(free := s.free[1..], pcs := s.pcs[t := Holding(s.free[0], buf, false)])
    else if timeout == 0 then s.(pcs := s.pcs[t := Idle])
    else s.(sendWait := L.Insert(s.sendWait, k, t), pcs := s.pcs[t := SendWait(buf, timeout)])
  }

  /** The loop test of rt_mq_recv (ipc.c:3078-3147). */
  function TryRecv(s: State, t: Tid, size: nat, timeout: int, k: nat): State
    requires k <= |s.recvWait|
  {
    if s.queue != [] then
      var msg := if s.contents == [] then [] else s.contents[0];
      s.(queue := s.queue[1..], pcs := s.pcs[t := Popped(s.queue[0], size, msg)],
         contents := if s.contents == [] then [] else s.contents[1..], log := s.log + [Got(msg)])
    else if timeout == 0 then s.(pcs := s.pcs[t := Idle])
    else s.(recvWait := L.Insert(s.recvWait, k, t), pcs := s.pcs[t := RecvWait(size, timeout)])
  }

  function WakeReceiver(s: State): State {
    if s.recvWait == [] then s
    else
      var w := s.recvWait[0];
      var pc := if w in s.pcs && s.pcs[w].RecvWait? then RecvWoken(s.pcs[w].size, s.pcs[w].timeout) else Idle;
      s.(recvWait := s.recvWait[1..], pcs := s.pcs[w := pc])
  }

  function WakeSender(s: State): State {
    if s.sendWait == [] then s
    else
      var w := s.sendWait[0];
      var pc := if w in s.pcs && s.pcs[w].SendWait? then SendWoken(s.pcs[w].buf, s.pcs[w].timeout) else Idle;
      s.(sendWait := s.sendWait[1..], pcs := s.pcs[w := pc])
  }

  /** Second critical section of a send, before it wakes a receiver (ipc.c:2854-2878, 2988-3007). */
  function Linked(s: State, t: Tid, pc: Pc): State
    requires pc.Filled?
  {
    s.(queue := if pc.urgent then [pc.node] + s.queue else s.queue + [pc.node],
       contents := if pc.urgent then [pc.buf] + s.contents else s.contents + [pc.buf],
       log := s.log + [Sent(pc.buf, pc.urgent)],
       pcs := s.pcs[t := Idle])
  }

  /** Second critical section of a receive, before it wakes a sender (ipc.c:3171-3174). */
  function Released(s: State, t: Tid): State
    requires t in s.pcs && s.pcs[t].CopiedOut?
  {
    s.(free := [s.pcs[t].node] + s.free, pcs := s.pcs[t := Idle])
  }

  function DoExpire(s: State, t: Tid): State {
    s.(recvWait := L.Without(s.recvWait, t), sendWait := L.Without(s.sendWait, t), pcs := s.pcs[t := Idle])
  }

  /** rt_mq_control(RT_IPC_CMD_RESET) */
  function DoReset(s: State): State {
    s.(free := Reverse(s.queue) + s.free, queue := [], contents := [], log := s.log + [Flushed],
       recvWait := [], sendWait := [],
       pcs := map t | t in s.pcs :: if t in s.recvWait || t in s.sendWait then Idle else s.pcs[t])
  }

  function Next(s: State, a: Action): State
    requires Enabled(s, a)
  {
    match a
    case Send(t, buf, timeout, k) => if |buf| > s.msgSize then s else TrySend(s, t, buf, timeout, k)
    case Urgent(t, buf) =>
      if |buf| > s.msgSize || s.free == [] then s
      else s.(free := s.free[1..], pcs := s.pcs[t := Holding(s.free[0], buf, true)])
    case ResumeSend(t, elapsed, k) => TrySend(s, t, s.pcs[t].buf, W.Remaining(s.pcs[t].timeout, elapsed), k)
    case Fill(t) =>
      var pc := s.pcs[t];
      s.(slots := s.slots[pc.node := Overwrite(s.slots[pc.node], pc.buf)], pcs := s.pcs[t := Filled(pc.node, pc.buf, pc.urgent)])
    case Link(t) => WakeReceiver(Linked(s, t, s.pcs[t]))
    case Recv(t, size, timeout, k) => TryRecv(s, t, size, timeout, k)
    case ResumeRecv(t, elapsed, k) => TryRecv(s, t, s.pcs[t].size, W.Remaining(s.pcs[t].timeout, elapsed), k)
    case CopyOut(t) =>
      var pc := s.pcs[t];
      s.(pcs := s.pcs[t := CopiedOut(pc.node, pc.size, pc.msg, Read(s.slots[pc.node], pc.size))])
    case Release(t) => WakeSender(Released(s, t))
    case Expire(t) => DoExpire(s, t)
    case Reset => DoReset(s)
  }

  /** rt_memcpy(msg + 1, buffer, size): the rest of the slot keeps its old bytes. */
  function Overwrite(slot: Msg, buf: Msg): Msg {
    if |buf| <= |slot| then buf + slot[|buf|..] else slot
  }

  /** rt_memcpy(buffer, msg + 1, size > msg_size ? msg_size : size) */
  function Read(slot: Msg, size: nat): Msg { slot[..Min(size, |slot|)] }

  // -------------------------------------------------------------- invariants

  predicate HasNode(pc: Pc) { pc.Holding? || pc.Filled? || pc.Popped? || pc.CopiedOut? }

  ghost predicate Holds(s: State, t: Tid, n: Node) {
    t in s.pcs && HasNode(s.pcs[t]) && s.pcs[t].node == n
  }

  ghost predicate Distinct(ns: seq<Node>, max: nat) {
    && (forall i :: 0 <= i < |ns| ==> ns[i] < max)
    && (forall i, j :: 0 <= i < j < |ns| ==> ns[i] != ns[j])
  }

  /** Free list, queue and nodes in flight partition the `maxMsgs` nodes. */
  ghost predicate Partition(s: State) {
    && Distinct(s.free, s.maxMsgs) && Distinct(s.queue, s.maxMsgs)
    && (forall n :: n in s.free ==> n !in s.queue)
    && (forall t: Tid, n: Node :: Holds(s, t, n) ==> n < s.maxMsgs && n !in s.free && n !in s.queue)
    && (forall t: Tid, u: Tid, n: Node :: Holds(s, t, n) && Holds(s, u, n) ==> t == u)
    && (forall n :: 0 <= n < s.maxMsgs ==> n in s.free || n in s.queue || exists t :: Holds(s, t, n))
  }

  ghost predicate StartsWith(slot: Msg, msg: Msg) { |msg| <= |slot| && slot[..|msg|] == msg }

  /** `out` and `msg` agree on the bytes both sizes allow. */
  ghost predicate Delivered(out: Msg, msg: Msg, size: nat) {
    && Min(|msg|, size) <= |out| <= size
    && out[..Min(|msg|, size)] == msg[..Min(|msg|, size)]
  }

  ghost predicate PcData(s: State, pc: Pc) {
    match pc
    case SendWait(buf, _) => |buf| <= s.msgSize
    case SendWoken(buf, _) => |buf| <= s.msgSize
    case Holding(n, buf, _) => |buf| <= s.msgSize
    case Filled(n, buf, _) => n < |s.slots| && StartsWith(s.slots[n], buf)
    case Popped(n, _, msg) => n < |s.slots| && StartsWith(s.slots[n], msg)
    case CopiedOut(n, size, msg, out) => Delivered(out, msg, size)
    case _ => true
  }

  ghost predicate QueueData(slots: seq<Msg>, queue: seq<Node>, contents: seq<Msg>) {
    && |contents| == |queue|
    && forall i :: 0 <= i < |queue| ==> queue[i] < |slots| && StartsWith(slots[queue[i]], contents[i])
  }

  /** Every queued node carries the message it stands for, and so do nodes in flight. */
  ghost predicate Data(s: State) {
    && |s.slots| == s.maxMsgs && (forall n :: 0 <= n < |s.slots| ==> |s.slots[n]| == s.msgSize)
    && QueueData(s.slots, s.queue, s.contents)
    && (forall t :: t in s.pcs ==> PcData(s, s.pcs[t]))
  }

  function RStatus(pc: Pc): W.Status {
    match pc
    case RecvWait(_, timeout) => W.Waiting(timeout)
    case RecvWoken(_, timeout) => W.Woken(timeout)
    case _ => W.Running
  }

  function SStatus(pc: Pc): W.Status {
    match pc
    case SendWait(_, timeout) => W.Waiting(timeout)
    case SendWoken(_, timeout) => W.Woken(timeout)
    case _ => W.Running
  }

  /** The queue as receivers wait on it: the units are queued messages. */
  function RecvSide(s: State): W.Side {
    W.Side(|s.queue|, s.recvWait, map t | t in s.pcs :: RStatus(s.pcs[t]))
  }

  /** The queue as senders wait on it: the units are free nodes. */
  function SendSide(s: State): W.Side {
    W.Side(|s.free|, s.sendWait, map t | t in s.pcs :: SStatus(s.pcs[t]))
  }

  /** The history of a queue read as operations on a double-ended sequence: a send appends,
      an urgent send prepends, a receive removes the front, which must be what it got. */
  datatype Replayed = Impossible | Deque(msgs: seq<Msg>)

  function Extend(before: Replayed, e: Event): Replayed {
    if before.Impossible? then Impossible
    else
      match e
      case Sent(msg, urgent) => Deque(if urgent then [msg] + before.msgs else before.msgs + [msg])
      case Got(msg) => if before.msgs == [] || before.msgs[0] != msg then Impossible else Deque(before.msgs[1..])
      case Flushed => Deque([])
  }

  function Replay(log: seq<Event>): Replayed {
    if log == [] then Deque([]) else Extend(Replay(log[..|log| - 1]), log[|log| - 1])
  }

  ghost predicate Inv(s: State) {
    && Partition(s) && Data(s)
    && W.Inv(RecvSide(s)) && W.Inv(SendSide(s))
    && Replay(s.log) == Deque(s.contents)
  }
}
