/** The mailbox ring of rt-thread/src/ipc.c: a circular buffer updated in place, proved
    against a bounded double-ended sequence. */
module Mailbox {
  type Word = nat
  type Tid = nat

  const ENTRY_MAX := 65535   // RT_MB_ENTRY_MAX

  /** The ring position `i` places after `from`. */
  function Slot(from: nat, i: nat, size: nat): nat {
    if from + i < size then from + i else from + i - size
  }

  /** It is the position modulo the ring size. */
  lemma SlotIsModulo(from: nat, i: nat, size: nat)
    requires from < size && i <= size
    ensures Slot(from, i, size) == (from + i) % size
  {
    if from + i >= size { ModStep(from + i - size, size); }
  }

  lemma ModStep(r: nat, size: nat)
    requires r < size
    ensures (r + size) % size == r
  {
  }

  class Ring {
    const size: nat
    const pool: array<Word>
    var entry: nat
    var inOffset: nat
    var outOffset: nat
    var recvWait: seq<Tid>
    var sendWait: seq<Tid>
    ghost var contents: seq<Word>

    ghost predicate Valid()
      reads this, pool
    {
      && pool.Length == size <= ENTRY_MAX
      && entry == |contents| <= size
      && (if size == 0 then outOffset == 0 else outOffset < size)
      && inOffset == Slot(outOffset, entry, size)
      && forall i :: 0 <= i < |contents| ==> contents[i] == pool[Slot(outOffset, i, size)]
    }

    /** The relation the offsets keep in every state. */
    lemma OffsetsAgree()
      requires Valid() && size > 0
      ensures inOffset == (outOffset + entry) % size
    {
      SlotIsModulo(outOffset, entry, size);
    }

    constructor (size: nat)
      requires size <= ENTRY_MAX
      ensures Valid() && contents == [] && this.size == size && recvWait == [] && sendWait == []
    {
      this.size := size;
      pool := new Word[size];
      entry, inOffset, outOffset := 0, 0, 0;
      recvWait, sendWait, contents := [], [], [];
    }

    method ResumeReceiver() returns (woken: seq<Tid>)
      modifies this`recvWait
      ensures woken == (if old(recvWait) == [] then [] else [old(recvWait)[0]])
      ensures recvWait == if old(recvWait) == [] then [] else old(recvWait)[1..]
    {
      woken := [];
      if recvWait != [] {
        woken, recvWait := [recvWait[0]], recvWait[1..];
      }
    }

    method ResumeSender() returns (woken: seq<Tid>)
      modifies this`sendWait
      ensures woken == (if old(sendWait) == [] then [] else [old(sendWait)[0]])
      ensures sendWait == if old(sendWait) == [] then [] else old(sendWait)[1..]
    {
      woken := [];
      if sendWait != [] {
        woken, sendWait := [sendWait[0]], sendWait[1..];
      }
    }

    /** The critical section of rt_mb_send_wait once its loop test is reached: append and
        resume a receiver, or report that the box is full (ipc.c:2012-2109).  The overflow
        return is proved unreachable: only a full box refuses. */
    method TrySend(value: Word) returns (sent: bool, woken: seq<Tid>)
      requires Valid()
      modifies this`entry, this`inOffset, this`contents, this`recvWait, pool
      ensures Valid()
      ensures sent <==> |old(contents)| < size
      ensures contents == if sent then old(contents) + [value] else old(contents)
      ensures woken == (if sent && old(recvWait) != [] then [old(recvWait)[0]] else [])
      ensures recvWait == if sent && old(recvWait) != [] then old(recvWait)[1..] else old(recvWait)
    {
      if entry == size { return false, []; }
      pool[inOffset] := value;
      inOffset := inOffset + 1;
      if inOffset >= size {
        inOffset := 0;
      }
      contents := contents + [value];
      if entry < ENTRY_MAX {
        entry := entry + 1;
      } else {
        return false, [];
      }
      woken := ResumeReceiver();
      sent := true;
    }

    /** rt_mb_urgent: step the output offset back, across the wrap, and put the mail there. */
    method Urgent(value: Word) returns (sent: bool, woken: seq<Tid>)
      requires Valid()
      modifies this`entry, this`outOffset, this`contents, this`recvWait, pool
      ensures Valid()
      ensures sent <==> |old(contents)| < size
      ensures contents == if sent then [value] + old(contents) else old(contents)
      ensures woken == (if sent && old(recvWait) != [] then [old(recvWait)[0]] else [])
      ensures recvWait == if sent && old(recvWait) != [] then old(recvWait)[1..] else old(recvWait)
    {
      if entry == size { return false, []; }
      if outOffset > 0 {
        outOffset := outOffset - 1;
      } else {
        outOffset := size - 1;
      }
      pool[outOffset] := value;
      entry := entry + 1;
      contents := [value] + contents;
      woken := ResumeReceiver();
      sent := true;
    }

    /** The critical section of rt_mb_recv: remove the front and resume a sender, or report
        that the box is empty (ipc.c:2257-2355). */
    method TryRecv() returns (got: bool, value: Word, woken: seq<Tid>)
      requires Valid()
      modifies this`entry, this`outOffset, this`contents, this`sendWait
      ensures Valid()
      ensures got <==> old(contents) != []
      ensures got ==> value == old(contents)[0] && contents == old(contents)[1..]
      ensures !got ==> contents == [] && woken == [] && sendWait == old(sendWait)
      ensures got ==> woken == (if old(sendWait) == [] then [] else [old(sendWait)[0]])
      ensures got ==> sendWait == if old(sendWait) == [] then [] else old(sendWait)[1..]
    {
      if entry == 0 { return false, 0, []; }
      value := pool[outOffset];
      outOffset := outOffset + 1;
      if outOffset >= size {
        outOffset := 0;
      }
      if entry > 0 {
        entry := entry - 1;
      }
      contents := contents[1..];
      woken := ResumeSender();
      got := true;
    }

    /** rt_mb_control(RT_IPC_CMD_RESET) */
    method Reset() returns (resumed: seq<Tid>)
      requires Valid()
      modifies this
      ensures Valid() && contents == [] && recvWait == sendWait == []
      ensures resumed == old(recvWait) + old(sendWait)
    {
      resumed := recvWait + sendWait;
      recvWait, sendWait := [], [];
      entry, inOffset, outOffset := 0, 0, 0;
      contents := [];
    }
  }
}
