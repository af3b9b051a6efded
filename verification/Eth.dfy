/** The copy loops of libraries/HAL_Drivers/drv_eth.c over a ring of DMA buffers. */
module Eth {
  import opened Arithmetic
  import opened EthLayout

  /** memcpy */
  method Memcpy(dst: array<Byte>, at: nat, src: seq<Byte>, from: nat, len: nat)
    requires at + len <= dst.Length && from + len <= |src|
    modifies dst
    ensures Copied(old(dst[..]), dst[..], at, src, from, len)
  {
    for i := 0 to len
      invariant forall x :: 0 <= x < at || at + i <= x < dst.Length ==> dst[x] == old(dst[x])
      invariant forall x :: at <= x < at + i ==> dst[x] == src[from + (x - at)]
    {
      dst[at + i] := src[from + i];
    }
  }

  /** The descriptor `m` steps along the chain, the last pointing back to the first. */
  function Desc(n: nat, start: nat, m: nat): nat {
    if m == 0 then start
    else NextDesc(n, Desc(n, start, m - 1))
  }

  /** The chain is the ring. */
  lemma {:induction false} DescIs(n: nat, start: nat, m: nat)
    requires start < n
    ensures Desc(n, start, m) == (start + m) % n < n
  {
    if m == 0 {
      DivMod(n, 0, start);
    } else {
      DescIs(n, start, m - 1);
      var q, r := Places(n, start + m - 1);
      NextMod(n, q, r, start + m - 1);
      DivMod(n, q, r);
    }
  }

  lemma NextMod(n: nat, q: nat, r: nat, x: nat)
    requires r < n && x == q * n + r
    ensures (x + 1) % n == if r + 1 == n then 0 else r + 1
  {
    if r + 1 == n {
      assert (q + 1) * n == q * n + n;
      DivMod(n, q + 1, 0);
    } else {
      DivMod(n, q, r + 1);
    }
  }

  /** The bytes before the `m`-th buffer. */
  function Before(b: nat, m: nat): nat {
    if m == 0 then 0 else Before(b, m - 1) + b
  }

  lemma {:induction false} BeforeIs(b: nat, m: nat)
    ensures Before(b, m) == m * b
  {
    if m > 0 {
      BeforeIs(b, m - 1);
      assert m * b == (m - 1) * b + b;
    }
  }

  /** The number of descriptors past the first that `w` bytes reach. */
  function LastDesc(b: nat, w: nat): nat
    requires b > 0
  {
    if w <= b then 0 else LastDesc(b, w - b) + 1
  }

  lemma {:induction false} LastDescAt(b: nat, m: nat, off: nat)
    requires 0 < off <= b
    ensures LastDesc(b, Before(b, m) + off) == m
  {
    if m > 0 { LastDescAt(b, m - 1, off); }
  }

  lemma {:induction false} LastDescBeyond(b: nat, m: nat, w: nat)
    requires b > 0 && Before(b, m) < w
    ensures m <= LastDesc(b, w)
  {
    if m > 0 { LastDescBeyond(b, m - 1, w - b); }
  }

  lemma {:induction false} LastDescIs(b: nat, w: nat)
    requires b > 0 && w > 0
    ensures LastDesc(b, w) == (w - 1) / b
    decreases w
  {
    if w <= b {
      DivMod(b, 0, w - 1);
    } else {
      LastDescIs(b, w - b);
      AddMultiple(w - b - 1, 1, b);
    }
  }

  class Ring {
    const n: nat
    const b: nat
    const data: array<Byte>
    var own: seq<bool>
    var tx: nat

    ghost predicate Valid()
      reads this
    {
      n > 0 && b > 0 && data.Length == n * b && |own| == n && tx < n
    }

    constructor (n: nat, b: nat)
      requires n > 0 && b > 0
      ensures Valid() && this.n == n && this.b == b && fresh(data)
    {
      this.n, this.b := n, b;
      data := new Byte[n * b];
      own := seq(n, _ => false);
      tx := 0;
    }

    /** The descriptors up to the `m`-th past the first are the CPU's. */
    ghost predicate FreeTo(m: nat)
      reads this
      requires Valid()
    {
      forall j: nat :: j <= m && Desc(n, tx, j) < n ==> !own[Desc(n, tx, j)]
    }

    lemma OnlyFree(before: seq<Byte>, after: seq<Byte>, frame: seq<Byte>, w: nat, m: nat)
      requires Valid() && Written(n, b, tx, before, after, frame, w)
      requires w == 0 || (FreeTo(m) && w <= Before(b, m) + b)
      ensures OwnRespected(before, after)
    {
      forall x: nat | x < n * b && after[x] != before[x] ensures !Owned(x) {
        assert Used(n, b, tx, w, x);
        var k: nat :| k < w && Slot(n, b, tx, k) == x;
        SlotFree(k, m, x);
      }
    }

    lemma SlotFree(k: nat, m: nat, x: nat)
      requires Valid() && FreeTo(m) && k < Before(b, m) + b && x == Slot(n, b, tx, k)
      ensures !Owned(x)
    {
      var q: nat, r: nat := k / b, k % b;
      assert k == q * b + r;
      DescIs(n, tx, q);
      SlotClosed(n, b, tx, k);
      var d := Desc(n, tx, q);
      assert x == d * b + r;
      BeforeIs(b, m);
      if m < q { MulNext(m, q, b); }
      forall e: nat | e < n && own[e] && e * b <= x < e * b + b ensures false {
        SameMultiple(e, d, b, x - e * b, r);
      }
    }

    /** Address `x` is in a buffer that belongs to the DMA. */
    ghost predicate Owned(x: nat)
      reads this
      requires Valid()
    {
      exists d: nat :: d < n && own[d] && d * b <= x < d * b + b
    }

    ghost predicate OwnRespected(before: seq<Byte>, after: seq<Byte>)
      reads this
      requires Valid()
    {
      && |before| == |after| == n * b
      && forall x: nat :: x < n * b && after[x] != before[x] ==> !Owned(x)
    }

    /** One memcpy of a pbuf's next bytes into the current buffer. */
    method Fill(dmaTxDesc: nat, bufferoffset: nat, q: seq<Byte>, payloadoffset: nat, len: nat,
                ghost before: seq<Byte>, ghost frame: seq<Byte>, ghost m: nat, ghost w: nat, ghost base: nat)
      requires Valid() && Written(n, b, tx, before, data[..], frame, w)
      requires Within(dmaTxDesc, bufferoffset, m, w) && bufferoffset + len <= b
      requires Part(frame, base, q) && w == base + payloadoffset && payloadoffset + len <= |q|
      modifies data
      ensures Written(n, b, tx, before, data[..], frame, w + len)
    {
      RowIn(n, b, dmaTxDesc, b);
      DescIs(n, tx, m);
      BeforeIs(b, m);
      ghost var mid := data[..];
      var at := dmaTxDesc * b + bufferoffset;
      Memcpy(data, at, q, payloadoffset, len);
      PartOf(frame, base, q, payloadoffset, len);
      CopyLands(n, b, tx, mid, data[..], frame, m, bufferoffset, w, q, payloadoffset, len, at);
      CopyStep(n, b, tx, before, mid, data[..], frame, w, q, payloadoffset, len, at);
    }

    lemma FreeNext(m: nat)
      requires Valid() && FreeTo(m) && Desc(n, tx, m + 1) < n && !own[Desc(n, tx, m + 1)]
      ensures FreeTo(m + 1)
    {
      forall j: nat | j <= m + 1 && Desc(n, tx, j) < n ensures !own[Desc(n, tx, j)] {
        if j == m + 1 { assert !own[Desc(n, tx, j)]; }
      }
    }

    /** The `while` loop for one pbuf: fill buffers to the end as long as the rest of the pbuf
        does not fit. */
    method FillBuffers(q: seq<Byte>, dmaTxDesc0: nat, bufferoffset0: nat,
                       ghost before: seq<Byte>, ghost frame: seq<Byte>, ghost m0: nat, ghost base: nat)
      returns (ok: bool, dmaTxDesc: nat, bufferoffset: nat, payloadoffset: nat, ghost m: nat, ghost copied: nat)
      requires Valid() && Written(n, b, tx, before, data[..], frame, base) && Part(frame, base, q)
      requires Cursor(dmaTxDesc0, bufferoffset0, m0, base) && FreeTo(m0)
      modifies data
      ensures Written(n, b, tx, before, data[..], frame, copied) && FreeTo(m)
      ensures if ok then payloadoffset <= |q| && copied == base + payloadoffset && |q| - payloadoffset + bufferoffset <= b
                         && Within(dmaTxDesc, bufferoffset, m, copied)
                         && (copied > 0 && bufferoffset == 0 ==> payloadoffset < |q|)
              else Stuck(m, copied) && base <= copied < base + |q|
    {
      ok, dmaTxDesc, bufferoffset, m, copied := true, dmaTxDesc0, bufferoffset0, m0, base;
      var byteslefttocopy := |q|;
      payloadoffset := 0;
      while byteslefttocopy + bufferoffset > b
        invariant byteslefttocopy == |q| - payloadoffset && copied == base + payloadoffset && payloadoffset <= |q|
        invariant Within(dmaTxDesc, bufferoffset, m, copied) && FreeTo(m)
        invariant copied > 0 && bufferoffset == 0 ==> byteslefttocopy > 0
        invariant Written(n, b, tx, before, data[..], frame, copied)
        decreases byteslefttocopy, bufferoffset
      {
        var len := b - bufferoffset;
        Fill(dmaTxDesc, bufferoffset, q, payloadoffset, len, before, frame, m, copied, base);
        dmaTxDesc := NextDesc(n, dmaTxDesc);
        copied := copied + len;
        assert Desc(n, tx, m + 1) == dmaTxDesc && Before(b, m + 1) == copied;
        if own[dmaTxDesc] {
          ok := false;
          return;
        }
        FreeNext(m);
        byteslefttocopy := byteslefttocopy - len;
        payloadoffset := payloadoffset + len;
        bufferoffset := 0;
        m := m + 1;
      }
    }

    /** All of one pbuf: full buffers, then the rest. */
    method SendPbuf(q: seq<Byte>, dmaTxDesc0: nat, bufferoffset0: nat,
                    ghost before: seq<Byte>, ghost frame: seq<Byte>, ghost m0: nat, ghost base: nat)
      returns (ok: bool, dmaTxDesc: nat, bufferoffset: nat, ghost m: nat, ghost copied: nat)
      requires Valid() && Written(n, b, tx, before, data[..], frame, base) && Part(frame, base, q)
      requires Cursor(dmaTxDesc0, bufferoffset0, m0, base) && FreeTo(m0)
      modifies data
      ensures Written(n, b, tx, before, data[..], frame, copied) && FreeTo(m)
      ensures if ok then copied == base + |q| && Cursor(dmaTxDesc, bufferoffset, m, copied)
              else Stuck(m, copied) && base <= copied < base + |q|
    {
      var payloadoffset;
      ok, dmaTxDesc, bufferoffset, payloadoffset, m, copied := FillBuffers(q, dmaTxDesc0, bufferoffset0, before, frame, m0, base);
      if ok {
        var byteslefttocopy := |q| - payloadoffset;
        Fill(dmaTxDesc, bufferoffset, q, payloadoffset, byteslefttocopy, before, frame, m, copied, base);
        bufferoffset := bufferoffset + byteslefttocopy;
        copied := copied + byteslefttocopy;
      }
    }

    /** The `m`-th buffer is full and the next one belongs to the DMA. */
    ghost predicate Stuck(m: nat, copied: nat)
      reads this
      requires Valid()
    {
      copied == Before(b, m + 1) && Desc(n, tx, m + 1) < n && own[Desc(n, tx, m + 1)]
    }

    /** After `w` bytes the copying is `bufferoffset` into the buffer of the `m`-th descriptor. */
    ghost predicate Within(dmaTxDesc: nat, bufferoffset: nat, m: nat, w: nat)
      reads this
      requires Valid()
    {
      dmaTxDesc == Desc(n, tx, m) < n && w == Before(b, m) + bufferoffset && bufferoffset <= b
    }

    /** Between pbufs a buffer is left only when there is more to put into the next. */
    ghost predicate Cursor(dmaTxDesc: nat, bufferoffset: nat, m: nat, w: nat)
      reads this
      requires Valid()
    {
      Within(dmaTxDesc, bufferoffset, m, w) && (w > 0 ==> bufferoffset > 0)
    }

    /** rt_stm32_eth_tx up to the hand-over to the hardware.  `copied` counts the bytes in the
        ring when the copying stops; on success that is the whole frame. */
    method Transmit(pbufs: seq<seq<Byte>>) returns (ok: bool, framelength: nat, ghost copied: nat)
      requires Valid()
      modifies data
      ensures copied <= |Flatten(pbufs)| && Written(n, b, tx, old(data[..]), data[..], Flatten(pbufs), copied)
      ensures ok ==> copied == framelength == |Flatten(pbufs)|
      ensures !ok ==> StoppedAt(copied)
      ensures ok <==> pbufs == [] || FreeTo(LastDesc(b, |Flatten(pbufs)|))
      ensures OwnRespected(old(data[..]), data[..])
    {
      ghost var frame, before, m := Flatten(pbufs), data[..], 0;
      var dmaTxDesc, bufferoffset := tx, 0;
      framelength, copied := 0, 0;
      for i := 0 to |pbufs|
        invariant copied == framelength == |Flatten(pbufs[..i])| <= |frame|
        invariant Cursor(dmaTxDesc, bufferoffset, m, framelength)
        invariant Written(n, b, tx, before, data[..], frame, framelength)
        invariant if i > 0 then FreeTo(m) else m == 0 && framelength == 0
      {
        var q := pbufs[i];
        FlattenPart(pbufs, i);
        assert Part(frame, framelength, q) by { assert frame[framelength..framelength + |q|] == q; }
        if own[dmaTxDesc] {
          assert m == 0 && framelength == 0;
          BlockedStop(before, data[..], frame);
          return false, framelength, copied;
        }
        ok, dmaTxDesc, bufferoffset, m, copied := SendPbuf(q, dmaTxDesc, bufferoffset, before, frame, m, framelength);
        if !ok {
          StuckStop(before, data[..], frame, copied, m);
          return;
        }
        framelength := framelength + |q|;
      }
      assert pbufs[..|pbufs|] == pbufs;
      if framelength > 0 { LastDescAt(b, m, bufferoffset); }
      OnlyFree(before, data[..], frame, copied, m);
      ok := true;
    }

    /** The copy loops of rt_stm32_eth_rx into a chain of pbufs of the given lengths, from the
        buffer of descriptor `first`. */
    method Receive(first: nat, lens: seq<nat>) returns (pbufs: seq<seq<Byte>>)
      requires Valid() && first < n
      ensures |pbufs| == |lens| && forall i :: 0 <= i < |lens| ==> |pbufs[i]| == lens[i]
      ensures |Flatten(pbufs)| == Sum(lens) && Gathered(n, b, first, data[..], Flatten(pbufs))
    {
      ghost var m: nat := 0;
      var dmarxdesc: nat, bufferoffset: nat := first, 0;
      pbufs := [];
      for i := 0 to |lens|
        invariant |pbufs| == i && forall j :: 0 <= j < i ==> |pbufs[j]| == lens[j]
        invariant Gathered(n, b, first, data[..], Flatten(pbufs))
        invariant dmarxdesc == Desc(n, first, m) < n && |Flatten(pbufs)| == Before(b, m) + bufferoffset && bufferoffset <= b
      {
        ghost var got := Flatten(pbufs);
        var byteslefttocopy: nat := lens[i];
        var payload: seq<Byte> := [];
        while byteslefttocopy + bufferoffset > b
          invariant byteslefttocopy + |payload| == lens[i]
          invariant Gathered(n, b, first, data[..], got + payload)
          invariant dmarxdesc == Desc(n, first, m) < n && |got + payload| == Before(b, m) + bufferoffset && bufferoffset <= b
          decreases byteslefttocopy, bufferoffset
        {
          var chunk := Drain(first, dmarxdesc, bufferoffset, b - bufferoffset, m, got + payload);
          assert got + (payload + chunk) == got + payload + chunk;
          payload := payload + chunk;
          dmarxdesc := NextDesc(n, dmarxdesc);
          byteslefttocopy := byteslefttocopy - (b - bufferoffset);
          bufferoffset := 0;
          m := m + 1;
          assert Desc(n, first, m) == dmarxdesc;
        }
        var chunk := Drain(first, dmarxdesc, bufferoffset, byteslefttocopy, m, got + payload);
        assert got + (payload + chunk) == got + payload + chunk;
        FlattenConcat(pbufs, [payload + chunk]);
        FlattenOne(payload + chunk);
        pbufs := pbufs + [payload + chunk];
        bufferoffset := bufferoffset + byteslefttocopy;
      }
      FlattenLength(pbufs, lens);
    }

    /** One memcpy out of the current buffer. */
    method Drain(first: nat, dmarxdesc: nat, bufferoffset: nat, len: nat, ghost m: nat, ghost got: seq<Byte>) returns (chunk: seq<Byte>)
      requires Valid() && dmarxdesc == Desc(n, first, m) && first < n && bufferoffset + len <= b
      requires Gathered(n, b, first, data[..], got) && |got| == Before(b, m) + bufferoffset
      ensures |chunk| == len && Gathered(n, b, first, data[..], got + chunk)
    {
      DescIs(n, first, m);
      BeforeIs(b, m);
      RowIn(n, b, dmarxdesc, b);
      var at := dmarxdesc * b + bufferoffset;
      chunk := data[at..at + len];
      GatherStep(n, b, first, data[..], got, m, bufferoffset, len, at);
      assert data[..][at..at + len] == chunk;
    }

    /** The received frame's buffers go back to the DMA. */
    method Release(first: nat, segCount: nat)
      requires Valid() && first < n
      modifies this`own
      ensures Valid()
      ensures forall d :: 0 <= d < n ==> (own[d] <==> old(own)[d] || exists i: nat :: i < segCount && Desc(n, first, i) == d)
    {
      var dmarxdesc := first;
      for i := 0 to segCount
        invariant |own| == n && dmarxdesc == Desc(n, first, i) < n
        invariant forall d :: 0 <= d < n ==> (own[d] <==> old(own)[d] || exists j: nat :: j < i && Desc(n, first, j) == d)
      {
        own := own[dmarxdesc := true];
        dmarxdesc := NextDesc(n, dmarxdesc);
        assert Desc(n, first, i + 1) == dmarxdesc;
      }
    }

    /** With the MAC looped back, receiving gives what was sent, for every way to cut the frame
        into pbufs on either side. */
    method Loopback(pbufs: seq<seq<Byte>>, lens: seq<nat>) returns (ok: bool, received: seq<seq<Byte>>)
      requires Valid() && Sum(lens) == |Flatten(pbufs)| <= n * b
      modifies data
      ensures ok <==> pbufs == [] || FreeTo(LastDesc(b, |Flatten(pbufs)|))
      ensures ok ==> Flatten(received) == Flatten(pbufs) && |received| == |lens|
      ensures ok ==> forall i :: 0 <= i < |lens| ==> |received[i]| == lens[i]
    {
      received := [];
      ghost var before := data[..];
      var framelength: nat;
      ghost var copied: nat;
      ok, framelength, copied := Transmit(pbufs);
      if ok {
        received := Receive(tx, lens);
        forall k: nat | k < |Flatten(pbufs)| ensures Slot(n, b, tx, k) < n * b { SlotIn(n, b, tx, k); }
        RoundTrip(n, n, b, tx, tx, before, data[..], data[..], Flatten(pbufs), Flatten(received));
      }
    }

    /** The copying stops in front of the first buffer that belongs to the DMA. */
    ghost predicate StoppedAt(copied: nat)
      reads this
      requires Valid()
    {
      exists j: nat :: copied == Before(b, j) && Desc(n, tx, j) < n && own[Desc(n, tx, j)] && (j > 0 ==> FreeTo(j - 1))
    }

    /** The first buffer belongs to the DMA: nothing is copied. */
    lemma BlockedStop(before: seq<Byte>, after: seq<Byte>, frame: seq<Byte>)
      requires Valid() && Written(n, b, tx, before, after, frame, 0) && own[tx]
      ensures !FreeTo(LastDesc(b, |frame|)) && StoppedAt(0) && OwnRespected(before, after)
    {
      assert Desc(n, tx, 0) == tx && Before(b, 0) == 0;
      OnlyFree(before, after, frame, 0, 0);
    }

    /** A later buffer belongs to the DMA: the copying stops in front of it. */
    lemma StuckStop(before: seq<Byte>, after: seq<Byte>, frame: seq<Byte>, copied: nat, m: nat)
      requires Valid() && Written(n, b, tx, before, after, frame, copied) && Stuck(m, copied) && FreeTo(m) && copied < |frame|
      ensures !FreeTo(LastDesc(b, |frame|)) && StoppedAt(copied) && OwnRespected(before, after)
    {
      LastDescBeyond(b, m + 1, |frame|);
      assert StoppedAt(copied) by { assert own[Desc(n, tx, m + 1)] && FreeTo(m + 1 - 1); }
      OnlyFree(before, after, frame, copied, m);
    }
  }

  lemma {:induction false} FlattenOne(q: seq<Byte>)
    ensures Flatten([q]) == q
  {
    assert [q][1..] == [];
  }

  lemma {:induction false} FlattenLength(pbufs: seq<seq<Byte>>, lens: seq<nat>)
    requires |pbufs| == |lens| && forall i :: 0 <= i < |lens| ==> |pbufs[i]| == lens[i]
    ensures |Flatten(pbufs)| == Sum(lens)
  {
    if pbufs != [] { FlattenLength(pbufs[1..], lens[1..]); }
  }

  ghost predicate Part(frame: seq<Byte>, base: nat, q: seq<Byte>) {
    base + |q| <= |frame| && forall j :: 0 <= j < |q| ==> q[j] == frame[base + j]
  }

  lemma PartOf(frame: seq<Byte>, base: nat, q: seq<Byte>, from: nat, len: nat)
    requires Part(frame, base, q) && from + len <= |q|
    ensures q[from..from + len] == frame[base + from..base + from + len]
  {
    var part := frame[base + from..base + from + len];
    assert forall i :: 0 <= i < len ==> part[i] == q[from + i];
  }
}
