/** Where libraries/HAL_Drivers/drv_eth.c puts a frame: a ring of `n` buffers of `b` bytes, one
    behind the other in memory, filled from the buffer of descriptor `start`. */
module EthLayout {
  import opened Arithmetic

  type Byte = bv8

  ghost function Flatten(pbufs: seq<seq<Byte>>): seq<Byte> {
    if pbufs == [] then [] else pbufs[0] + Flatten(pbufs[1..])
  }

  function Sum(lens: seq<nat>): nat {
    if lens == [] then 0 else lens[0] + Sum(lens[1..])
  }

  /** The descriptor chain: each points to the next, the last to the first. */
  function NextDesc(n: nat, d: nat): nat { if d + 1 == n then 0 else d + 1 }

  /** The address of byte `k` of a frame: whole buffers are passed along the chain. */
  function Slot(n: nat, b: nat, start: nat, k: nat): nat
    requires b > 0
    decreases k
  {
    if k < b then start * b + k else Slot(n, b, NextDesc(n, start), k - b)
  }

  // -------------------------------------------------------------- arithmetic

  lemma QuotientsClose(p: nat, q: nat, n: nat, b: nat)
    requires p * b < q * b < p * b + n * b
    ensures p < q < p + n
  {
    if q <= p { MulMono(q, p, b); }
    assert (p + n) * b == p * b + n * b;
    if p + n <= q { MulMono(p + n, q, b); }
  }

  lemma RowIn(n: nat, b: nat, d: nat, r: nat)
    requires d < n && r <= b
    ensures d * b + r <= n * b
  {
    MulNext(d, n, b);
  }

  /** Byte `k` is in the buffer k / b past the first, at offset k % b. */
  lemma {:induction false} SlotClosed(n: nat, b: nat, start: nat, k: nat)
    requires start < n && b > 0
    ensures Slot(n, b, start, k) == (start + k / b) % n * b + k % b
    decreases k
  {
    if k < b {
      DivMod(b, 0, k);
      DivMod(n, 0, start);
    } else {
      var q: nat := (k - b) / b;
      SlotClosed(n, b, NextDesc(n, start), k - b);
      AddMultiple(k - b, 1, b);
      if start + 1 == n { AddMultiple(q, 1, n); }
    }
  }

  lemma SlotAt(n: nat, b: nat, start: nat, m: nat, r: nat)
    requires start < n && r < b
    ensures Slot(n, b, start, m * b + r) == (start + m) % n * b + r < n * b
  {
    var k: nat := m * b + r;
    DivMod(b, m, r);
    SlotClosed(n, b, start, k);
    var d: nat := (start + m) % n;
    assert Slot(n, b, start, k) == d * b + r;
    RowIn(n, b, d, r + 1);
  }

  lemma SlotIn(n: nat, b: nat, start: nat, k: nat)
    requires start < n && b > 0
    ensures Slot(n, b, start, k) < n * b
  {
    SlotClosed(n, b, start, k);
    RowIn(n, b, (start + k / b) % n, k % b + 1);
  }

  lemma ModDistinct(n: nat, x: nat, y: nat)
    requires n > 0 && x < y < x + n
    ensures x % n != y % n
  {
    var p: nat, q: nat := x / n, y / n;
    if p < q { MulNext(p, q, n); }
    if q < p { MulNext(q, p, n); }
  }

  lemma PlacesDistinct(n: nat, b: nat, start: nat, p: nat, r: nat, q: nat, s: nat)
    requires start < n && r < b && s < b && p * b + r < q * b + s < p * b + r + n * b
    ensures Slot(n, b, start, p * b + r) != Slot(n, b, start, q * b + s)
  {
    SlotAt(n, b, start, p, r);
    SlotAt(n, b, start, q, s);
    var d: nat, e: nat := (start + p) % n, (start + q) % n;
    if d * b + r == e * b + s {
      SameMultiple(d, e, b, r, s);
      QuotientsClose(p, q, n, b);
      ModDistinct(n, start + p, start + q);
    }
  }

  lemma Places(b: nat, k: nat) returns (q: nat, r: nat)
    requires b > 0
    ensures k == q * b + r && r < b
  {
    q, r := k / b, k % b;
  }

  /** Two bytes less than a ring apart never share a slot. */
  lemma SlotsDistinct(n: nat, b: nat, start: nat, j: nat, k: nat)
    requires start < n && b > 0 && j < k < j + n * b
    ensures Slot(n, b, start, j) != Slot(n, b, start, k)
  {
    var p, r := Places(b, j);
    var q, s := Places(b, k);
    PlacesDistinct(n, b, start, p, r, q, s);
  }

  lemma PlaceShared(n: nat, b: nat, start: nat, q: nat, r: nat)
    requires start < n && r < b
    ensures Slot(n, b, start, (q + n) * b + r) == Slot(n, b, start, q * b + r)
  {
    SlotAt(n, b, start, q, r);
    SlotAt(n, b, start, q + n, r);
    AddMultiple(start + q, 1, n);
  }

  /** Bytes a whole ring apart share one. */
  lemma SlotsShared(n: nat, b: nat, start: nat, k: nat)
    requires start < n && b > 0
    ensures Slot(n, b, start, k + n * b) == Slot(n, b, start, k)
  {
    var q, r := Places(b, k);
    PlaceShared(n, b, start, q, r);
    MulAdd(q, n, b);
  }

  // ------------------------------------------------------------------ frames

  /** The first `w` bytes of `frame` have been laid down over `before`: the last ring-full of
      them is in its slots, and slots no byte belongs to are as they were. */
  ghost predicate Written(n: nat, b: nat, start: nat, before: seq<Byte>, after: seq<Byte>, frame: seq<Byte>, w: nat) {
    && start < n && b > 0 && w <= |frame|
    && |before| == |after| == n * b
    && (forall k: nat {:trigger Slot(n, b, start, k)} :: w - n * b <= k < w ==>
          Slot(n, b, start, k) < n * b && after[Slot(n, b, start, k)] == frame[k])
    && (forall x: nat {:trigger after[x]} :: x < n * b && after[x] != before[x] ==> Used(n, b, start, w, x))
  }

  /** Slot `x` belongs to one of the first `w` bytes. */
  ghost predicate Used(n: nat, b: nat, start: nat, w: nat, x: nat)
    requires start < n && b > 0
  {
    exists k: nat :: k < w && Slot(n, b, start, k) == x
  }

  /** Every byte of the frame is in its slot. */
  ghost predicate InPlace(n: nat, b: nat, start: nat, mem: seq<Byte>, frame: seq<Byte>) {
    && start < n && b > 0 && |mem| == n * b
    && forall k: nat {:trigger Slot(n, b, start, k)} :: k < |frame| ==>
         Slot(n, b, start, k) < n * b && mem[Slot(n, b, start, k)] == frame[k]
  }

  /** memcpy of `len` bytes of `src` from `from` to address `at`. */
  ghost predicate Copied(mid: seq<Byte>, after: seq<Byte>, at: nat, src: seq<Byte>, from: nat, len: nat) {
    && |after| == |mid| && from + len <= |src| && at + len <= |mid|
    && (forall x :: 0 <= x < at || at + len <= x < |mid| ==> after[x] == mid[x])
    && forall x :: at <= x < at + len ==> after[x] == src[from + (x - at)]
  }

  /** The copied bytes land in the slots of the next bytes of the frame. */
  ghost predicate Lands(n: nat, b: nat, start: nat, after: seq<Byte>, frame: seq<Byte>, w: nat, len: nat, at: nat) {
    && start < n && b > 0 && w + len <= |frame|
    && forall k: nat {:trigger Slot(n, b, start, k)} :: w <= k < w + len ==>
         Slot(n, b, start, k) == at + (k - w) < |after| && after[at + (k - w)] == frame[k]
  }

  lemma CopyLands(n: nat, b: nat, start: nat, mid: seq<Byte>, after: seq<Byte>, frame: seq<Byte>,
                  m: nat, off: nat, w: nat, src: seq<Byte>, from: nat, len: nat, at: nat)
    requires start < n && b > 0 && w == m * b + off && off + len <= b
    requires at == (start + m) % n * b + off && Copied(mid, after, at, src, from, len)
    requires w + len <= |frame| && src[from..from + len] == frame[w..w + len]
    ensures Lands(n, b, start, after, frame, w, len, at)
  {
    forall k: nat | w <= k < w + len
      ensures Slot(n, b, start, k) == at + (k - w) < |after| && after[at + (k - w)] == frame[k]
    {
      SlotAt(n, b, start, m, off + (k - w));
      assert src[from..from + len][k - w] == frame[w..w + len][k - w];
    }
  }

  /** Bytes within a ring of the copied ones are not overwritten. */
  lemma CopySpares(n: nat, b: nat, start: nat, after: seq<Byte>, frame: seq<Byte>, w: nat, len: nat, at: nat, k: nat)
    requires Lands(n, b, start, after, frame, w, len, at) && k < w && w + len <= k + n * b
    ensures Slot(n, b, start, k) < at || at + len <= Slot(n, b, start, k)
  {
    var x := Slot(n, b, start, k);
    if at <= x < at + len {
      var j := w + (x - at);
      assert Slot(n, b, start, j) == x;
      SlotsDistinct(n, b, start, k, j);
    }
  }

  /** A copy into the rest of one buffer lays down the next `len` bytes of the frame. */
  lemma CopyStep(n: nat, b: nat, start: nat, before: seq<Byte>, mid: seq<Byte>, after: seq<Byte>, frame: seq<Byte>,
                 w: nat, src: seq<Byte>, from: nat, len: nat, at: nat)
    requires Written(n, b, start, before, mid, frame, w) && Copied(mid, after, at, src, from, len)
    requires Lands(n, b, start, after, frame, w, len, at)
    ensures Written(n, b, start, before, after, frame, w + len)
  {
    forall k: nat | w + len - n * b <= k < w + len
      ensures Slot(n, b, start, k) < n * b && after[Slot(n, b, start, k)] == frame[k]
    {
      SlotIn(n, b, start, k);
      if k < w { CopySpares(n, b, start, after, frame, w, len, at, k); }
    }
    forall x: nat | x < n * b && after[x] != before[x] ensures Used(n, b, start, w + len, x) {
      if at <= x < at + len {
        var k := w + (x - at);
        assert Slot(n, b, start, k) == x;
      } else {
        assert mid[x] != before[x];
        assert Used(n, b, start, w, x);
      }
    }
  }

  /** `got` is what the ring holds, read from the buffer of descriptor `start` on. */
  ghost predicate Gathered(n: nat, b: nat, start: nat, mem: seq<Byte>, got: seq<Byte>) {
    && start < n && b > 0 && |mem| == n * b
    && forall k: nat {:trigger Slot(n, b, start, k)} :: k < |got| ==>
         Slot(n, b, start, k) < n * b && got[k] == mem[Slot(n, b, start, k)]
  }

  lemma GatherStep(n: nat, b: nat, start: nat, mem: seq<Byte>, got: seq<Byte>, m: nat, off: nat, len: nat, at: nat)
    requires Gathered(n, b, start, mem, got) && |got| == m * b + off && off + len <= b
    requires at == (start + m) % n * b + off && at + len <= |mem|
    ensures Gathered(n, b, start, mem, got + mem[at..at + len])
  {
    var all := got + mem[at..at + len];
    forall k: nat | k < |all| ensures Slot(n, b, start, k) < n * b && all[k] == mem[Slot(n, b, start, k)] {
      if k >= |got| { SlotAt(n, b, start, m, off + (k - |got|)); }
    }
  }

  /** Byte `k` of a frame of `len` bytes is the same in a ring of `n` buffers from `tx` on and
      in one of `n'` buffers from `rx` on. */
  ghost predicate Carried(n: nat, n': nat, b: nat, tx: nat, rx: nat, sent: seq<Byte>, received: seq<Byte>, len: nat)
    requires b > 0
  {
    forall k: nat {:trigger Slot(n, b, tx, k)} {:trigger Slot(n', b, rx, k)} :: k < len ==>
      && Slot(n, b, tx, k) < |sent| && Slot(n', b, rx, k) < |received|
      && received[Slot(n', b, rx, k)] == sent[Slot(n, b, tx, k)]
  }

  /** What was sent is what is received, however the frame was cut up on either side, however
      many buffers the two rings have and wherever they started, if the wire carries the frame
      from ring to ring. */
  lemma RoundTrip(n: nat, n': nat, b: nat, tx: nat, rx: nat, before: seq<Byte>, sent: seq<Byte>, received: seq<Byte>,
                  frame: seq<Byte>, got: seq<Byte>)
    requires Written(n, b, tx, before, sent, frame, |frame|) && |frame| <= n * b
    requires Gathered(n', b, rx, received, got) && |got| == |frame|
    requires Carried(n, n', b, tx, rx, sent, received, |frame|)
    ensures got == frame
  {
    forall k: nat | k < |frame| ensures got[k] == frame[k] {
      assert received[Slot(n', b, rx, k)] == sent[Slot(n, b, tx, k)];
    }
  }

  // -------------------------------------------------- exactly when it is right

  lemma FitsInPlace(n: nat, b: nat, start: nat, before: seq<Byte>, after: seq<Byte>, frame: seq<Byte>)
    requires Written(n, b, start, before, after, frame, |frame|) && |frame| <= n * b
    ensures InPlace(n, b, start, after, frame)
  {
  }

  /** Frames of a given length arrive in place, whatever their bytes, exactly when the length
      does not exceed the ring: a longer frame runs over its own beginning. */
  lemma InPlaceIff(n: nat, b: nat, start: nat, len: nat)
    requires start < n && b > 0
    ensures (forall before, after, frame :: |frame| == len && Written(n, b, start, before, after, frame, len)
               ==> InPlace(n, b, start, after, frame))
       <==> len <= n * b
  {
    if len <= n * b {
      forall before, after, frame | |frame| == len && Written(n, b, start, before, after, frame, len)
        ensures InPlace(n, b, start, after, frame)
      {
        FitsInPlace(n, b, start, before, after, frame);
      }
    } else {
      Overrun(n, b, start, len);
    }
  }

  /** A frame one byte longer than the ring, or more, that differs in two bytes one ring
      apart, cannot have both in place; such a frame can be written. */
  lemma Overrun(n: nat, b: nat, start: nat, len: nat)
    requires start < n && b > 0 && len > n * b
    ensures exists before, after, frame :: |frame| == len && Written(n, b, start, before, after, frame, len)
              && !InPlace(n, b, start, after, frame)
  {
    var before, ring := seq(n * b, _ => 1 as Byte), n * b;
    var last := len - 1;
    var frame := seq(len, k => if k == last then 0 as Byte else 1);
    SlotIn(n, b, start, last);
    var after := before[Slot(n, b, start, last) := 0];
    forall k: nat | len - ring <= k < len
      ensures Slot(n, b, start, k) < ring && after[Slot(n, b, start, k)] == frame[k]
    {
      SlotIn(n, b, start, k);
      if k < last { SlotsDistinct(n, b, start, k, last); }
    }
    forall x: nat | x < ring && after[x] != before[x] ensures Used(n, b, start, len, x) { }
    assert Written(n, b, start, before, after, frame, len);
    SlotsShared(n, b, start, last - ring);
    assert frame[last - ring] != after[Slot(n, b, start, last - ring)];
    assert !InPlace(n, b, start, after, frame);
  }

  // ---------------------------------------------------------------- segments

  lemma {:induction false} FlattenPart(pbufs: seq<seq<Byte>>, i: nat)
    requires i < |pbufs|
    ensures var w := |Flatten(pbufs[..i])|;
      && |Flatten(pbufs[..i + 1])| == w + |pbufs[i]| <= |Flatten(pbufs)|
      && Flatten(pbufs)[w..w + |pbufs[i]|] == pbufs[i]
  {
    FlattenConcat(pbufs[..i], [pbufs[i]]);
    FlattenConcat(pbufs[..i + 1], pbufs[i + 1..]);
    assert pbufs[..i] + [pbufs[i]] == pbufs[..i + 1];
    assert pbufs[..i + 1] + pbufs[i + 1..] == pbufs;
    assert [pbufs[i]][1..] == [] && Flatten([pbufs[i]]) == pbufs[i];
  }

  lemma {:induction false} FlattenConcat(p: seq<seq<Byte>>, q: seq<seq<Byte>>)
    ensures Flatten(p + q) == Flatten(p) + Flatten(q)
  {
    if p == [] {
      assert p + q == q;
    } else {
      FlattenConcat(p[1..], q);
      assert (p + q)[1..] == p[1..] + q;
    }
  }
}
