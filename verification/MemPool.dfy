/** Fixed-block memory pools of rt-thread/src/mempool.c: the free list runs through the
    header words of the free slots, and the header of an allocated slot names the pool.

    Memory and addresses count words.  How threads block on an empty pool is module
    MemPoolModel. */
module MemPool {
  type Tid = nat

  const NULL: nat := 0
  const WRAP: nat := 0x1_0000_0000

  // ------------------------------------------------------------ slot arithmetic

  /** Word offset of slot `i` when a slot takes `span` words. */
  function At(i: nat, span: nat): nat { i * span }

  lemma AtStep(i: nat, span: nat)
    ensures At(i + 1, span) == At(i, span) + span
  {
  }

  lemma {:induction false} AtMonotone(i: nat, j: nat, span: nat)
    requires i < j
    ensures At(i, span) + span <= At(j, span)
    decreases j
  {
    AtStep(i, span);
    if i + 1 < j {
      AtMonotone(i, j - 1, span);
      AtStep(j - 1, span);
    }
  }

  /** Slots are disjoint and in bounds. */
  lemma SlotsApart(total: nat, span: nat)
    requires span > 0
    ensures forall i :: 0 <= i < total ==> At(i, span) + span <= At(total, span)
    ensures forall i, j :: 0 <= i < total && 0 <= j < total && i != j ==>
      At(i, span) + span <= At(j, span) || At(j, span) + span <= At(i, span)
  {
    forall i | 0 <= i < total ensures At(i, span) + span <= At(total, span) { AtMonotone(i, total, span); }
    forall i, j | 0 <= i < total && 0 <= j < total && i != j
      ensures At(i, span) + span <= At(j, span) || At(j, span) + span <= At(i, span)
    {
      if i < j { AtMonotone(i, j, span); } else { AtMonotone(j, i, span); }
    }
  }

  /** block_total_count slots fit the pool. */
  lemma TotalFits(words: nat, span: nat)
    requires span > 0
    ensures At(words / span, span) <= words < At(words / span, span) + span
  {
  }

  /** Byte offset of the word that ends the free list in rt_mp_init, in 32-bit arithmetic. */
  function TerminatorOffset(total: nat, spanBytes: nat): int {
    (((total + WRAP - 1) % WRAP) * spanBytes) % WRAP
  }

  lemma NoSlotTerminator(spanBytes: nat)
    requires 0 < spanBytes < WRAP
    ensures TerminatorOffset(0, spanBytes) == WRAP - spanBytes
  {
    assert (WRAP - 1) * spanBytes == (spanBytes - 1) * WRAP + (WRAP - spanBytes);
    Remainder((WRAP - 1) * spanBytes, spanBytes - 1, WRAP - spanBytes);
  }

  lemma LastSlotTerminator(total: nat, spanBytes: nat)
    requires 0 < total < WRAP && At(total - 1, spanBytes) < WRAP
    ensures TerminatorOffset(total, spanBytes) == At(total - 1, spanBytes)
  {
    Remainder(total + WRAP - 1, 1, total - 1);
    Remainder(At(total - 1, spanBytes), 0, At(total - 1, spanBytes));
  }

  /** rt_mp_init writes the end of the free list inside the pool exactly when the pool holds
      a slot; with none it writes in front of the pool. */
  lemma TerminatorInPool(bytes: nat, spanBytes: nat)
    requires 0 < spanBytes < WRAP && bytes < WRAP
    ensures TerminatorOffset(bytes / spanBytes, spanBytes) + spanBytes <= bytes <==> bytes / spanBytes > 0
  {
    var total := bytes / spanBytes;
    TotalFits(bytes, spanBytes);
    if total == 0 {
      NoSlotTerminator(spanBytes);
    } else {
      AtStep(total - 1, spanBytes);
      TotalBelowWrap(total, spanBytes, bytes);
      LastSlotTerminator(total, spanBytes);
    }
  }

  lemma Remainder(x: int, q: nat, r: nat)
    requires x == q * WRAP + r && r < WRAP
    ensures x % WRAP == r
  {
  }

  lemma TotalBelowWrap(total: nat, spanBytes: nat, bytes: nat)
    requires total > 0 && spanBytes > 0 && At(total, spanBytes) <= bytes < WRAP
    ensures 0 < total < WRAP
  {
    if total > 1 { AtAtLeast(total, spanBytes); }
  }

  lemma {:induction false} AtAtLeast(i: nat, span: nat)
    requires span > 0
    ensures At(i, span) >= i
  {
    if i > 0 { AtAtLeast(i - 1, span); AtStep(i - 1, span); }
  }

  // ------------------------------------------------------ headers and free list

  /** The pool's memory holds `total` slots. */
  ghost predicate Room(h: seq<nat>, span: nat, total: nat) {
    span > 1 && total > 0 && At(total, span) <= |h|
  }

  /** Header word of slot `n`. */
  function Head(h: seq<nat>, span: nat, n: nat): nat {
    if At(n, span) < |h| then h[At(n, span)] else 0
  }

  function Pointer(base: nat, span: nat, n: nat): nat { base + At(n, span) }

  /** What the link of the last slot before `rest` has to be. */
  function First(base: nat, span: nat, rest: seq<nat>): nat {
    if rest == [] then NULL else Pointer(base, span, rest[0])
  }

  ghost predicate Chained(h: seq<nat>, base: nat, span: nat, free: seq<nat>) {
    forall i {:trigger free[i]} :: 0 <= i < |free| ==> Head(h, span, free[i]) == First(base, span, free[i + 1..])
  }

  ghost predicate Stamped(h: seq<nat>, span: nat, self: nat, live: set<nat>) {
    forall n :: n in live ==> Head(h, span, n) == self
  }

  ghost predicate Partition(free: seq<nat>, live: set<nat>, total: nat) {
    && (forall i :: 0 <= i < |free| ==> free[i] < total)
    && (forall i, j :: 0 <= i < j < |free| ==> free[i] != free[j])
    && (forall n :: n in live ==> n < total && n !in free)
    && (forall n :: 0 <= n < total ==> n in free || n in live)
  }

  /** Writing the header of slot `n` changes no other header. */
  lemma HeadWrite(h: seq<nat>, span: nat, total: nat, n: nat, v: nat)
    requires Room(h, span, total) && n < total
    ensures At(n, span) + span <= |h|
    ensures var h' := h[At(n, span) := v];
      && Head(h', span, n) == v && Room(h', span, total)
      && (forall m :: 0 <= m < total && m != n ==> Head(h', span, m) == Head(h, span, m))
  {
    SlotsApart(total, span);
  }

  /** Writing a block word changes no header. */
  lemma BlockWrite(h: seq<nat>, span: nat, total: nat, n: nat, k: nat, v: nat)
    requires Room(h, span, total) && n < total && 0 < k < span
    ensures At(n, span) + k < |h|
    ensures forall m :: 0 <= m < total ==> Head(h[At(n, span) + k := v], span, m) == Head(h, span, m)
  {
    SlotsApart(total, span);
  }

  lemma BlockKeeps(h: seq<nat>, self: nat, base: nat, span: nat, total: nat, free: seq<nat>, live: set<nat>, n: nat, k: nat, v: nat)
    requires Room(h, span, total) && Partition(free, live, total) && n < total && 0 < k < span
    requires Chained(h, base, span, free) && Stamped(h, span, self, live)
    ensures At(n, span) + k < |h|
    ensures var h' := h[At(n, span) + k := v];
      Room(h', span, total) && Chained(h', base, span, free) && Stamped(h', span, self, live)
  {
    BlockWrite(h, span, total, n, k, v);
  }

  lemma BlockKeepsAll(h: seq<nat>, h': seq<nat>, self: nat, base: nat, span: nat, total: nat, free: seq<nat>, live: set<nat>,
                      n: nat, k: nat, at: nat, w: nat)
    requires Room(h, span, total) && Partition(free, live, total) && n in live && 0 < k < span && at == At(n, span) + k < |h|
    requires Chained(h, base, span, free) && Stamped(h, span, self, live) && h' == h[at := w]
    ensures Room(h', span, total) && Chained(h', base, span, free) && Stamped(h', span, self, live)
  {
    BlockKeeps(h, self, base, span, total, free, live, n, k, w);
  }

  lemma PartitionTake(free: seq<nat>, live: set<nat>, total: nat)
    requires Partition(free, live, total) && free != []
    ensures Partition(free[1..], live + {free[0]}, total) && free[0] !in live
  {
    assert free == [free[0]] + free[1..];
  }

  lemma PartitionPut(free: seq<nat>, live: set<nat>, total: nat, n: nat)
    requires Partition(free, live, total) && n in live
    ensures Partition([n] + free, live - {n}, total)
  {
  }

  /** Taking the first slot off the free list and stamping it. */
  lemma TakeHeaders(h: seq<nat>, self: nat, base: nat, span: nat, total: nat, free: seq<nat>, live: set<nat>)
    requires Room(h, span, total) && Partition(free, live, total) && free != []
    requires Chained(h, base, span, free) && Stamped(h, span, self, live)
    ensures At(free[0], span) < |h|
    ensures var h' := h[At(free[0], span) := self];
      && Room(h', span, total) && Chained(h', base, span, free[1..]) && Stamped(h', span, self, live + {free[0]})
      && h[At(free[0], span)] == First(base, span, free[1..])
  {
    var f, rest := free[0], free[1..];
    HeadWrite(h, span, total, f, self);
    PartitionTake(free, live, total);
    forall i {:trigger rest[i]} | 0 <= i < |rest| ensures Head(h[At(f, span) := self], span, rest[i]) == First(base, span, rest[i + 1..]) {
      assert rest[i] == free[i + 1] && free[i + 1 + 1..] == rest[i + 1..];
    }
    assert Head(h, span, free[0]) == First(base, span, free[1..]);
  }

  /** Putting a slot in front of the free list. */
  lemma PutHeaders(h: seq<nat>, self: nat, base: nat, span: nat, total: nat, free: seq<nat>, live: set<nat>, n: nat)
    requires Room(h, span, total) && Partition(free, live, total) && n in live
    requires Chained(h, base, span, free) && Stamped(h, span, self, live)
    ensures At(n, span) < |h| && h[At(n, span)] == self
    ensures var h' := h[At(n, span) := First(base, span, free)];
      Room(h', span, total) && Chained(h', base, span, [n] + free) && Stamped(h', span, self, live - {n})
  {
    HeadWrite(h, span, total, n, First(base, span, free));
    var h', r := h[At(n, span) := First(base, span, free)], [n] + free;
    assert Head(h, span, n) == self;
    forall i {:trigger r[i]} | 0 <= i < |r| ensures Head(h', span, r[i]) == First(base, span, r[i + 1..]) {
      if i == 0 {
        assert r[1..] == free;
      } else {
        assert r[i] == free[i - 1] && r[i + 1..] == free[i - 1 + 1..];
      }
    }
  }

  /** The free list rt_mp_init builds: all slots in address order. */
  lemma AllFree(h: seq<nat>, base: nat, span: nat, total: nat, free: seq<nat>)
    requires |free| == total > 0 && forall i :: 0 <= i < total ==> free[i] == i
    requires forall i :: 0 <= i < total ==> Head(h, span, i) == if i + 1 < total then Pointer(base, span, i + 1) else NULL
    ensures Partition(free, {}, total) && Chained(h, base, span, free) && First(base, span, free) == Pointer(base, span, 0)
  {
    forall n | 0 <= n < total ensures n in free { assert free[n] == n; }
    forall i {:trigger free[i]} | 0 <= i < |free| ensures Head(h, span, free[i]) == First(base, span, free[i + 1..]) {
      assert i + 1 < |free| ==> free[i + 1..][0] == i + 1;
    }
  }

  // ------------------------------------------------------------------- the pool

  class Pool {
    const self: nat         // address of the pool object
    const base: nat         // word address of start_address
    const span: nat         // words of a slot: header and block
    const total: nat        // block_total_count
    const mem: array<nat>
    var blockList: nat
    var freeCount: nat
    var waiting: seq<Tid>
    ghost var free: seq<nat>     // slots on the free list, in its order
    ghost var live: set<nat>     // allocated slots

    /** The free chain and the allocated slots partition the slots of the pool; every
        allocated slot's header names the pool. */
    ghost predicate Valid()
      reads this, mem
    {
      && base > 0 && Room(mem[..], span, total)
      && Partition(free, live, total)
      && freeCount == |free| && blockList == First(base, span, free)
      && Chained(mem[..], base, span, free) && Stamped(mem[..], span, self, live)
    }

    /** rt_mp_init on a pool of at least one slot. */
    constructor (self: nat, base: nat, words: nat, span: nat)
      requires span > 1 && base > 0 && words >= span
      ensures Valid() && this.self == self && total == words / span && mem.Length == words
      ensures live == {} && |free| == total && (forall i :: 0 <= i < total ==> free[i] == i) && waiting == []
    {
      this.self, this.base, this.span, this.total := self, base, span, words / span;
      mem := new nat[words];
      freeCount, blockList, waiting := words / span, base, [];
      live := {};
      free := seq(words / span, i requires 0 <= i => i);
      new;
      TotalFits(words, span);
      TotalPositive(words, span);
      LinkAll();
      AllFree(mem[..], base, span, total, free);
    }

    /** The loop of rt_mp_init: each slot linked to the next, the last one to NULL. */
    method LinkAll()
      requires Room(mem[..], span, total)
      modifies mem
      ensures Room(mem[..], span, total)
      ensures forall i :: 0 <= i < total ==> Head(mem[..], span, i) == if i + 1 < total then Pointer(base, span, i + 1) else NULL
    {
      var offset := 0;
      while offset < total
        invariant 0 <= offset <= total && Room(mem[..], span, total)
        invariant forall i :: 0 <= i < offset ==> Head(mem[..], span, i) == Pointer(base, span, i + 1)
      {
        ghost var h := mem[..];
        var successor := Pointer(base, span, offset + 1);
        HeadWrite(h, span, total, offset, successor);
        mem[At(offset, span)] := successor;
        assert mem[..] == h[At(offset, span) := successor];
        offset := offset + 1;
      }
      ghost var h := mem[..];
      HeadWrite(h, span, total, offset - 1, NULL);
      mem[At(offset - 1, span)] := NULL;
      assert mem[..] == h[At(offset - 1, span) := NULL];
    }

    /** One pass of the loop in rt_mp_alloc: take the first free slot, or NULL when none is
        free (mempool.c:335-401). */
    method TryAlloc() returns (block: nat)
      requires Valid()
      modifies this`blockList, this`freeCount, this`free, this`live, mem
      ensures Valid()
      ensures old(free) == [] ==> block == NULL && free == [] && live == old(live) && mem[..] == old(mem[..])
      ensures old(free) != [] ==> block == Pointer(base, span, old(free)[0]) + 1
      ensures old(free) != [] ==> free == old(free)[1..] && live == old(live) + {old(free)[0]} && old(free)[0] !in old(live)
      ensures old(free) != [] ==> At(old(free)[0], span) < mem.Length && mem[..] == old(mem[..])[At(old(free)[0], span) := self]
    {
      if freeCount == 0 { return NULL; }
      ghost var h := mem[..];
      TakeHeaders(h, self, base, span, total, free, live);
      PartitionTake(free, live, total);
      freeCount := freeCount - 1;
      var ptr := blockList;
      blockList := mem[ptr - base];
      mem[ptr - base] := self;
      assert mem[..] == h[At(free[0], span) := self];
      ghost var m := mem[..];
      live := live + {free[0]};
      free := free[1..];
      assert mem[..] == m;
      block := ptr + 1;
    }

    /** rt_mp_free: the header leads back to this pool; the slot heads the free list and the
        first waiter is resumed. */
    method Free(block: nat, ghost n: nat) returns (pool: nat, woken: seq<Tid>)
      requires Valid() && n in live && block == Pointer(base, span, n) + 1
      modifies this`blockList, this`freeCount, this`free, this`live, this`waiting, mem
      ensures Valid() && pool == self
      ensures free == [n] + old(free) && live == old(live) - {n}
      ensures At(n, span) < mem.Length && mem[..] == old(mem[..])[At(n, span) := mem[At(n, span)]]
      ensures woken == (if old(waiting) == [] then [] else [old(waiting)[0]])
      ensures waiting == if old(waiting) == [] then [] else old(waiting)[1..]
    {
      ghost var h := mem[..];
      PutHeaders(h, self, base, span, total, free, live, n);
      PartitionPut(free, live, total, n);
      var ptr := block - 1;
      var at := ptr - base;
      assert at == At(n, span);
      pool := mem[at];
      mem[at] := blockList;
      assert mem[..] == h[at := blockList];
      ghost var m := mem[..];
      freeCount := freeCount + 1;
      blockList := ptr;
      free := [n] + free;
      live := live - {n};
      woken := [];
      if waiting != [] {
        woken, waiting := [waiting[0]], waiting[1..];
      }
      assert mem[..] == m;
    }

    /** A client's store into its block leaves the pool as it is. */
    method Store(n: nat, k: nat, w: nat)
      requires Valid() && n in live && 0 < k < span && At(n, span) + k < mem.Length
      modifies mem
      ensures Valid() && mem[..] == old(mem[..])[At(n, span) + k := w]
    {
      var at := At(n, span) + k;
      ghost var h := mem[..];
      ghost var h' := h[at := w];
      BlockKeepsAll(h, h', self, base, span, total, free, live, n, k, at, w);
      mem[at] := w;
      assert mem[..] == h';
    }
  }

  lemma TotalPositive(words: nat, span: nat)
    requires span > 0 && words >= span
    ensures words / span > 0 && At(0, span) == 0
  {
  }
}
