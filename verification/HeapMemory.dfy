/** How a block layout is stored in heap memory: boundary tags inside the arena, and the
    effect on them of the few word writes each heap operation makes. */
module HeapMemory {
  import opened HeapLayout

  /** The arena, one entry a 4-byte word; a header is pool_ptr, next, prev. */
  type Memory = seq<nat>

  /** pool_ptr: the heap object's address, lowest bit set when the block is used. */
  function Tag(addr: nat, used: bool): nat { if used then addr + 1 else addr }

  function PrevOff(bs: Layout, i: nat): nat
    requires i < |bs|
  {
    if i == 0 then 0 else bs[i - 1].off
  }

  ghost predicate Header(h: Memory, addr: nat, bs: Layout, i: nat)
    requires i < |bs|
  {
    && bs[i].off + 2 < |h|
    && h[bs[i].off] == Tag(addr, bs[i].used)
    && h[bs[i].off + 1] == bs[i].next
    && h[bs[i].off + 2] == PrevOff(bs, i)
  }

  /** Memory `h` holds layout `bs`: every block's header and the used end marker whose
      `next` is itself.  The end marker's `prev` is not maintained by mem.c. */
  ghost predicate Stored(h: Memory, addr: nat, bs: Layout, end: nat) {
    && addr % 2 == 0 && |h| == end + HDR
    && h[end] == Tag(addr, true) && h[end + 1] == end
    && (forall i :: 0 <= i < |bs| ==> Header(h, addr, bs, i))
  }

  lemma {:induction false} SameBlock(h: Memory, addr: nat, bs: Layout, cs: Layout, end: nat, k: nat)
    requires Tiled(bs, end) && Tiled(cs, end) && Stored(h, addr, bs, end) && Stored(h, addr, cs, end)
    requires k < |bs| && k < |cs|
    ensures bs[k] == cs[k]
  {
    if k > 0 { SameBlock(h, addr, bs, cs, end, k - 1); }
    assert Header(h, addr, bs, k) && Header(h, addr, cs, k);
  }

  /** The tags determine the layout: memory that is unchanged holds the same blocks. */
  lemma StoredUnique(h: Memory, addr: nat, bs: Layout, cs: Layout, end: nat)
    requires Tiled(bs, end) && Tiled(cs, end) && Stored(h, addr, bs, end) && Stored(h, addr, cs, end)
    ensures bs == cs
  {
    forall k | 0 <= k < |bs| && k < |cs| ensures bs[k] == cs[k] {
      SameBlock(h, addr, bs, cs, end, k);
    }
    if |bs| < |cs| { SameLength(bs, cs, end); }
    if |cs| < |bs| { SameLength(cs, bs, end); }
  }

  lemma SameLength(bs: Layout, cs: Layout, end: nat)
    requires Tiled(bs, end) && Tiled(cs, end) && |bs| <= |cs| && forall k :: 0 <= k < |bs| ==> bs[k] == cs[k]
    ensures |bs| == |cs|
  {
    if |bs| < |cs| { Ordered(cs, end, |bs| - 1, |cs| - 1); }
  }

  /** `h'` differs from `h` at most at the listed words. */
  ghost predicate SameBut(h: Memory, h': Memory, at: set<nat>) {
    |h'| == |h| && forall k :: 0 <= k < |h| && k !in at ==> h'[k] == h[k]
  }

  /** The user words of a live block. */
  function Payload(h: Memory, b: Block): seq<nat>
    requires b.off + HDR <= b.next <= |h|
  {
    h[b.off + HDR..b.next]
  }

  /** Headers lie apart: word `k` of header `i` is not in header `j`. */
  lemma HeadersApart(bs: Layout, end: nat, i: nat)
    requires Tiled(bs, end) && i < |bs|
    ensures forall j :: 0 <= j < |bs| && j != i ==> bs[j].off + HDR <= bs[i].off || bs[i].next <= bs[j].off
    ensures forall j :: i < j < |bs| ==> bs[i].next <= bs[j].off
    ensures forall j :: 0 <= j < i ==> bs[j].next <= bs[i].off
  {
    forall j | 0 <= j < |bs| && j != i
      ensures if j < i then bs[j].off + HDR <= bs[j].next <= bs[i].off else bs[i].next <= bs[j].off
    {
      if j < i { Ordered(bs, end, j, i); } else { Ordered(bs, end, i, j); }
    }
  }

  lemma StoredMark(h: Memory, h': Memory, addr: nat, bs: Layout, end: nat, i: nat, used: bool)
    requires Tiled(bs, end) && Stored(h, addr, bs, end) && i < |bs|
    requires SameBut(h, h', {bs[i].off}) && h'[bs[i].off] == Tag(addr, used)
    ensures Stored(h', addr, bs[i := bs[i].(used := used)], end)
  {
    HeadersApart(bs, end, i);
    var r := bs[i := bs[i].(used := used)];
    forall j | 0 <= j < |r| ensures Header(h', addr, r, j) {
      assert Header(h, addr, bs, j);
    }
  }

  /** The writes of a split (mem.c:337-352 and 469-484). */
  ghost predicate SplitWrites(h: Memory, h': Memory, addr: nat, b: Block, end: nat, size: nat) {
    var cut := b.off + HDR + size;
    && |h'| == |h| == end + HDR && cut + HDR <= b.next <= end
    && (forall k :: 0 <= k < |h| && !(cut <= k < cut + HDR) && k != b.off + 1 && !(k == b.next + 2 && b.next != end)
          ==> h'[k] == h[k])
    && h'[cut] == addr && h'[cut + 1] == b.next && h'[cut + 2] == b.off && h'[b.off + 1] == cut
    && (b.next != end ==> h'[b.next + 2] == cut)
  }

  lemma HeaderAfterSplit(h: Memory, h': Memory, addr: nat, bs: Layout, end: nat, i: nat, size: nat, r: Layout, j: nat)
    requires Tiled(bs, end) && Stored(h, addr, bs, end) && i < |bs| && bs[i].used && size > 0
    requires bs[i].off + HDR + size + HDR < bs[i].next && SplitWrites(h, h', addr, bs[i], end, size)
    requires IsSplit(bs, i, size, r) && j < |bs| && j != i
    ensures Header(h', addr, r, if j < i then j else j + 1)
  {
    assert Header(h, addr, bs, j);
    if j < i { Ordered(bs, end, j, i); } else { Ordered(bs, end, i, j); }
    if j > i + 1 { Ordered(bs, end, i + 1, j); }
  }

  lemma HeadersAtCut(h: Memory, h': Memory, addr: nat, bs: Layout, end: nat, i: nat, size: nat, r: Layout)
    requires Stored(h, addr, bs, end) && i < |bs| && bs[i].used && size > 0
    requires bs[i].off + HDR + size + HDR < bs[i].next && SplitWrites(h, h', addr, bs[i], end, size)
    requires IsSplit(bs, i, size, r)
    ensures Header(h', addr, r, i) && Header(h', addr, r, i + 1)
  {
    assert Header(h, addr, bs, i);
    assert i > 0 ==> r[i - 1] == bs[i - 1];
  }

  lemma StoredSplit(h: Memory, h': Memory, addr: nat, bs: Layout, end: nat, i: nat, size: nat)
    requires Tiled(bs, end) && Stored(h, addr, bs, end) && i < |bs| && bs[i].used && size > 0
    requires bs[i].off + HDR + size + HDR < bs[i].next && SplitWrites(h, h', addr, bs[i], end, size)
    ensures Stored(h', addr, SplitAt(bs, i, size), end)
  {
    SplitIs(bs, i, size);
    var r := SplitAt(bs, i, size);
    EndMarkerKept(h, h', addr, bs, end, i, size);
    HeadersAtCut(h, h', addr, bs, end, i, size, r);
    forall j | 0 <= j < |r| ensures Header(h', addr, r, j) {
      if j < i { HeaderAfterSplit(h, h', addr, bs, end, i, size, r, j); }
      if j > i + 1 { HeaderAfterSplit(h, h', addr, bs, end, i, size, r, j - 1); }
    }
  }

  lemma EndMarkerKept(h: Memory, h': Memory, addr: nat, bs: Layout, end: nat, i: nat, size: nat)
    requires Tiled(bs, end) && i < |bs| && |h| == end + HDR && SplitWrites(h, h', addr, bs[i], end, size)
    ensures h'[end] == h[end] && h'[end + 1] == h[end + 1]
  {
    assert i + 1 < |bs| ==> bs[i].next + HDR == bs[i + 1].off + HDR <= end;
  }

  /** The writes of one coalescing step of plug_holes (mem.c:145-147 and 159-161). */
  ghost predicate MergeWrites(h: Memory, h': Memory, bs: Layout, i: nat)
    requires i + 1 < |bs|
  {
    var m, n := bs[i].off, bs[i + 1].next;
    && |h'| == |h| && m + 1 < |h| && n + 2 < |h|
    && (forall k :: 0 <= k < |h| && k != m + 1 && k != bs[i + 1].off && k != n + 2 ==> h'[k] == h[k])
    && h'[m + 1] == n && h'[n + 2] == m
  }

  lemma HeaderAfterMerge(h: Memory, h': Memory, addr: nat, bs: Layout, end: nat, i: nat, r: Layout, j: nat)
    requires Tiled(bs, end) && Stored(h, addr, bs, end) && i + 1 < |bs| && !bs[i].used
    requires MergeWrites(h, h', bs, i) && IsMerge(bs, i, r) && j < |bs| && j != i + 1
    ensures Header(h', addr, r, if j <= i then j else j - 1)
  {
    assert Header(h, addr, bs, j);
    Ordered(bs, end, i, i + 1);
    if j < i { Ordered(bs, end, j, i); }
    if j > i + 1 { Ordered(bs, end, i + 1, j); }
    if j > i + 2 { Ordered(bs, end, i + 2, j); }
  }

  lemma StoredMerge(h: Memory, h': Memory, addr: nat, bs: Layout, end: nat, i: nat, r: Layout)
    requires Tiled(bs, end) && Stored(h, addr, bs, end) && i + 1 < |bs| && !bs[i].used
    requires MergeWrites(h, h', bs, i) && IsMerge(bs, i, r)
    ensures Stored(h', addr, r, end)
  {
    assert i + 2 < |bs| ==> bs[i + 1].next == bs[i + 2].off && bs[i + 2].off + HDR <= end;
    forall j | 0 <= j < |r| ensures Header(h', addr, r, j) {
      HeaderAfterMerge(h, h', addr, bs, end, i, r, if j <= i then j else j + 1);
    }
  }

  lemma MergeKeepsPayload(h: Memory, h': Memory, bs: Layout, end: nat, i: nat)
    requires Tiled(bs, end) && i + 1 < |bs| && !bs[i].used && !bs[i + 1].used && MergeWrites(h, h', bs, i)
    ensures KeepsPayload(h, h', bs, {})
  {
    HeadersApart(bs, end, i);
    HeadersApart(bs, end, i + 1);
    if i + 2 < |bs| { HeadersApart(bs, end, i + 2); }
  }

  /** Every live block of `bs` but those at `except` has in `h'` the user words it has in `h`. */
  ghost predicate KeepsPayload(h: Memory, h': Memory, bs: Layout, except: set<int>) {
    && |h'| == |h|
    && forall b {:trigger Payload(h', b)} :: b in bs && b.used && b.off !in except && b.off + HDR <= b.next <= |h| ==> Payload(h', b) == Payload(h, b)
  }

  lemma SplitKeepsPayload(h: Memory, h': Memory, addr: nat, bs: Layout, end: nat, i: nat, size: nat)
    requires Tiled(bs, end) && i < |bs| && SplitWrites(h, h', addr, bs[i], end, size)
    ensures KeepsPayload(h, h', bs, {bs[i].off})
  {
    HeadersApart(bs, end, i);
    if i + 1 < |bs| { HeadersApart(bs, end, i + 1); }
  }

  /** Memory after rt_smem_alloc took block `k`: possibly cut, then marked used. */
  lemma StoredTake(h: Memory, mid: Memory, h': Memory, addr: nat, bs: Layout, end: nat, k: nat, size: nat)
    requires Tiled(bs, end) && Stored(h, addr, bs, end) && k < |bs| && !bs[k].used && size > 0
    requires if Splits(bs[k], size) then SplitWrites(h, mid, addr, bs[k], end, size) else mid == h
    requires bs[k].off < |mid| && h' == mid[bs[k].off := Tag(addr, true)]
    ensures Stored(h', addr, AllocAt(bs, k, size), end)
  {
    var off := bs[k].off;
    var marked := h[off := Tag(addr, true)];
    var ms := bs[k := bs[k].(used := true)];
    StoredMark(h, marked, addr, bs, end, k, true);
    if Splits(bs[k], size) {
      assert SplitWrites(marked, h', addr, ms[k], end, size);
      StoredSplit(marked, h', addr, ms, end, k, size);
      assert SplitAt(ms, k, size) == SplitAt(bs, k, size);
    }
  }

  lemma TakeKeepsPayload(h: Memory, mid: Memory, h': Memory, addr: nat, bs: Layout, end: nat, k: nat, size: nat)
    requires Tiled(bs, end) && |h| == end + HDR && k < |bs| && !bs[k].used
    requires if Splits(bs[k], size) then SplitWrites(h, mid, addr, bs[k], end, size) else mid == h
    requires bs[k].off < |mid| && h' == mid[bs[k].off := Tag(addr, true)]
    ensures KeepsPayload(h, h', bs, {})
  {
    HeadersApart(bs, end, k);
    if Splits(bs[k], size) { SplitKeepsPayload(h, mid, addr, bs, end, k, size); }
  }

  lemma KeepsTransitive(h: Memory, m: Memory, h': Memory, bs: Layout, cs: Layout, except: set<int>)
    requires KeepsPayload(h, m, bs, except) && KeepsPayload(m, h', cs, {})
    requires forall b :: b in bs && b.used && b.off !in except ==> b in cs
    ensures KeepsPayload(h, h', bs, except)
  {
  }

  /** An allocation, then a change to the new block: the blocks live before keep their words. */
  lemma KeepsAround(h: Memory, m: Memory, h': Memory, bs: Layout, cs: Layout, off: nat)
    requires KeepsPayload(h, m, bs, {}) && KeepsPayload(m, h', cs, {off})
    requires forall b :: b in bs && b.used ==> b in cs && b.off != off
    ensures KeepsPayload(h, h', bs, {})
  {
  }

  /** Writing user words of one live block leaves every header and every other payload. */
  lemma StoredPayloadWrite(h: Memory, h': Memory, addr: nat, bs: Layout, end: nat, i: nat)
    requires Tiled(bs, end) && Stored(h, addr, bs, end) && i < |bs| && |h'| == |h|
    requires forall k :: 0 <= k < |h| && !(bs[i].off + HDR <= k < bs[i].next) ==> h'[k] == h[k]
    ensures Stored(h', addr, bs, end) && KeepsPayload(h, h', bs, {bs[i].off})
  {
    HeadersApart(bs, end, i);
    forall j | 0 <= j < |bs| ensures Header(h', addr, bs, j) {
      assert Header(h, addr, bs, j);
    }
  }

  /** A shrunk block keeps its first words; every other live block keeps all of its own. */
  lemma CutKeepsPayload(h: Memory, m: Memory, h': Memory, addr: nat, bs: Layout, end: nat, i: nat, size: nat, at: nat)
    requires Tiled(bs, end) && i < |bs| && bs[i].used && SplitWrites(h, m, addr, bs[i], end, size)
    requires |h'| == |h| && KeepsPayload(m, h', SplitAt(bs, i, size), {}) && at == bs[i].off + HDR
    ensures KeepsPayload(h, h', bs, {bs[i].off})
    ensures Copied(h, at, h', at, size)
  {
    var s := SplitAt(bs, i, size);
    SplitKeepsPayload(h, m, addr, bs, end, i, size);
    SplitIs(bs, i, size);
    forall b | b in bs && b.used && b.off != bs[i].off ensures b in s {
      var k :| 0 <= k < |bs| && bs[k] == b;
      assert s[if k < i then k else k + 1] == b;
    }
    KeepsTransitive(h, m, h', bs, s, {bs[i].off});
    KeptPrefix(m, h', s, {}, s[i], size);
  }

  /** The `count` words of `h` at `src` are the words of `h'` at `dst`. */
  ghost predicate Copied(h: Memory, src: nat, h': Memory, dst: nat, count: nat) {
    && src + count <= |h| && dst + count <= |h'|
    && forall j :: dst <= j < dst + count ==> h'[j] == h[j - dst + src]
  }

  /** What is kept of a payload is kept of its first words. */
  lemma KeptPrefix(h: Memory, h': Memory, bs: Layout, except: set<int>, b: Block, count: nat)
    requires KeepsPayload(h, h', bs, except) && b in bs && b.used && b.off !in except
    requires b.off + HDR + count <= b.next <= |h|
    ensures Copied(h, b.off + HDR, h', b.off + HDR, count)
  {
    var o := b.off + HDR;
    assert Payload(h', b) == Payload(h, b);
    forall j | o <= j < o + count ensures h'[j] == h[j] {
      assert Payload(h', b)[j - o] == h'[j] && Payload(h, b)[j - o] == h[j];
    }
  }

  /** Filling block `nb`, then freeing the block at `off`: what both steps keep. */
  lemma FillThenFreeKeeps(h1: Memory, h2: Memory, h3: Memory, cs: Layout, nb: Block, off: nat, src: nat, dst: nat, count: nat)
    requires KeepsPayload(h1, h2, cs, {nb.off}) && KeepsPayload(h2, h3, cs, {off})
    requires nb in cs && nb.used && nb.off != off && dst == nb.off + HDR && dst + count <= nb.next <= |h2|
    requires Copied(h1, src, h2, dst, count)
    ensures KeepsPayload(h1, h3, cs, {nb.off, off}) && Copied(h1, src, h3, dst, count)
  {
    KeptPrefix(h2, h3, cs, {off}, nb, count);
  }

  /** An allocation followed by a change to its block and to the old block `ob`. */
  lemma MoveKeepsPayload(h0: Memory, h1: Memory, h3: Memory, bs: Layout, cs: Layout, nb: Block, ob: Block, src: nat, dst: nat, count: nat)
    requires KeepsPayload(h0, h1, bs, {}) && KeepsPayload(h1, h3, cs, {nb.off, ob.off})
    requires forall b :: b in bs && b.used ==> b in cs && b.off != nb.off
    requires ob in bs && ob.used && src == ob.off + HDR && src + count <= ob.next <= |h0|
    requires Copied(h1, src, h3, dst, count)
    ensures KeepsPayload(h0, h3, bs, {ob.off}) && Copied(h0, src, h3, dst, count)
  {
    KeptPrefix(h0, h1, bs, {}, ob, count);
  }
}
