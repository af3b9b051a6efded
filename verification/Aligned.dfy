/** rt_malloc_align and rt_free_align of rt-thread/src/kservice.c on top of the heap.

    Addresses and sizes inside the heap count words; `base` is the word address of
    heap_ptr, and a pointer stored in memory is a byte address. */
module Aligned {
  import opened Arithmetic
  import opened HeapLayout
  import opened HeapLaws
  import opened HeapMemory
  import opened SmallMem

  ghost predicate PowerOfTwo(n: nat) {
    n == 1 || (n > 1 && n % 2 == 0 && PowerOfTwo(n / 2))
  }

  /** What rt_malloc is asked for, in 32-bit bytes. */
  function Request(size: nat, align: nat): nat {
    Low32(4 * Words(size) + 4 * Words(align))
  }

  /** Words needed for `bytes`, without wrap-around. */
  function Need(bytes: nat): nat { (bytes + 3) / 4 }

  /** Words taken from the heap: the payload and room to move the pointer up. */
  function Wanted(size: nat, align: nat): nat { Need(size) + Need(align) }

  predicate NoWrap(size: nat, align: nat) {
    size + 3 < WRAP && align + 3 < WRAP && 4 * Wanted(size, align) < WRAP
  }

  /** The request covers the payload and the alignment slack exactly when no 32-bit sum wraps. */
  lemma RequestCovers(size: nat, align: nat)
    requires size < WRAP && 0 < align < WRAP
    ensures Request(size, align) >= size + 4 * Need(align) <==> NoWrap(size, align)
    ensures NoWrap(size, align) ==> Request(size, align) == 4 * Wanted(size, align) < size + align + 7
  {
    WordsIs(size);
    WordsIs(align);
  }

  lemma RequestWords(size: nat, align: nat)
    requires size < WRAP && 0 < align < WRAP && NoWrap(size, align)
    ensures Words(Request(size, align)) == Wanted(size, align) && 0 < Request(size, align) < WRAP
  {
    RequestCovers(size, align);
    WordsExact(Wanted(size, align));
  }

  /** An aligned address strictly behind `p`, at most `al` words further on. */
  function AlignUp(p: nat, al: nat): (r: nat)
    requires al > 0
    ensures p < r <= p + al && r % al == 0
  {
    ModFacts(p, al);
    if p % al == 0 then p + al else p + al - 1 - (p + al - 1) % al
  }

  lemma RoundedDown(s: nat, al: nat)
    requires al > 0
    ensures 0 <= s % al < al && (s - s % al) % al == 0
  {
    var q: nat := s / al;
    DivMod(al, q, 0);
    assert s - s % al == q * al + 0;
  }

  lemma OneLess(p: nat, al: nat)
    requires al > 0 && p % al != 0
    ensures (p - 1) % al == p % al - 1
  {
    var q: nat, r: nat := p / al, p % al;
    assert p - 1 == q * al + (r - 1);
    DivMod(al, q, r - 1);
  }

  lemma ModFacts(p: nat, al: nat)
    requires al > 0
    ensures 0 <= p % al < al && 0 <= (p + al - 1) % al < al
    ensures p % al == 0 ==> (p + al) % al == 0
    ensures (p + al - 1 - (p + al - 1) % al) % al == 0
    ensures p % al != 0 ==> (p + al - 1) % al == p % al - 1
  {
    RoundedDown(p + al - 1, al);
    AddMultiple(p, 1, al);
    if p % al != 0 {
      OneLess(p, al);
      AddMultiple(p - 1, 1, al);
    }
  }

  /** The word before the aligned pointer `r` holds the byte address of heap pointer `ptr`. */
  ghost predicate Saved(h: Memory, base: nat, r: nat, ptr: nat) {
    0 < r <= |h| && h[r - 1] == 4 * (base + ptr)
  }

  /** What an aligned allocation hands out: a pointer `r` to `need` words, a multiple of `al`,
      inside block `k`, with the heap's own pointer `ptr` saved before it. */
  ghost predicate Handed(bs: Layout, cs: Layout, h: Memory, base: nat, r: nat, ptr: nat, k: nat, al: nat, need: nat) {
    && k < |bs| && k < |cs| && cs[k].used && ptr == bs[k].off + HDR == cs[k].off + HDR
    && al > 0 && (base + r) % al == 0
    && ptr < r && r + need <= cs[k].next <= |h| && Saved(h, base, r, ptr)
  }

  /** Save the heap pointer `p` in the word before `r` (kservice.c:1659-1660). */
  method Save(m: SmallMem, base: nat, p: nat, r: nat, ghost k: nat)
    requires m.Valid() && k < |m.blocks| && p == m.blocks[k].off + HDR && p < r <= m.blocks[k].next <= m.heap.Length
    modifies m.heap
    ensures m.Valid() && Saved(m.heap[..], base, r, p)
    ensures KeepsPayload(old(m.heap[..]), m.heap[..], m.blocks, {m.blocks[k].off})
  {
    m.Store(r - 1, 4 * (base + p), k);
  }

  /** Move the pointer `p` up to an aligned one (kservice.c:1648-1660). */
  method Place(m: SmallMem, base: nat, p: nat, al: nat, need: nat, ghost k: nat) returns (r: nat)
    requires m.Valid() && k < |m.blocks| && p == m.blocks[k].off + HDR && al > 0 && p + need + al <= m.blocks[k].next <= m.heap.Length
    modifies m.heap
    ensures m.Valid() && p < r && (base + r) % al == 0
    ensures r + need <= m.blocks[k].next <= m.heap.Length
    ensures Saved(m.heap[..], base, r, p)
    ensures KeepsPayload(old(m.heap[..]), m.heap[..], m.blocks, {m.blocks[k].off})
  {
    var up := AlignUp(base + p, al);
    r := up - base;
    assert base + r == up;
    Save(m, base, p, r, k);
  }

  /** The heap block behind an aligned allocation (kservice.c:1637-1645). */
  method Take(m: SmallMem, size: nat, align: nat, ghost n: nat) returns (p: nat)
    requires m.Valid() && MIN <= m.memSize && n == Wanted(size, align)
    requires size < WRAP && 0 < align < WRAP && NoWrap(size, align)
    modifies m.heap, m`lfree, m`used, m`max, m`blocks, m`history
    ensures m.Valid() && m.blocks == DoAlloc(old(m.blocks), m.End(), n)
    ensures p == NULL <==> n > m.memSize || First(old(m.blocks), Clamp(n)) == |old(m.blocks)|
    ensures p != NULL ==> p == old(m.blocks)[First(old(m.blocks), Clamp(n))].off + HDR
    ensures KeepsPayload(old(m.heap[..]), m.heap[..], old(m.blocks), {})
  {
    RequestWords(size, align);
    p := m.Alloc(Request(size, align));
  }

  /** rt_malloc_align */
  method MallocAlign(m: SmallMem, base: nat, size: nat, align: nat) returns (r: nat, ghost ptr: nat, ghost k: nat)
    requires m.Valid() && MIN <= m.memSize
    requires size < WRAP && 0 < align < WRAP && PowerOfTwo(align) && NoWrap(size, align)
    modifies m.heap, m`lfree, m`used, m`max, m`blocks, m`history
    ensures m.Valid() && m.blocks == DoAlloc(old(m.blocks), m.End(), Wanted(size, align))
    ensures k == First(old(m.blocks), Clamp(Wanted(size, align)))
    ensures r == NULL <==> Wanted(size, align) > m.memSize || k == |old(m.blocks)|
    ensures r != NULL ==> Handed(old(m.blocks), m.blocks, m.heap[..], base, r, ptr, k, Need(align), Need(size))
    ensures KeepsPayload(old(m.heap[..]), m.heap[..], old(m.blocks), {})
  {
    ghost var n, bs, h := Wanted(size, align), m.blocks, m.heap[..];
    k := First(bs, Clamp(n));
    var p := Take(m, size, align, n);
    ptr, r := p, NULL;
    if p != NULL {
      r := PlaceNew(m, base, p, Need(align), Need(size), k, n, bs, h);
    }
  }

  /** The pointer of a block just allocated, moved up. */
  method PlaceNew(m: SmallMem, base: nat, p: nat, al: nat, need: nat, ghost k: nat, ghost n: nat, ghost bs: Layout, ghost h: Memory)
    returns (r: nat)
    requires m.Valid() && Inv(bs, m.End()) && n + HDR <= m.End() && m.blocks == DoAlloc(bs, m.End(), n)
    requires k == First(bs, Clamp(n)) < |bs| && p == bs[k].off + HDR && al > 0 && n == need + al
    requires KeepsPayload(h, m.heap[..], bs, {})
    modifies m.heap
    ensures m.Valid() && r != NULL && Handed(bs, m.blocks, m.heap[..], base, r, p, k, al, need)
    ensures KeepsPayload(h, m.heap[..], bs, {})
  {
    ghost var mid := m.heap[..];
    AllocatedBlock(bs, m.End(), n);
    AllocApart(bs, m.End(), n);
    m.ReadHeader(k);
    r := Place(m, base, p, al, need, k);
    KeepsAround(h, mid, m.heap[..], bs, m.blocks, bs[k].off);
  }

  /** rt_free_align: recovers the heap pointer from the word before `r` and frees it. */
  method FreeAlign(m: SmallMem, base: nat, r: nat, ghost ptr: nat)
    requires m.Valid() && Saved(m.heap[..], base, r, ptr) && ptr >= HDR && Live(m.blocks, HeaderOf(ptr))
    modifies m.heap, m`lfree, m`used, m`blocks, m`history
    ensures m.Valid() && m.blocks == DoFree(old(m.blocks), HeaderOf(ptr))
    ensures KeepsPayload(old(m.heap[..]), m.heap[..], old(m.blocks), {HeaderOf(ptr)})
  {
    var saved := m.heap[r - 1];
    m.Free(saved / 4 - base);
  }

  /** Store the next word of `data`. */
  method StoreNext(m: SmallMem, r: nat, data: seq<nat>, i: nat, ghost k: nat, ghost h: Memory)
    requires m.Valid() && k < |m.blocks| && m.blocks[k].off + HDR <= r && r + |data| <= m.blocks[k].next <= m.heap.Length
    requires i < |data| && WrittenAt(h, m.heap[..], r, data, i)
    modifies m.heap
    ensures m.Valid() && WrittenAt(h, m.heap[..], r, data, i + 1)
  {
    WrittenNext(h, m.heap[..], r, data, i);
    m.Store(r + i, data[i], k);
  }

  /** Store `data` behind the aligned pointer `r` of block `k`. */
  method Fill(m: SmallMem, r: nat, data: seq<nat>, ghost k: nat)
    requires m.Valid() && k < |m.blocks| && m.blocks[k].off + HDR <= r && r + |data| <= m.blocks[k].next <= m.heap.Length
    modifies m.heap
    ensures m.Valid() && WrittenAt(old(m.heap[..]), m.heap[..], r, data, |data|)
    ensures KeepsPayload(old(m.heap[..]), m.heap[..], m.blocks, {m.blocks[k].off})
  {
    var i := 0;
    ghost var h := m.heap[..];
    while i < |data|
      invariant 0 <= i <= |data| && m.Valid() && WrittenAt(h, m.heap[..], r, data, i)
      modifies m.heap
    {
      StoreNext(m, r, data, i, k, h);
      i := i + 1;
    }
    WritesKeepOthers(h, m.heap[..], m.blocks, m.End(), k, r, data);
  }

  /** `h'` is `h` with the first `n` of `ws` written from `at` on. */
  ghost predicate WrittenAt(h: Memory, h': Memory, at: nat, ws: seq<nat>, n: nat) {
    && |h'| == |h| && n <= |ws|
    && forall j {:trigger h'[j]} :: 0 <= j < |h| ==> h'[j] == if at <= j < at + n then ws[j - at] else h[j]
  }

  lemma WrittenNext(h: Memory, h': Memory, at: nat, ws: seq<nat>, i: nat)
    requires i < |ws| && at + |ws| <= |h| && WrittenAt(h, h', at, ws, i)
    ensures WrittenAt(h, h'[at + i := ws[i]], at, ws, i + 1)
  {
  }

  lemma WritesKeepOthers(h: Memory, h': Memory, bs: Layout, end: nat, k: nat, at: nat, ws: seq<nat>)
    requires Tiled(bs, end) && k < |bs| && WrittenAt(h, h', at, ws, |ws|)
    requires bs[k].off + HDR <= at && at + |ws| <= bs[k].next
    ensures KeepsPayload(h, h', bs, {bs[k].off})
  {
    HeadersApart(bs, end, k);
  }

  /** Allocate aligned, fill all requested words, free: layout, cursor and accounting are as
      before, and so are the words of every block that was live. */
  method RoundTrip(m: SmallMem, base: nat, size: nat, align: nat, data: seq<nat>) returns (ok: bool)
    requires m.Valid() && MIN <= m.memSize && |data| == Need(size)
    requires size < WRAP && 0 < align < WRAP && PowerOfTwo(align) && NoWrap(size, align)
    modifies m.heap, m`lfree, m`used, m`max, m`blocks, m`history
    ensures m.Valid() && m.blocks == old(m.blocks) && m.lfree == old(m.lfree) && m.used == old(m.used)
    ensures KeepsPayload(old(m.heap[..]), m.heap[..], m.blocks, {})
    ensures ok <==> Wanted(size, align) <= m.memSize && First(m.blocks, Clamp(Wanted(size, align))) < |m.blocks|
  {
    ghost var bs, n, h := m.blocks, Wanted(size, align), m.heap[..];
    var r, ptr, k := MallocAlign(m, base, size, align);
    ok := r != NULL;
    if ok {
      FillAndFree(m, base, r, data, ptr, k, bs, n, h);
    }
  }

  /** The second half of the round trip. */
  method FillAndFree(m: SmallMem, base: nat, r: nat, data: seq<nat>, ghost ptr: nat, ghost k: nat, ghost bs: Layout, ghost n: nat, ghost h: Memory)
    requires m.Valid() && Inv(bs, m.End()) && n + HDR <= m.End() && m.blocks == DoAlloc(bs, m.End(), n)
    requires k == First(bs, Clamp(n)) < |bs| && ptr == bs[k].off + HDR < r
    requires k < |m.blocks| && m.blocks[k].off == bs[k].off && Live(m.blocks, bs[k].off)
    requires r + |data| <= m.blocks[k].next <= m.heap.Length && Saved(m.heap[..], base, r, ptr)
    requires KeepsPayload(h, m.heap[..], bs, {})
    modifies m.heap, m`lfree, m`used, m`blocks, m`history
    ensures m.Valid() && m.blocks == bs && KeepsPayload(h, m.heap[..], bs, {})
  {
    ghost var h1, cs, off := m.heap[..], m.blocks, bs[k].off;
    AllocApart(bs, m.End(), n);
    Fill(m, r, data, k);
    ghost var h2 := m.heap[..];
    KeepsAround(h, h1, h2, bs, cs, off);
    FreeAlign(m, base, r, ptr);
    KeepsAround(h, h2, m.heap[..], bs, cs, off);
    FreeCallUndoesAllocCall(bs, m.End(), n);
  }
}
