/** The small-memory allocator of rt-thread/src/mem.c, updating its arena in place.

    Sizes and offsets count 4-byte words; request sizes come in bytes and are rounded as
    RT_ALIGN does in 32 bits.  User pointers are offsets into the arena; 0 stands for
    RT_NULL, since the first user word lies behind a header. */
module SmallMem {
  import opened HeapLayout
  import opened HeapLaws
  import opened HeapMemory

  const NULL: nat := 0
  const WRAP: nat := 0x1_0000_0000

  /** What a 32-bit word keeps of `x`. */
  function Low32(x: nat): nat { if x < WRAP then x else x % WRAP }

  lemma Low32IsModulo(x: nat)
    ensures Low32(x) == x % WRAP
  {
  }

  /** RT_ALIGN(bytes, 4) in 32-bit arithmetic, in words. */
  function Words(bytes: nat): nat { Low32(bytes + 3) / 4 }

  /** Rounding covers the request unless it wraps: exactly for the three largest sizes. */
  lemma WordsCover(bytes: nat)
    requires bytes < WRAP
    ensures 4 * Words(bytes) >= bytes <==> bytes <= WRAP - 4
    ensures bytes > WRAP - 4 ==> Words(bytes) == 0
  {
  }

  lemma WordsIs(bytes: nat)
    requires bytes < WRAP
    ensures Words(bytes) == if bytes + 3 < WRAP then (bytes + 3) / 4 else 0
  {
    WordsCover(bytes);
  }

  /** Offset of the header in front of a user pointer. */
  function HeaderOf(rmem: nat): nat { if rmem < HDR then 0 else rmem - HDR }

  function Least(a: nat, b: nat): nat { if a < b then a else b }

  /** The pointer a first-fit allocation of `n` words hands out. */
  function AllocPointer(bs: Layout, n: nat): nat {
    var k := First(bs, Clamp(n)); if k == |bs| then NULL else bs[k].off + HDR
  }

  /** User words of the block whose header is at `off`. */
  function UserWords(bs: Layout, off: nat): nat {
    var i := IndexOf(bs, off);
    if i < |bs| && bs[i].next >= off + HDR then bs[i].next - off - HDR else 0
  }

  /** A live block keeps its place when its size does not change, or when it is cut by more than
      six words: such a call cannot fail, whatever else is allocated. */
  predicate Stays(user: nat, n: nat) { user == n || user > n + 6 }

  /** The pointer rt_smem_realloc returns for the block at `rmem` of `user` words. */
  function ReallocPointer(bs: Layout, rmem: nat, user: nat, n: nat): nat {
    if user == n || n + HDR + MIN < user then rmem else AllocPointer(bs, n)
  }

  /** A block that moves gets another pointer, or none if no free block has room. */
  lemma PointerStays(bs: Layout, end: nat, i: nat, n: nat)
    requires Inv(bs, end) && i < |bs| && bs[i].used
    ensures var user, rmem := bs[i].next - bs[i].off - HDR, bs[i].off + HDR;
      && (ReallocPointer(bs, rmem, user, n) == rmem <==> Stays(user, n))
      && (ReallocPointer(bs, rmem, user, n) == NULL <==> !Stays(user, n) && NoRoom(bs, n))
  {
    OffsetsDiffer(bs, end, i);
    FirstFit(bs, end, n);
  }

  lemma FreedKeepsPayload(h: Memory, m: Memory, h': Memory, bs: Layout, end: nat, i: nat)
    requires Tiled(bs, end) && i < |bs| && |h| == end + HDR && SameBut(h, m, {bs[i].off})
    requires KeepsPayload(m, h', Mark(bs, i), {})
    ensures KeepsPayload(h, h', bs, {bs[i].off})
  {
    HeadersApart(bs, end, i);
    forall b | b in bs && b.used && b.off != bs[i].off ensures b in Mark(bs, i) {
      var k :| 0 <= k < |bs| && bs[k] == b;
      assert Mark(bs, i)[k] == b;
    }
  }

  lemma WordsExact(n: nat)
    requires 4 * n < WRAP
    ensures Words(4 * n) == n
  {
  }

  // ----------------------------------------------------------- the region

  /** Word address and length of an arena without its two boundary headers. */
  datatype Region = Region(base: nat, words: nat) | NoRegion

  /** rt_smem_init (mem.c:186-204): the words between the control block of `obj` words and
      the two boundary headers, for a region given in 32-bit byte addresses. */
  function InitRegion(begin: nat, size: nat, obj: nat): Region {
    var start := Low32(4 * (Words(begin) + obj)) / 4;
    var end := Low32(begin + size) / 4;
    if end > 2 * HDR && end - 2 * HDR >= start then Region(start, end - start - 2 * HDR) else NoRegion
  }

  /** First word behind the control block, without wrap-around. */
  function Start(begin: nat, obj: nat): nat { (begin + 3) / 4 + obj }

  /** rt_smem_init refuses a region exactly when control block and headers do not fit into
      it; otherwise the arena fills what is left between them. */
  lemma InitRegionFits(begin: nat, size: nat, obj: nat)
    requires begin + size < WRAP && 0 < obj && Start(begin, obj) < WRAP / 4
    ensures InitRegion(begin, size, obj).Region? <==> Start(begin, obj) + 2 * HDR <= (begin + size) / 4
    ensures var r := InitRegion(begin, size, obj);
      r.Region? ==> r.base == Start(begin, obj) && r.base + r.words + 2 * HDR == (begin + size) / 4
  {
    WordsIs(begin);
  }

  /** The arena lies inside the region given exactly when the control block does not reach
      beyond the 32-bit address space. */
  lemma InitInside(begin: nat, size: nat, obj: nat)
    requires begin + size < WRAP && 0 < obj < WRAP / 4 && InitRegion(begin, size, obj).Region?
    ensures var r := InitRegion(begin, size, obj);
      begin <= 4 * r.base && 4 * (r.base + r.words + 2 * HDR) <= begin + size <==> Start(begin, obj) < WRAP / 4
  {
    WordsIs(begin);
    if Start(begin, obj) < WRAP / 4 { InitRegionFits(begin, size, obj); }
  }

  /** The last byte of memory as a region of no bytes is accepted. */
  lemma InitAcceptsNothing()
    ensures InitRegion(WRAP - 1, 0, 10) == Region(10, WRAP / 4 - 1 - 10 - 2 * HDR)
  {
  }

  // ------------------------------------------------------ sizes that wrap

  /** rt_smem_alloc of 0xFFFF_FFFF bytes hands out a block of the smallest size. */
  lemma WrappedAlloc(bs: Layout)
    requires First(bs, MIN) < |bs|
    ensures AllocPointer(bs, Words(0xFFFF_FFFF)) == bs[First(bs, MIN)].off + HDR != NULL
  {
  }

  /** rt_smem_realloc of a live block to 0xFFFF_FFFF bytes frees it. */
  lemma WrappedRealloc(bs: Layout, end: nat, off: nat)
    requires Inv(bs, end) && Live(bs, off)
    ensures DoRealloc(bs, end, off, Words(0xFFFF_FFFF)) == DoFree(bs, off) && !Live(DoFree(bs, off), off)
  {
    LiveIndex(bs, end, off);
    FreeChanges(bs, end, off);
  }

  class SmallMem {
    const addr: nat            // address of the heap object, stored in every pool_ptr
    const memSize: nat         // mem_size_aligned
    const heap: array<nat>     // the arena behind heap_ptr, end marker included
    var lfree: nat             // offset of the lowest free block
    var used: int
    var max: int
    ghost var blocks: Layout
    ghost var history: seq<Layout>   // every layout the heap has had

    function End(): nat { memSize + HDR }

    /** The tags in memory tile the arena as `blocks` says, and the counters agree. */
    ghost predicate Sound()
      reads this, heap
    {
      && addr % 2 == 0 && addr > 0
      && Tiled(blocks, End())
      && Stored(heap[..], addr, blocks, End())
      && used == UsedSum(blocks)
      && |history| > 0 && UsedSum(history[|history| - 1]) == used && max == Peak(history)
    }

    ghost predicate Valid()
      reads this, heap
    {
      && Sound() && NoFreeNeighbours(blocks)
      && history[|history| - 1] == blocks
      && lfree == LowestFree(blocks, End())
    }

    /** rt_smem_init on a region whose aligned size leaves `memSize` user words. */
    constructor (addr: nat, memSize: nat)
      requires addr % 2 == 0 && addr > 0
      ensures Valid() && this.addr == addr && this.memSize == memSize && fresh(heap)
      ensures blocks == Fresh(memSize + HDR) && history == [blocks]
    {
      this.addr, this.memSize := addr, memSize;
      heap := new nat[memSize + HDR + HDR];
      lfree, used, max := 0, 0, 0;
      blocks := Fresh(memSize + HDR);
      history := [Fresh(memSize + HDR)];
      new;
      heap[0], heap[1], heap[2] := addr, memSize + HDR, 0;
      var end := memSize + HDR;
      heap[end], heap[end + 1], heap[end + 2] := addr + 1, end, end;
      assert Header(heap[..], addr, blocks, 0);
      assert blocks[1..] == [];
    }

    /** MEM_ISUSED */
    predicate IsUsed(off: nat)
      requires off < heap.Length
      reads heap
    {
      heap[off] % 2 == 1
    }

    /** What the header words at block `k` say. */
    lemma ReadHeader(k: nat)
      requires Sound() && k < |blocks|
      ensures blocks[k].off + HDR <= blocks[k].next <= End() && blocks[k].off + 2 < heap.Length
      ensures IsUsed(blocks[k].off) == blocks[k].used
      ensures heap[blocks[k].off + 1] == blocks[k].next == OffsetAt(blocks, End(), k + 1)
      ensures heap[blocks[k].off + 2] == PrevOff(blocks, k)
    {
      assert Header(heap[..], addr, blocks, k);
    }

    /** MEM_POOL */
    function Pool(off: nat): int
      requires off < heap.Length
      reads heap
    {
      heap[off] - heap[off] % 2
    }

    /** Every RT_ASSERT of rt_smem_free (mem.c:533-538) holds of a live block. */
    lemma FreeChecks(k: nat)
      requires Sound() && k < |blocks| && blocks[k].used
      ensures var mem := blocks[k].off;
        && mem + 1 < heap.Length && mem + HDR < heap.Length && IsUsed(mem) && Pool(mem) == addr
        && mem + HDR <= End() && (memSize > 0 ==> mem + HDR < End())
        && heap[mem + 1] < heap.Length && Pool(heap[mem + 1]) == addr
    {
      ReadHeader(k);
      assert Header(heap[..], addr, blocks, k);
      assert k + 1 < |blocks| ==> Header(heap[..], addr, blocks, k + 1);
    }

    /** The search loop of rt_smem_alloc: from the cursor, bounded by mem_size_aligned - size. */
    method FindFit(size: nat) returns (ptr: nat, found: bool, ghost k: nat)
      requires Valid() && MIN <= size <= memSize
      ensures k == First(blocks, size)
      ensures found <==> First(blocks, size) < |blocks|
      ensures found ==> ptr == blocks[First(blocks, size)].off
    {
      ptr := lfree;
      k := First(blocks, 0);
      while ptr <= memSize - size
        invariant k <= |blocks| && ptr == OffsetAt(blocks, End(), k)
        invariant forall j :: 0 <= j < k ==> !Fits(blocks[j], size)
        decreases |blocks| - k
      {
        ReadHeader(k);
        if !IsUsed(ptr) && heap[ptr + 1] - (ptr + HDR) >= size {
          FirstIs(blocks, size, k);
          found := true;
          return;
        }
        ptr := heap[ptr + 1];
        k := k + 1;
      }
      forall j | k <= j < |blocks| ensures !Fits(blocks[j], size) {
        if k < j { Ordered(blocks, End(), k, j); }
      }
      k := |blocks|;
      FirstIs(blocks, size, k);
      found := false;
    }

    /** Insert a free header behind `size` user words of the block at `ptr`. */
    method Cut(ptr: nat, size: nat)
      requires heap.Length == End() + HDR && ptr < End() && ptr + HDR + size + HDR < heap[ptr + 1] <= End()
      requires heap[ptr + 1] != End() ==> heap[ptr + 1] + HDR <= End()
      modifies heap
      ensures SplitWrites(old(heap[..]), heap[..], addr, Block(ptr, old(heap[ptr + 1]), true), End(), size)
    {
      var ptr2 := ptr + HDR + size;
      heap[ptr2] := addr;
      heap[ptr2 + 1] := heap[ptr + 1];
      heap[ptr2 + 2] := ptr;
      heap[ptr + 1] := ptr2;
      if heap[ptr2 + 1] != memSize + HDR {
        heap[heap[ptr2 + 1] + 2] := ptr2;
      }
    }

    /** Find the next free block from the cursor on (mem.c:382-386). */
    method AdvanceCursor(ghost bs: Layout, ghost from: nat)
      requires Tiled(bs, End()) && Stored(heap[..], addr, bs, End())
      requires from < |bs| && lfree == bs[from].off
      requires forall j :: 0 <= j < from ==> bs[j].used
      modifies `lfree
      ensures lfree == LowestFree(bs, End())
    {
      ghost var k := from;
      while IsUsed(lfree) && lfree != End()
        invariant k <= |bs| && lfree == OffsetAt(bs, End(), k) && lfree + 2 < heap.Length
        invariant forall j :: 0 <= j < k ==> bs[j].used
        decreases |bs| - k
      {
        assert Header(heap[..], addr, bs, k);
        lfree := heap[lfree + 1];
        k := k + 1;
        assert k < |bs| ==> Header(heap[..], addr, bs, k);
      }
      assert k < |bs| ==> Header(heap[..], addr, bs, k);
      FirstIs(bs, 0, k);
    }

    /** The accounting and the cursor after a block was carved out (mem.c:354-386): the tags
        already say `bs`. */
    method Commit(ptr: nat, span: nat, ghost bs: Layout, ghost k: nat)
      requires Inv(bs, End()) && Stored(heap[..], addr, bs, End()) && k < |bs| && ptr == bs[k].off
      requires |history| > 0 && max == Peak(history) && used + span == UsedSum(bs)
      requires if ptr == lfree then forall j :: 0 <= j < k ==> bs[j].used else lfree == LowestFree(bs, End())
      requires addr > 0
      modifies `lfree, `used, `max, `blocks, `history
      ensures Valid() && blocks == bs && history == old(history) + [bs]
    {
      used := used + span;
      if max < used { max := used; }
      blocks := bs;
      PeakExtend(history, bs);
      history := history + [bs];
      if ptr == lfree {
        AdvanceCursor(bs, k);
      }
    }

    /** Cut or take whole the free block at `ptr` and mark it used; `span` is what mem.c
        adds to `used` (mem.c:320-374). */
    method Carve(ptr: nat, size: nat, ghost bs: Layout, ghost k: nat) returns (span: nat)
      requires Tiled(bs, End()) && Stored(heap[..], addr, bs, End())
      requires k < |bs| && ptr == bs[k].off && Fits(bs[k], size) && size >= MIN
      modifies heap
      ensures Stored(heap[..], addr, AllocAt(bs, k, size), End())
      ensures KeepsPayload(old(heap[..]), heap[..], bs, {})
      ensures span == if Splits(bs[k], size) then size + HDR else bs[k].next - ptr
    {
      ghost var h := heap[..];
      assert Header(h, addr, bs, k);
      var next := heap[ptr + 1];
      if next - (ptr + HDR) >= size + HDR + MIN {
        assert k + 1 < |bs| ==> next + HDR == bs[k + 1].off + HDR <= End();
        Cut(ptr, size);
        span := size + HDR;
      } else {
        span := next - ptr;
      }
      ghost var mid := heap[..];
      heap[ptr] := addr + 1;
      StoredTake(h, mid, heap[..], addr, bs, End(), k, size);
      TakeKeepsPayload(h, mid, heap[..], addr, bs, End(), k, size);
    }

    /** Take the free block at `ptr` (mem.c:320-388). */
    method Take(ptr: nat, size: nat, ghost k: nat)
      requires Valid() && k < |blocks| && ptr == blocks[k].off && Fits(blocks[k], size) && size >= MIN
      modifies heap, `lfree, `used, `max, `blocks, `history
      ensures Valid() && blocks == AllocAt(old(blocks), k, size) && history == old(history) + [blocks]
      ensures KeepsPayload(old(heap[..]), heap[..], old(blocks), {})
    {
      AllocFacts(blocks, End(), k, size);
      var span := Carve(ptr, size, blocks, k);
      Commit(ptr, span, AllocAt(blocks, k, size), k);
    }

    /** rt_smem_alloc behind the rounding (mem.c:302-400). */
    method AllocWords(n: nat) returns (rmem: nat)
      requires Valid() && (MIN <= memSize || memSize < n)
      modifies heap, `lfree, `used, `max, `blocks, `history
      ensures Valid() && KeepsPayload(old(heap[..]), heap[..], old(blocks), {})
      ensures blocks == DoAlloc(old(blocks), End(), n)
      ensures rmem == NULL <==> n > memSize || First(old(blocks), Clamp(n)) == |old(blocks)|
      ensures rmem == NULL ==> heap[..] == old(heap[..]) && unchanged(`lfree, `used, `max, `blocks, `history)
      ensures rmem != NULL ==> var k := First(old(blocks), Clamp(n));
        && blocks == AllocAt(old(blocks), k, Clamp(n)) && history == old(history) + [blocks]
        && rmem == old(blocks)[k].off + HDR
      ensures rmem != NULL ==> RoomyIn(blocks, rmem, n)
    {
      if n > memSize { return NULL; }
      var size := if n < MIN then MIN else n;
      var ptr, found, k := FindFit(size);
      if !found { return NULL; }
      AllocRoomy(blocks, End(), n);
      Take(ptr, size, k);
      return ptr + HDR;
    }

    /** rt_smem_alloc: first fit, NULL exactly when no free block is large enough.  The
        block covers the request exactly when RT_ALIGN does not wrap: the three largest
        sizes round to 0 and get a block of the smallest size.  An arena of less than three
        user words makes the source's loop bound wrap; see TinyArenaHangs. */
    method Alloc(size: nat) returns (rmem: nat)
      requires Valid() && size < WRAP
      requires size == 0 || MIN <= memSize || memSize < Words(size)
      modifies heap, `lfree, `used, `max, `blocks, `history
      ensures Valid() && KeepsPayload(old(heap[..]), heap[..], old(blocks), {})
      ensures blocks == if size == 0 then old(blocks) else DoAlloc(old(blocks), End(), Words(size))
      ensures rmem == NULL <==> size == 0 || Words(size) > memSize || First(old(blocks), Clamp(Words(size))) == |old(blocks)|
      ensures rmem == NULL ==> heap[..] == old(heap[..]) && unchanged(`lfree, `used, `max, `blocks, `history)
      ensures rmem != NULL ==> rmem == AllocPointer(old(blocks), Words(size))
      ensures rmem != NULL ==> history == old(history) + [blocks]
      ensures rmem != NULL && Addressable() ==> (Holds(rmem, size) <==> size <= WRAP - 4)
      ensures rmem != NULL && size <= WRAP - 4 ==> Holds(rmem, size)
      ensures rmem == NULL <==> (size == 0 || Words(size) > memSize || NoRoom(old(blocks), Words(size)))
      ensures rmem != NULL ==> Snug(old(blocks), blocks, rmem, Words(size))
    {
      if size == 0 { return NULL; }
      ghost var bs := blocks;
      FirstFit(bs, End(), Words(size));
      if First(bs, Clamp(Words(size))) < |bs| && Words(size) <= memSize { AllocSnug(bs, End(), Words(size)); }
      rmem := AllocWords(Words(size));
      WordsCover(size);
      if size > WRAP - 4 && Addressable() { HoldsBounded(rmem, size); }
    }

    /** A live block starts at `rmem` and has room for `bytes`. */
    ghost predicate Holds(rmem: nat, bytes: nat)
      reads this
    {
      exists b :: b in blocks && b.used && b.off + HDR == rmem && 4 * (b.next - rmem) >= bytes
    }

    /** The arena lies in 32-bit memory. */
    predicate Addressable() { 4 * (memSize + 2 * HDR) <= WRAP }

    lemma HoldsBounded(rmem: nat, bytes: nat)
      requires Valid() && Addressable() && bytes > WRAP - 4
      ensures !Holds(rmem, bytes)
    {
    }

    /** The writes that join a free block with the free block behind it, giving layout `r`. */
    method Join(left: nat, right: nat, ghost bs: Layout, ghost i: nat, ghost r: Layout)
      requires Tiled(bs, End()) && Stored(heap[..], addr, bs, End()) && IsMerge(bs, i, r)
      requires left == bs[i].off && right == bs[i + 1].off && !bs[i].used && !bs[i + 1].used
      modifies heap
      ensures Stored(heap[..], addr, r, End())
      ensures KeepsPayload(old(heap[..]), heap[..], bs, {})
    {
      ghost var h := heap[..];
      assert Header(h, addr, bs, i) && Header(h, addr, bs, i + 1);
      assert i + 2 < |bs| ==> bs[i + 2].off + HDR <= End();
      heap[right] := 0;
      heap[left + 1] := heap[right + 1];
      heap[heap[right + 1] + 2] := left;
      StoredMerge(h, heap[..], addr, bs, End(), i, r);
      MergeKeepsPayload(h, heap[..], bs, End(), i);
    }

    /** plug_holes, forward half: join the block at `mem` with a free successor. */
    method PlugNext(mem: nat, ghost bs: Layout, ghost i: nat, ghost r: Layout)
      requires Tiled(bs, End()) && Stored(heap[..], addr, bs, End())
      requires i < |bs| && bs[i].off == mem
      requires if i + 1 < |bs| && !bs[i + 1].used then !bs[i].used && IsMerge(bs, i, r) else r == bs
      modifies heap, `lfree
      ensures Stored(heap[..], addr, r, End())
      ensures lfree == if i + 1 < |bs| && !bs[i + 1].used && old(lfree) == bs[i + 1].off then mem else old(lfree)
      ensures KeepsPayload(old(heap[..]), heap[..], bs, {})
    {
      assert Header(heap[..], addr, bs, i);
      assert i + 1 < |bs| ==> Header(heap[..], addr, bs, i + 1);
      var nmem := heap[mem + 1];
      if mem != nmem && !IsUsed(nmem) && nmem != End() {
        if lfree == nmem { lfree := mem; }
        Join(mem, nmem, bs, i, r);
      }
    }

    /** plug_holes, backward half: join the block at `mem` with a free predecessor. */
    method PlugPrevious(mem: nat, ghost bs: Layout, ghost i: nat, ghost r: Layout)
      requires Tiled(bs, End()) && Stored(heap[..], addr, bs, End())
      requires i < |bs| && bs[i].off == mem && !bs[i].used
      requires if i > 0 && !bs[i - 1].used then IsMerge(bs, i - 1, r) else r == bs
      modifies heap, `lfree
      ensures Stored(heap[..], addr, r, End())
      ensures lfree == if i > 0 && !bs[i - 1].used && old(lfree) == mem then bs[i - 1].off else old(lfree)
      ensures KeepsPayload(old(heap[..]), heap[..], bs, {})
    {
      assert Header(heap[..], addr, bs, i);
      assert i > 0 ==> Header(heap[..], addr, bs, i - 1);
      var pmem := heap[mem + 2];
      if pmem != mem && !IsUsed(pmem) {
        if lfree == mem { lfree := pmem; }
        Join(pmem, mem, bs, i - 1, r);
      }
    }

    /** plug_holes */
    method PlugHoles(mem: nat, ghost bs: Layout, ghost i: nat)
      requires Tiled(bs, End()) && Stored(heap[..], addr, bs, End()) && FreeNeighboursOnlyAt(bs, i)
      requires i < |bs| && bs[i].off == mem && !bs[i].used && lfree == LowestFree(bs, End())
      modifies heap, `lfree
      ensures Stored(heap[..], addr, Plug(bs, i), End())
      ensures lfree == LowestFree(Plug(bs, i), End())
      ensures KeepsPayload(old(heap[..]), heap[..], bs, {})
    {
      ghost var h, f, r := heap[..], PlugForward(bs, i), Plug(bs, i);
      PlugForwardFacts(bs, End(), i, f);
      PlugFacts(bs, End(), i, f, r);
      PlugNext(mem, bs, i, f);
      ghost var m := heap[..];
      PlugPrevious(mem, f, i, r);
      KeepsTransitive(h, m, heap[..], bs, f, {});
    }

    /** A block just marked free: pull the cursor down to it and coalesce (mem.c:485-491, 546-555). */
    method FreeRest(mem2: nat, ghost s: Layout, ghost j: nat)
      requires Tiled(s, End()) && Stored(heap[..], addr, s, End()) && FreeNeighboursOnlyAt(s, j)
      requires j < |s| && mem2 == s[j].off && !s[j].used
      requires LowestFree(s, End()) == if mem2 < lfree then mem2 else lfree
      modifies heap, `lfree
      ensures Stored(heap[..], addr, Plug(s, j), End()) && lfree == LowestFree(Plug(s, j), End())
      ensures KeepsPayload(old(heap[..]), heap[..], s, {})
    {
      ghost var h := heap[..];
      if mem2 < lfree { lfree := mem2; }
      assert heap[..] == h;
      PlugHoles(mem2, s, j);
    }

    /** Mark the block at `mem` free and account for it (mem.c:541-552). */
    method MarkFree(mem: nat, ghost bs: Layout, ghost i: nat)
      requires Tiled(bs, End()) && Stored(heap[..], addr, bs, End()) && i < |bs| && mem == bs[i].off
      modifies heap, `used
      ensures Stored(heap[..], addr, Mark(bs, i), End()) && SameBut(old(heap[..]), heap[..], {mem})
      ensures used == old(used) - (bs[i].next - mem)
    {
      ghost var h := heap[..];
      assert Header(h, addr, bs, i);
      heap[mem] := addr;
      StoredMark(h, heap[..], addr, bs, End(), i, false);
      used := used - (heap[mem + 1] - mem);
    }

    /** The body of rt_smem_free behind its checks. */
    method Release(mem: nat, ghost bs: Layout, ghost i: nat)
      requires Inv(bs, End()) && Stored(heap[..], addr, bs, End())
      requires i < |bs| && mem == bs[i].off && bs[i].used && lfree == LowestFree(bs, End())
      modifies heap, `lfree, `used
      ensures Stored(heap[..], addr, FreeAt(bs, i), End())
      ensures lfree == LowestFree(FreeAt(bs, i), End()) && used == old(used) - (bs[i].next - mem)
      ensures KeepsPayload(old(heap[..]), heap[..], bs, {mem})
    {
      ghost var h := heap[..];
      MarkTiled(bs, End(), i);
      FreeLowest(bs, End(), i);
      MarkFree(mem, bs, i);
      ghost var m := heap[..];
      FreeRest(mem, Mark(bs, i), i);
      FreedKeepsPayload(h, m, heap[..], bs, End(), i);
    }

    /** Record `bs` as the layout the tags now hold. */
    ghost method Publish(bs: Layout)
      requires Inv(bs, End()) && Stored(heap[..], addr, bs, End()) && addr > 0
      requires |history| > 0 && max == Peak(history)
      requires used == UsedSum(bs) <= UsedSum(history[|history| - 1]) && lfree == LowestFree(bs, End())
      modifies `blocks, `history
      ensures Valid() && blocks == bs && history == old(history) + [bs]
    {
      PeakAfterRelease(history, bs);
      blocks := bs;
      history := history + [bs];
    }

    /** Release block `i` of `bs` and record the layout after it. */
    method FreeIndex(mem: nat, ghost bs: Layout, ghost i: nat)
      requires Inv(bs, End()) && Stored(heap[..], addr, bs, End()) && addr > 0 && lfree == LowestFree(bs, End())
      requires i < |bs| && mem == bs[i].off && bs[i].used && Inv(FreeAt(bs, i), End())
      requires UsedSum(FreeAt(bs, i)) == used - (bs[i].next - mem) <= used
      requires |history| > 0 && max == Peak(history) && UsedSum(history[|history| - 1]) == used
      modifies heap, `lfree, `used, `blocks, `history
      ensures Valid() && blocks == FreeAt(bs, i) && history == old(history) + [blocks]
      ensures KeepsPayload(old(heap[..]), heap[..], bs, {mem})
    {
      Release(mem, bs, i);
      Publish(FreeAt(bs, i));
    }

    /** rt_smem_free of the live block at `mem`. */
    method FreeLive(mem: nat)
      requires Valid() && Live(blocks, mem)
      modifies heap, `lfree, `used, `blocks, `history
      ensures Valid() && blocks == DoFree(old(blocks), mem) && history == old(history) + [blocks]
      ensures KeepsPayload(old(heap[..]), heap[..], old(blocks), {mem})
    {
      ghost var i := FreePlan(blocks, End(), mem);
      FreeIndex(mem, blocks, i);
    }

    /** rt_smem_free */
    method Free(rmem: nat)
      requires Valid() && (rmem == NULL || (rmem >= HDR && Live(blocks, HeaderOf(rmem))))
      modifies heap, `lfree, `used, `blocks, `history
      ensures Valid()
      ensures rmem == NULL ==> heap[..] == old(heap[..]) && unchanged(`lfree, `used, `blocks, `history)
      ensures rmem != NULL ==> blocks == DoFree(old(blocks), HeaderOf(rmem)) && history == old(history) + [blocks]
      ensures rmem != NULL ==> KeepsPayload(old(heap[..]), heap[..], old(blocks), {HeaderOf(rmem)})
    {
      if rmem == NULL { return; }
      FreeLive(HeaderOf(rmem));
    }

    /** Cut the used block at `mem` after `n` words (mem.c:466-484). */
    method CutUsed(mem: nat, n: nat, ghost bs: Layout, ghost i: nat)
      requires Tiled(bs, End()) && Stored(heap[..], addr, bs, End()) && n > 0
      requires i < |bs| && mem == bs[i].off && bs[i].used && n + HDR + MIN < bs[i].next - mem - HDR
      modifies heap, `used
      ensures SplitWrites(old(heap[..]), heap[..], addr, bs[i], End(), n)
      ensures Stored(heap[..], addr, SplitAt(bs, i, n), End())
      ensures used == old(used) - (bs[i].next - mem - HDR - n)
    {
      ghost var h := heap[..];
      assert Header(h, addr, bs, i);
      assert i + 1 < |bs| ==> bs[i].next + HDR == bs[i + 1].off + HDR <= End();
      used := used - (heap[mem + 1] - mem - HDR - n);
      assert heap[..] == h;
      Cut(mem, n);
      StoredSplit(h, heap[..], addr, bs, End(), i, n);
    }

    /** The tags of a shrink: cut, cursor, coalescing (mem.c:466-491). */
    method ShrinkTags(mem: nat, rmem: nat, n: nat, ghost bs: Layout, ghost i: nat)
      requires Inv(bs, End()) && Stored(heap[..], addr, bs, End()) && n > 0
      requires i < |bs| && mem == bs[i].off && rmem == mem + HDR && bs[i].used && lfree == LowestFree(bs, End())
      requires n + HDR + MIN < bs[i].next - mem - HDR
      modifies heap, `lfree, `used
      ensures Stored(heap[..], addr, ShrinkAt(bs, i, n), End())
      ensures lfree == LowestFree(ShrinkAt(bs, i, n), End())
      ensures used == old(used) - (bs[i].next - mem - HDR - n)
      ensures KeepsPayload(old(heap[..]), heap[..], bs, {mem})
      ensures Copied(old(heap[..]), rmem, heap[..], rmem, n)
    {
      ghost var h := heap[..];
      CutUsed(mem, n, bs, i);
      ghost var m := heap[..];
      SplitForRest(bs, End(), i, n);
      FreeRest(mem + HDR + n, SplitAt(bs, i, n), i + 1);
      CutKeepsPayload(h, m, heap[..], addr, bs, End(), i, n, rmem);
    }

    method ShrinkIndex(mem: nat, rmem: nat, n: nat, ghost bs: Layout, ghost i: nat)
      requires Inv(bs, End()) && Stored(heap[..], addr, bs, End()) && addr > 0 && lfree == LowestFree(bs, End())
      requires i < |bs| && bs[i].used && n > 0 && Inv(ShrinkAt(bs, i, n), End())
      requires mem == bs[i].off && rmem == mem + HDR && n + HDR + MIN < bs[i].next - mem - HDR
      requires UsedSum(ShrinkAt(bs, i, n)) == used - (bs[i].next - mem - HDR - n)
      requires |history| > 0 && max == Peak(history) && UsedSum(history[|history| - 1]) == used
      modifies heap, `lfree, `used, `blocks, `history
      ensures Valid() && blocks == ShrinkAt(bs, i, n) && history == old(history) + [blocks]
      ensures KeepsPayload(old(heap[..]), heap[..], bs, {mem}) && Copied(old(heap[..]), rmem, heap[..], rmem, n)
    {
      ShrinkTags(mem, rmem, n, bs, i);
      Publish(ShrinkAt(bs, i, n));
    }

    /** The in-place half of rt_smem_realloc (mem.c:464-491). */
    method Shrink(mem: nat, rmem: nat, n: nat, ghost i: nat)
      requires Valid() && n > 0 && i < |blocks| && blocks[i].used
      requires mem == blocks[i].off && rmem == mem + HDR && n + HDR + MIN < blocks[i].next - mem - HDR
      modifies heap, `lfree, `used, `blocks, `history
      ensures Valid() && blocks == ShrinkAt(old(blocks), i, n) && RoomyIn(blocks, rmem, n)
      ensures history == old(history) + [blocks]
      ensures KeepsPayload(old(heap[..]), heap[..], old(blocks), {mem})
      ensures Copied(old(heap[..]), rmem, heap[..], rmem, n)
    {
      ShrinkFacts(blocks, End(), i, n);
      ShrinkIndex(mem, rmem, n, blocks, i);
    }

    /** rt_memcpy into the user words of the live block `j`. */
    method Copy(dst: nat, src: nat, count: nat, ghost j: nat)
      requires Valid() && j < |blocks| && dst == blocks[j].off + HDR && dst + count <= blocks[j].next
      requires src + count <= heap.Length && (src + count <= dst || dst + count <= src)
      modifies heap
      ensures Valid() && KeepsPayload(old(heap[..]), heap[..], blocks, {blocks[j].off})
      ensures Copied(old(heap[..]), src, heap[..], dst, count)
      ensures forall k :: 0 <= k < heap.Length && !(dst <= k < dst + count) ==> heap[k] == old(heap[k])
    {
      ghost var h := heap[..];
      forall k | 0 <= k < count { heap[dst + k] := heap[src + k]; }
      StoredPayloadWrite(h, heap[..], addr, blocks, End(), j);
    }

    /** A client's store into the user words of block `j`. */
    method Store(at: nat, w: nat, ghost j: nat)
      requires Valid() && j < |blocks| && blocks[j].off + HDR <= at < blocks[j].next <= heap.Length
      modifies heap
      ensures Valid() && heap[..] == old(heap[..])[at := w]
      ensures KeepsPayload(old(heap[..]), heap[..], blocks, {blocks[j].off})
    {
      ghost var h := heap[..];
      heap[at] := w;
      StoredPayloadWrite(h, heap[..], addr, blocks, End(), j);
    }

    /** Copy the words kept into the new block `nb`, then free the old block `ob`. */
    method FillAndFree(mem: nat, rmem: nat, nmem: nat, count: nat, ghost cs: Layout, ghost j: nat, ghost i: nat)
      requires Valid() && cs == blocks && j < |cs| && i < |cs| && cs[j].used && cs[i].used
      requires nmem == cs[j].off + HDR && mem == cs[i].off && rmem == mem + HDR
      requires cs[j].next <= cs[i].off || cs[i].next <= cs[j].off
      requires nmem + count <= cs[j].next <= heap.Length && rmem + count <= cs[i].next <= heap.Length
      modifies heap, `lfree, `used, `blocks, `history
      ensures Valid() && blocks == DoFree(cs, mem) && cs[j] in blocks
      ensures history == old(history) + [blocks]
      ensures KeepsPayload(old(heap[..]), heap[..], cs, {cs[j].off, mem})
      ensures Copied(old(heap[..]), rmem, heap[..], nmem, count)
    {
      ghost var h := heap[..];
      Copy(nmem, rmem, count, j);
      ghost var m := heap[..];
      FreeKeepsOthers(cs, End(), mem, i, cs[j]);
      FreeLive(mem);
      FillThenFreeKeeps(h, m, heap[..], cs, cs[j], mem, rmem, nmem, count);
    }

    /** What rt_smem_realloc does once the new block `k` is there (mem.c:498-502). */
    method Transfer(mem: nat, rmem: nat, nmem: nat, size: nat, n: nat,
                    ghost bs: Layout, ghost h: Memory, ghost i: nat, ghost k: nat, ghost o: nat)
      requires Valid() && Tiled(bs, End()) && Moving(bs, i, blocks, k, o, n) && nmem == blocks[k].off + HDR
      requires bs[i].used && mem == bs[i].off && rmem == mem + HDR && size == bs[i].next - rmem
      requires |h| == heap.Length && KeepsPayload(h, heap[..], bs, {})
      modifies heap, `lfree, `used, `blocks, `history
      ensures Valid() && blocks == DoFree(old(blocks), mem) && RoomyIn(blocks, nmem, n)
      ensures KeepsPayload(h, heap[..], bs, {mem}) && Copied(h, rmem, heap[..], nmem, Least(size, n))
    {
      ghost var m, cs := heap[..], blocks;
      var count := Least(size, n);
      FillAndFree(mem, rmem, nmem, count, cs, k, o);
      MoveKeepsPayload(h, m, heap[..], bs, cs, cs[k], bs[i], rmem, nmem, count);
    }

    /** The moving half of rt_smem_realloc: allocate, copy, free (mem.c:496-502). */
    method Move(mem: nat, rmem: nat, n: nat, size: nat, ghost bs: Layout, ghost i: nat) returns (nmem: nat)
      requires Valid() && 0 < n <= memSize && MIN <= memSize
      requires bs == blocks && i < |bs| && bs[i].used && mem == bs[i].off && rmem == mem + HDR && size == bs[i].next - rmem
      modifies heap, `lfree, `used, `max, `blocks, `history
      ensures Valid() && blocks == DoMove(bs, End(), mem, n)
      ensures nmem == NULL ==> heap[..] == old(heap[..]) && unchanged(`lfree, `used, `max, `blocks, `history)
      ensures KeepsPayload(old(heap[..]), heap[..], bs, {mem})
      ensures nmem != NULL ==> RoomyIn(blocks, nmem, n) && Copied(old(heap[..]), rmem, heap[..], nmem, Least(size, n))
      ensures nmem == AllocPointer(bs, n)
    {
      ghost var h := heap[..];
      nmem := AllocWords(n);
      if nmem != NULL {
        ghost var o := MovePlan(bs, End(), i, n);
        Transfer(mem, rmem, nmem, size, n, bs, h, i, First(bs, Clamp(n)), o);
      }
    }

    /** The paths that keep the pointer: the size is the same, or the block is cut. */
    method Keep(mem: nat, rmem: nat, n: nat, size: nat, ghost bs: Layout, ghost i: nat)
      requires Valid() && bs == blocks && i < |bs| && bs[i].used && mem == bs[i].off && rmem == mem + HDR
      requires 0 < n && size == bs[i].next - rmem && (size == n || n + HDR + MIN < size)
      modifies heap, `lfree, `used, `blocks, `history
      ensures Valid() && blocks == (if size == n then bs else ShrinkAt(bs, i, n)) && RoomyIn(blocks, rmem, n)
      ensures KeepsPayload(old(heap[..]), heap[..], bs, {mem}) && Copied(old(heap[..]), rmem, heap[..], rmem, n)
    {
      if size == n {
        assert bs[i] in bs;
      } else {
        Shrink(mem, rmem, n, i);
      }
    }

    /** rt_smem_realloc of a live block to `n` words (mem.c:451-502). */
    method Resize(mem: nat, rmem: nat, n: nat, ghost i: nat, ghost user: nat, ghost goal: Layout) returns (r: nat)
      requires Valid() && 0 < n <= memSize && MIN <= memSize
      requires i < |blocks| && blocks[i].used && mem == blocks[i].off && rmem == mem + HDR && user == blocks[i].next - rmem
      requires IsResized(blocks, End(), i, n, goal)
      modifies heap, `lfree, `used, `max, `blocks, `history
      ensures Valid() && blocks == goal
      ensures r == NULL ==> heap[..] == old(heap[..]) && unchanged(`lfree, `used, `max, `blocks, `history)
      ensures KeepsPayload(old(heap[..]), heap[..], old(blocks), {mem})
      ensures r != NULL ==> RoomyIn(blocks, r, n) && Copied(old(heap[..]), rmem, heap[..], r, Least(user, n))
      ensures r == ReallocPointer(old(blocks), rmem, user, n)
    {
      ghost var bs := blocks;
      ReadHeader(i);
      var size := heap[mem + 1] - mem - HDR;
      if size == n || n + HDR + MIN < size {
        Keep(mem, rmem, n, size, bs, i);
        r := rmem;
      } else {
        r := Move(mem, rmem, n, size, bs, i);
      }
    }

    /** rt_smem_realloc behind the rounding (mem.c:432-502). */
    method ReallocWords(rmem: nat, n: nat) returns (r: nat)
      requires Valid() && (n == 0 || MIN <= memSize || memSize < n)
      requires rmem == NULL || (rmem >= HDR && Live(blocks, HeaderOf(rmem)))
      modifies heap, `lfree, `used, `max, `blocks, `history
      ensures Valid()
      ensures rmem != NULL ==> blocks == DoRealloc(old(blocks), End(), HeaderOf(rmem), n)
      ensures rmem == NULL ==> blocks == if n == 0 then old(blocks) else DoAlloc(old(blocks), End(), n)
      ensures n > memSize || n == 0 ==> r == NULL
      ensures r == NULL && (n > 0 || rmem == NULL) ==>
        heap[..] == old(heap[..]) && unchanged(`lfree, `used, `max, `blocks, `history)
      ensures KeepsPayload(old(heap[..]), heap[..], old(blocks), if rmem == NULL then {} else {HeaderOf(rmem)})
      ensures r != NULL ==> RoomyIn(blocks, r, n)
      ensures r != NULL && rmem != NULL ==>
        Copied(old(heap[..]), rmem, heap[..], r, Least(UserWords(old(blocks), HeaderOf(rmem)), n))
      ensures rmem != NULL && 0 < n <= memSize ==>
        r == ReallocPointer(old(blocks), rmem, UserWords(old(blocks), HeaderOf(rmem)), n)
      ensures rmem == NULL && 0 < n <= memSize ==> r == AllocPointer(old(blocks), n)
    {
      if n > memSize {
        return NULL;
      } else if n == 0 {
        Free(rmem);
        return NULL;
      }
      if rmem == NULL {
        r := AllocWords(n);
      } else {
        ghost var mem, i := HeaderOf(rmem), IndexOf(blocks, HeaderOf(rmem));
        LiveIndex(blocks, End(), mem);
        ReallocCases(blocks, End(), mem, i, n);
        r := Resize(HeaderOf(rmem), rmem, n, i, UserWords(blocks, mem), DoRealloc(blocks, End(), mem, n));
      }
    }

    /** rt_smem_realloc: keeps the first words of the block on success, whichever path it
        takes, in a block that covers the request.  NULL for a non-zero size leaves the heap
        as it was exactly when RT_ALIGN does not wrap: for the three largest sizes the block
        is freed. */
    method Realloc(rmem: nat, newsize: nat) returns (r: nat)
      requires Valid() && newsize < WRAP && (Words(newsize) == 0 || MIN <= memSize || memSize < Words(newsize))
      requires rmem == NULL || (rmem >= HDR && Live(blocks, HeaderOf(rmem)))
      modifies heap, `lfree, `used, `max, `blocks, `history
      ensures Valid()
      ensures rmem != NULL ==> blocks == DoRealloc(old(blocks), End(), HeaderOf(rmem), Words(newsize))
      ensures rmem == NULL ==> blocks == if Words(newsize) == 0 then old(blocks) else DoAlloc(old(blocks), End(), Words(newsize))
      ensures Words(newsize) > memSize || Words(newsize) == 0 ==> r == NULL
      ensures r == NULL && rmem == NULL ==> heap[..] == old(heap[..]) && unchanged(`lfree, `used, `max, `blocks, `history)
      ensures r == NULL && rmem != NULL && newsize > 0 ==> (heap[..] == old(heap[..]) <==> newsize <= WRAP - 4)
      ensures r == NULL && rmem != NULL && newsize > 0 ==> (Live(blocks, HeaderOf(rmem)) <==> newsize <= WRAP - 4)
      ensures r == NULL && 0 < newsize <= WRAP - 4 ==> unchanged(`lfree, `used, `max, `blocks, `history)
      ensures KeepsPayload(old(heap[..]), heap[..], old(blocks), if rmem == NULL then {} else {HeaderOf(rmem)})
      ensures r != NULL ==> Holds(r, newsize)
      ensures r != NULL && rmem != NULL ==> var user, n := UserWords(old(blocks), HeaderOf(rmem)), Words(newsize);
        Copied(old(heap[..]), rmem, heap[..], r, Least(user, n)) && r == ReallocPointer(old(blocks), rmem, user, n)
      ensures rmem != NULL && 0 < Words(newsize) <= memSize ==>
        var stays := Stays(UserWords(old(blocks), HeaderOf(rmem)), Words(newsize));
        (r == rmem <==> stays) && (r == NULL <==> !stays && NoRoom(old(blocks), Words(newsize)))
      ensures rmem == NULL && 0 < Words(newsize) <= memSize ==> r == AllocPointer(old(blocks), Words(newsize))
    {
      ghost var bs, h, n := blocks, heap[..], Words(newsize);
      WordsCover(newsize);
      if rmem != NULL {
        LiveIndex(bs, End(), HeaderOf(rmem));
        PointerStays(bs, End(), IndexOf(bs, HeaderOf(rmem)), n);
      }
      r := ReallocWords(rmem, Words(newsize));
      if r == NULL && rmem != NULL && n == 0 {
        FreedDiffers(h, heap[..], bs, blocks, HeaderOf(rmem));
      }
    }

    /** Memory that holds the layout after a free is not the memory before it. */
    lemma FreedDiffers(h: Memory, h': Memory, bs: Layout, cs: Layout, off: nat)
      requires Inv(bs, End()) && Inv(cs, End()) && Live(bs, off) && cs == DoRealloc(bs, End(), off, 0)
      requires Stored(h, addr, bs, End()) && Stored(h', addr, cs, End())
      ensures h != h' && !Live(cs, off)
    {
      LiveIndex(bs, End(), off);
      FreeChanges(bs, End(), off);
      if h == h' { StoredUnique(h, addr, bs, cs, End()); }
    }
  }

  /** The word index the search loop reaches after `t` steps from `ptr`. */
  function Walk(h: Memory, ptr: nat, t: nat): nat {
    if t == 0 then ptr
    else var p := Walk(h, ptr, t - 1); if p + 1 < |h| then h[p + 1] else p
  }

  /** mem.c:314-316 in 32-bit bytes: the loop goes on at `ptr` for a request of MIN words. */
  predicate LoopGoesOn(h: Memory, memSize: nat, ptr: nat) {
    && 4 * ptr <= (4 * memSize - 4 * MIN + WRAP) % WRAP
    && (ptr + 1 < |h| ==> h[ptr] % 2 == 1 || h[ptr + 1] - (ptr + HDR) < MIN)
  }

  /** In an arena of less than three user words the bound of the search loop wraps: any request
      that passes the size check makes the search run for ever.  `Alloc` excludes exactly
      this case. */
  lemma {:induction false} TinyArenaHangs(h: Memory, addr: nat, bs: Layout, memSize: nat, t: nat)
    requires memSize < MIN && Inv(bs, memSize + HDR) && Stored(h, addr, bs, memSize + HDR)
    ensures var p := Walk(h, LowestFree(bs, memSize + HDR), t);
      p in {0, memSize + HDR} && LoopGoesOn(h, memSize, p)
  {
    var end := memSize + HDR;
    assert Header(h, addr, bs, 0);
    if |bs| > 1 { TwoBlocksNeed(bs, end); }
    assert First(bs, 0) <= 1;
    if t > 0 { TinyArenaHangs(h, addr, bs, memSize, t - 1); }
  }

  /** The address of the control block: an even, non-zero one. */
  function Control(begin: nat): (r: nat)
    requires 0 < begin && begin + 3 < WRAP
    ensures begin <= r < begin + 4 && r % 2 == 0
  {
    WordsIs(begin);
    4 * Words(begin)
  }

  /** rt_smem_init: a fresh heap on the region, or null exactly when it is too small. */
  method Init(begin: nat, size: nat, obj: nat) returns (m: SmallMem?)
    requires 0 < begin && begin + size < WRAP && 0 < obj && Start(begin, obj) < WRAP / 4
    ensures m == null <==> Start(begin, obj) + 2 * HDR > (begin + size) / 4
    ensures m != null ==> fresh(m) && fresh(m.heap) && m.Valid() && m.Addressable() && m.blocks == Fresh(m.End())
    ensures m != null ==> m.addr == Control(begin) && Start(begin, obj) + m.memSize + 2 * HDR == (begin + size) / 4
  {
    m := null;
    InitRegionFits(begin, size, obj);
    var region := InitRegion(begin, size, obj);
    if region.Region? {
      m := new SmallMem(Control(begin), region.words);
    }
  }
}
