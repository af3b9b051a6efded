/** Laws of the heap layout: accounting, the lowest-free cursor, free undoes alloc, and
    what holds after every run of allocations, frees and reallocations. */
module HeapLaws {
  import opened HeapLayout

  // --------------------------------------------------------------- accounting

  /** Words occupied by used blocks, headers included: the value `used` has to have. */
  function UsedSum(bs: Layout): int {
    if bs == [] then 0
    else (if bs[0].used then bs[0].next - bs[0].off else 0) + UsedSum(bs[1..])
  }

  function FreeSum(bs: Layout): int {
    if bs == [] then 0
    else (if bs[0].used then 0 else bs[0].next - bs[0].off) + FreeSum(bs[1..])
  }

  lemma {:induction false} UsedSumCat(a: Layout, b: Layout)
    ensures UsedSum(a + b) == UsedSum(a) + UsedSum(b)
  {
    if a == [] {
      assert a + b == b;
    } else {
      assert (a + b)[1..] == a[1..] + b;
      UsedSumCat(a[1..], b);
    }
  }

  lemma UsedSumPair(a: Block, b: Block)
    ensures UsedSum([a]) == if a.used then a.next - a.off else 0
    ensures UsedSum([a, b]) == UsedSum([a]) + UsedSum([b])
  {
    UsedSumCat([a], [b]);
    assert [a] + [b] == [a, b];
    assert [a][1..] == [];
  }

  /** Replacing a segment changes the sum by the difference of the segments. */
  lemma UsedSumReplace(p: Layout, x: Layout, y: Layout, q: Layout)
    ensures UsedSum(p + y + q) == UsedSum(p + x + q) - UsedSum(x) + UsedSum(y)
  {
    UsedSumCat(p + x, q);
    UsedSumCat(p, x);
    UsedSumCat(p + y, q);
    UsedSumCat(p, y);
  }

  lemma {:induction false} TilesSum(bs: Layout, from: nat)
    requires |bs| > 0 && bs[0].off == from
    requires forall i, j :: 0 <= i < |bs| && j == i + 1 && j < |bs| ==> bs[i].next == bs[j].off
    ensures UsedSum(bs) + FreeSum(bs) == bs[|bs| - 1].next - from
  {
    if |bs| > 1 {
      TilesSum(bs[1..], bs[1].off);
    } else {
      assert bs[1..] == [];
    }
  }

  /** Used and free spans always add up to the whole arena. */
  lemma Conservation(bs: Layout, end: nat)
    requires Tiled(bs, end)
    ensures UsedSum(bs) + FreeSum(bs) == end
  {
    TilesSum(bs, 0);
  }

  /** mem.c adds exactly this much to `used` when it takes block `i`. */
  lemma {:induction false} UsedAfterAlloc(bs: Layout, i: nat, size: nat)
    requires i < |bs| && !bs[i].used
    ensures UsedSum(AllocAt(bs, i, size)) == UsedSum(bs) +
      (if Splits(bs[i], size) then size + HDR else bs[i].next - bs[i].off)
  {
    var b := bs[i];
    assert bs == bs[..i] + [b] + bs[i + 1..];
    var y := if Splits(b, size) then [Block(b.off, b.off + HDR + size, true), Block(b.off + HDR + size, b.next, false)]
             else [b.(used := true)];
    assert AllocAt(bs, i, size) == bs[..i] + y + bs[i + 1..];
    UsedSumPair(b, b);
    UsedSumPair(y[0], y[|y| - 1]);
    UsedSumPair(y[|y| - 1], b);
    UsedSumReplace(bs[..i], [b], y, bs[i + 1..]);
  }

  lemma {:induction false} UsedAfterMerge(bs: Layout, i: nat)
    requires i + 1 < |bs| && !bs[i].used && !bs[i + 1].used
    ensures UsedSum(Merge(bs, i)) == UsedSum(bs)
  {
    UsedSumPair(bs[i], bs[i + 1]);
    UsedSumPair(bs[i + 1], Block(bs[i].off, bs[i + 1].next, false));
    UsedSumPair(Block(bs[i].off, bs[i + 1].next, false), bs[i]);
    assert bs == bs[..i] + [bs[i], bs[i + 1]] + bs[i + 2..];
    UsedSumReplace(bs[..i], [bs[i], bs[i + 1]], [Block(bs[i].off, bs[i + 1].next, false)], bs[i + 2..]);
  }

  lemma {:induction false} UsedAfterPlug(bs: Layout, i: nat)
    requires i < |bs| && !bs[i].used
    ensures UsedSum(Plug(bs, i)) == UsedSum(bs)
  {
    if i + 1 < |bs| && !bs[i + 1].used { UsedAfterMerge(bs, i); MergeIs(bs, i); }
    var f := PlugForward(bs, i);
    if i > 0 && !f[i - 1].used { UsedAfterMerge(f, i - 1); }
  }

  lemma {:induction false} UsedAfterFree(bs: Layout, i: nat)
    requires i < |bs| && bs[i].used
    ensures UsedSum(FreeAt(bs, i)) == UsedSum(bs) - (bs[i].next - bs[i].off)
  {
    assert bs == bs[..i] + [bs[i]] + bs[i + 1..];
    UsedSumPair(bs[i], bs[i].(used := false));
    UsedSumPair(bs[i].(used := false), bs[i]);
    assert Mark(bs, i) == bs[..i] + [bs[i].(used := false)] + bs[i + 1..];
    UsedSumReplace(bs[..i], [bs[i]], [bs[i].(used := false)], bs[i + 1..]);
    UsedAfterPlug(Mark(bs, i), i);
  }

  lemma UsedSumCut(p: Layout, b: Block, u: Block, f: Block, q: Layout)
    requires u.used && !f.used
    ensures UsedSum(p + [u, f] + q) == UsedSum(p + [b] + q) - UsedSum([b]) + u.next - u.off
  {
    UsedSumPair(u, f);
    UsedSumPair(f, b);
    UsedSumReplace(p, [b], [u, f], q);
  }

  lemma {:induction false} UsedAfterSplit(bs: Layout, i: nat, size: nat)
    requires i < |bs|
    ensures UsedSum(SplitAt(bs, i, size)) == UsedSum(bs) - UsedSum([bs[i]]) + size + HDR
  {
    var b := bs[i];
    UsedSumCut(bs[..i], b, Block(b.off, b.off + HDR + size, true), Block(b.off + HDR + size, b.next, false), bs[i + 1..]);
    assert bs == bs[..i] + [b] + bs[i + 1..];
  }

  lemma {:induction false} UsedAfterShrink(bs: Layout, i: nat, size: nat)
    requires i < |bs| && bs[i].used
    ensures UsedSum(ShrinkAt(bs, i, size)) == UsedSum(bs) - (bs[i].next - bs[i].off - HDR - size)
  {
    UsedAfterSplit(bs, i, size);
    UsedSumPair(bs[i], bs[i]);
    SplitIs(bs, i, size);
    UsedAfterPlug(SplitAt(bs, i, size), i + 1);
  }

  // ------------------------------------------------- the lowest-free cursor

  lemma FirstIs(bs: Layout, size: nat, k: nat)
    requires k <= |bs| && (k < |bs| ==> Fits(bs[k], size))
    requires forall i :: 0 <= i < k ==> !Fits(bs[i], size)
    ensures First(bs, size) == k
  {
  }

  /** Starting the search at the lowest free block gives the answer of a scan from offset 0. */
  lemma CursorSkipsNothing(bs: Layout, size: nat)
    ensures FirstFrom(bs, size, First(bs, 0)) == First(bs, size)
  {
    FirstIs(bs, size, FirstFrom(bs, size, First(bs, 0)));
  }

  lemma MergeLowest(bs: Layout, end: nat, i: nat)
    requires Tiled(bs, end) && i + 1 < |bs| && !bs[i].used
    ensures LowestFree(Merge(bs, i), end) == LowestFree(bs, end)
  {
    MergeIs(bs, i);
    var r, k := Merge(bs, i), First(bs, 0);
    assert Fits(bs[i], 0) && k <= i;
    FirstIs(r, 0, k);
  }

  /** Coalescing never moves the lowest free block. */
  lemma {:induction false} PlugLowest(bs: Layout, end: nat, i: nat)
    requires Tiled(bs, end) && i < |bs| && !bs[i].used && FreeNeighboursOnlyAt(bs, i)
    ensures LowestFree(Plug(bs, i), end) == LowestFree(bs, end)
  {
    if i + 1 < |bs| && !bs[i + 1].used { MergeLowest(bs, end, i); }
    PlugForwardKeeps(bs, end, i);
    var f := PlugForward(bs, i);
    if i > 0 && !f[i - 1].used { MergeLowest(f, end, i - 1); }
  }

  lemma FirstFreeOffset(bs: Layout, end: nat, i: nat)
    requires Tiled(bs, end) && i < |bs|
    ensures First(bs, 0) <= i <==> LowestFree(bs, end) <= bs[i].off
  {
    var k := First(bs, 0);
    if i < k < |bs| { Ordered(bs, end, i, k); }
    if k < i { Ordered(bs, end, k, i); }
  }

  lemma {:induction false} LowestAtMost(bs: Layout, end: nat, i: nat)
    requires Tiled(bs, end) && i < |bs| && !bs[i].used
    ensures LowestFree(bs, end) <= bs[i].off < bs[i].next
  {
    assert Fits(bs[i], 0);
    FirstFreeOffset(bs, end, i);
  }

  /** Taking a block above the cursor leaves the cursor; below it nothing is free. */
  lemma AllocLowest(bs: Layout, end: nat, i: nat, size: nat)
    requires i < |bs| && Fits(bs[i], size)
    ensures forall k :: 0 <= k < i ==> AllocAt(bs, i, size)[k] == bs[k]
    ensures First(bs, 0) < i ==> LowestFree(AllocAt(bs, i, size), end) == LowestFree(bs, end)
    ensures First(bs, 0) <= i
  {
    var a, k := AllocAt(bs, i, size), First(bs, 0);
    assert Fits(bs[i], 0);
    if k < i { FirstIs(a, 0, k); }
  }

  /** Everything an allocation changes besides the layout itself. */
  lemma {:induction false} AllocFacts(bs: Layout, end: nat, i: nat, size: nat)
    requires Inv(bs, end) && i < |bs| && Fits(bs[i], size) && size >= MIN
    ensures var a := AllocAt(bs, i, size);
      && Inv(a, end) && i < |a| && a[i].off == bs[i].off
      && UsedSum(a) == UsedSum(bs) + (if Splits(bs[i], size) then size + HDR else bs[i].next - bs[i].off)
      && (bs[i].off != LowestFree(bs, end) ==> LowestFree(a, end) == LowestFree(bs, end))
      && (bs[i].off == LowestFree(bs, end) ==> forall j :: 0 <= j < i ==> a[j].used)
  {
    AllocInv(bs, end, i, size);
    UsedAfterAlloc(bs, i, size);
    AllocLowest(bs, end, i, size);
    var k := First(bs, 0);
    if k < i { Ordered(bs, end, k, i); }
  }

  /** Marking block `i` free pulls the cursor down to it, never past it. */
  lemma {:induction false} MarkLowest(bs: Layout, end: nat, i: nat, r: Layout)
    requires Tiled(bs, end) && Tiled(r, end) && i < |bs| && i < |r| && !r[i].used && r[i].off == bs[i].off
    requires bs[i].used
    requires forall k :: 0 <= k < i ==> r[k] == bs[k]
    ensures LowestFree(r, end) == if bs[i].off < LowestFree(bs, end) then bs[i].off else LowestFree(bs, end)
  {
    FirstFreeOffset(bs, end, i);
    FirstIs(r, 0, if First(bs, 0) < i then First(bs, 0) else i);
  }

  // ------------------------------------------------------- free undoes alloc

  /** Freeing a block just allocated gives back the very layout there was before, and
      with it the cursor and the accounting. */
  lemma FreeUndoesAlloc(bs: Layout, end: nat, i: nat, size: nat)
    requires Inv(bs, end) && i < |bs| && Fits(bs[i], size)
    ensures FreeAt(AllocAt(bs, i, size), i) == bs
  {
    if Splits(bs[i], size) {
      JoinUndoesSplit(bs, i, size);
    } else {
      var m := Mark(AllocAt(bs, i, size), i);
      assert m == bs && PlugForward(m, i) == bs;
    }
  }

  lemma JoinUndoesSplit(bs: Layout, i: nat, size: nat)
    requires NoFreeNeighbours(bs) && i < |bs| && !bs[i].used
    ensures Plug(Mark(SplitAt(bs, i, size), i), i) == bs
  {
    var m := Mark(SplitAt(bs, i, size), i);
    SplitIs(bs, i, size);
    MergeIs(m, i);
    assert PlugForward(m, i) == bs;
  }

  /** The block an allocation of `n` words hands out has at least `n` user words. */
  lemma AllocatedBlock(bs: Layout, end: nat, n: nat)
    requires Inv(bs, end) && n + HDR <= end && First(bs, Clamp(n)) < |bs|
    ensures var k, a := First(bs, Clamp(n)), DoAlloc(bs, end, n);
      && Inv(a, end) && k < |a| && a[k].used && a[k].off == bs[k].off && a[k].next >= a[k].off + HDR + n
  {
    AllocInv(bs, end, First(bs, Clamp(n)), Clamp(n));
  }

  /** The calls: rt_smem_free of what rt_smem_alloc just returned. */
  lemma FreeCallUndoesAllocCall(bs: Layout, end: nat, n: nat)
    requires Inv(bs, end) && n + HDR <= end && First(bs, Clamp(n)) < |bs|
    ensures DoFree(DoAlloc(bs, end, n), bs[First(bs, Clamp(n))].off) == bs
  {
    var k := First(bs, Clamp(n));
    AllocatedBlock(bs, end, n);
    IndexUnique(DoAlloc(bs, end, n), end, k);
    FreeUndoesAlloc(bs, end, k, Clamp(n));
  }

  // ------------------------------------------------------------- live blocks

  ghost function LiveBlocks(bs: Layout): set<Block> {
    set b | b in bs && b.used
  }

  lemma OffsetsDiffer(bs: Layout, end: nat, i: nat)
    requires Tiled(bs, end) && i < |bs|
    ensures forall k :: 0 <= k < |bs| && k != i ==> bs[k].off != bs[i].off
  {
    forall k | 0 <= k < |bs| && k != i ensures bs[k].off != bs[i].off {
      if k < i { Ordered(bs, end, k, i); } else { Ordered(bs, end, i, k); }
    }
  }

  lemma AllocLive(bs: Layout, i: nat, size: nat)
    requires i < |bs| && !bs[i].used
    ensures AllocAt(bs, i, size)[i].used && AllocAt(bs, i, size)[i].off == bs[i].off
    ensures LiveBlocks(AllocAt(bs, i, size)) == LiveBlocks(bs) + {AllocAt(bs, i, size)[i]}
  {
    var a := AllocAt(bs, i, size);
    if Splits(bs[i], size) {
      SplitIs(bs, i, size);
      forall b | b in LiveBlocks(bs) ensures b in a {
        var k :| 0 <= k < |bs| && bs[k] == b;
        assert a[if k < i then k else k + 1] == b;
      }
    } else {
      forall b | b in LiveBlocks(bs) ensures b in a {
        var k :| 0 <= k < |bs| && bs[k] == b;
        assert a[k] == b;
      }
    }
  }

  lemma MergeLive(bs: Layout, i: nat)
    requires i + 1 < |bs| && !bs[i].used && !bs[i + 1].used
    ensures LiveBlocks(Merge(bs, i)) == LiveBlocks(bs)
  {
    var r := Merge(bs, i);
    MergeIs(bs, i);
    forall b | b in LiveBlocks(bs) ensures b in r {
      var k :| 0 <= k < |bs| && bs[k] == b;
      assert r[if k < i then k else k - 1] == b;
    }
  }

  lemma PlugLive(bs: Layout, i: nat)
    requires i < |bs| && !bs[i].used
    ensures LiveBlocks(Plug(bs, i)) == LiveBlocks(bs)
  {
    if i + 1 < |bs| && !bs[i + 1].used { MergeLive(bs, i); MergeIs(bs, i); }
    var f := PlugForward(bs, i);
    if i > 0 && !f[i - 1].used { MergeLive(f, i - 1); }
  }

  /** A free removes exactly the freed block from the live ones. */
  lemma FreeLive(bs: Layout, end: nat, i: nat)
    requires Tiled(bs, end) && i < |bs| && bs[i].used
    ensures LiveBlocks(FreeAt(bs, i)) == LiveBlocks(bs) - {bs[i]}
  {
    var m := Mark(bs, i);
    PlugLive(m, i);
    OffsetsDiffer(bs, end, i);
    forall b | b in LiveBlocks(bs) - {bs[i]} ensures b in m {
      var k :| 0 <= k < |bs| && bs[k] == b;
      assert m[k] == b;
    }
  }

  /** A shrink replaces the block by its first part and leaves the other live blocks. */
  lemma ShrinkLive(bs: Layout, end: nat, i: nat, size: nat)
    requires Tiled(bs, end) && i < |bs| && bs[i].used
    ensures LiveBlocks(ShrinkAt(bs, i, size)) ==
            LiveBlocks(bs) - {bs[i]} + {Block(bs[i].off, bs[i].off + HDR + size, true)}
  {
    var s := SplitAt(bs, i, size);
    SplitIs(bs, i, size);
    PlugLive(s, i + 1);
    OffsetsDiffer(bs, end, i);
    SplitLive(bs, i, size, s);
  }

  lemma SplitLive(bs: Layout, i: nat, size: nat, s: Layout)
    requires i < |bs| && bs[i].used && IsSplit(bs, i, size, s)
    requires forall k :: 0 <= k < |bs| && k != i ==> bs[k].off != bs[i].off
    ensures LiveBlocks(s) == LiveBlocks(bs) - {bs[i]} + {Block(bs[i].off, bs[i].off + HDR + size, true)}
  {
    forall b | b in LiveBlocks(bs) - {bs[i]} ensures b in s {
      var k :| 0 <= k < |bs| && bs[k] == b;
      assert s[if k < i then k else k + 1] == b;
    }
    assert s[i] in s;
  }

  // -------------------------------------------------------------------- runs

  /** A call on the heap; sizes are already rounded to words. */
  datatype Op = Alloc(n: nat) | Free(off: nat) | Realloc(off: nat, n: nat)

  /** What a request for `n` words takes. */
  function Clamp(n: nat): nat { if n < MIN then MIN else n }

  lemma ClampIsMaximum(n: nat)
    ensures Clamp(n) >= n && Clamp(n) >= 3 && (Clamp(n) == n || Clamp(n) == 3)
  {
  }

  function DoAlloc(bs: Layout, end: nat, n: nat): Layout {
    if n + HDR > end then bs
    else var k := First(bs, Clamp(n)); if k == |bs| then bs else AllocAt(bs, k, Clamp(n))
  }

  function DoFree(bs: Layout, off: nat): Layout {
    var i := IndexOf(bs, off); if i == |bs| then bs else FreeAt(bs, i)
  }

  /** Move: allocate first, then free the old block. */
  function DoMove(bs: Layout, end: nat, off: nat, n: nat): Layout {
    if First(bs, Clamp(n)) == |bs| then bs else DoFree(DoAlloc(bs, end, n), off)
  }

  function DoRealloc(bs: Layout, end: nat, off: nat, n: nat): Layout {
    var i := IndexOf(bs, off);
    if n + HDR > end || i == |bs| then bs
    else if n == 0 then FreeAt(bs, i)
    else
      var size := bs[i].next - bs[i].off - HDR;
      if size == n then bs
      else if n + HDR + MIN < size then ShrinkAt(bs, i, n)
      else DoMove(bs, end, off, n)
  }

  function Apply(bs: Layout, end: nat, op: Op): Layout {
    match op
    case Alloc(n) => DoAlloc(bs, end, n)
    case Free(off) => DoFree(bs, off)
    case Realloc(off, n) => DoRealloc(bs, end, off, n)
  }

  /** What the source demands: free and realloc get a live block. */
  ghost predicate Legal(bs: Layout, op: Op) {
    match op
    case Alloc(_) => true
    case Free(off) => Live(bs, off)
    case Realloc(off, _) => Live(bs, off)
  }

  function Run(end: nat, ops: seq<Op>): Layout {
    if ops == [] then Fresh(end) else Apply(Run(end, ops[..|ops| - 1]), end, ops[|ops| - 1])
  }

  ghost predicate LegalRun(end: nat, ops: seq<Op>) {
    ops == [] || (LegalRun(end, ops[..|ops| - 1]) && Legal(Run(end, ops[..|ops| - 1]), ops[|ops| - 1]))
  }

  lemma LiveIndex(bs: Layout, end: nat, off: nat)
    requires Tiled(bs, end) && Live(bs, off)
    ensures IndexOf(bs, off) < |bs| && bs[IndexOf(bs, off)].used
    ensures bs[IndexOf(bs, off)].off == off
  {
    var i :| 0 <= i < |bs| && bs[i].off == off && bs[i].used;
    IndexUnique(bs, end, i);
  }

  /** Freeing a live block, seen from its index. */
  lemma FreePlan(bs: Layout, end: nat, off: nat) returns (i: nat)
    requires Inv(bs, end) && Live(bs, off)
    ensures i < |bs| && bs[i].off == off && bs[i].used && FreeAt(bs, i) == DoFree(bs, off)
    ensures Inv(FreeAt(bs, i), end) && UsedSum(FreeAt(bs, i)) == UsedSum(bs) - (bs[i].next - off) <= UsedSum(bs)
  {
    LiveIndex(bs, end, off);
    i := IndexOf(bs, off);
    FreeInv(bs, end, i);
    UsedAfterFree(bs, i);
  }

  lemma DoAllocInv(bs: Layout, end: nat, n: nat)
    requires Inv(bs, end)
    ensures Inv(DoAlloc(bs, end, n), end)
    ensures forall off :: Live(bs, off) ==> Live(DoAlloc(bs, end, n), off)
  {
    var a := DoAlloc(bs, end, n);
    if a != bs {
      var k := First(bs, Clamp(n));
      AllocInv(bs, end, k, Clamp(n));
      AllocLive(bs, k, Clamp(n));
      forall off | Live(bs, off) ensures Live(a, off) {
        var i :| 0 <= i < |bs| && bs[i].off == off && bs[i].used;
        assert bs[i] in LiveBlocks(a);
      }
    }
  }

  /** Any legal call keeps the layout invariant. */
  lemma ApplyInv(bs: Layout, end: nat, op: Op)
    requires Inv(bs, end) && Legal(bs, op)
    ensures Inv(Apply(bs, end, op), end)
  {
    match op
    case Alloc(n) => DoAllocInv(bs, end, n);
    case Free(off) => LiveIndex(bs, end, off); FreeInv(bs, end, IndexOf(bs, off));
    case Realloc(off, n) =>
      LiveIndex(bs, end, off);
      var i := IndexOf(bs, off);
      var size := bs[i].next - bs[i].off - HDR;
      if n + HDR <= end && n == 0 {
        FreeInv(bs, end, i);
      } else if n + HDR <= end && size != n && n + HDR + MIN < size {
        ShrinkInv(bs, end, i, n);
      } else if n + HDR <= end && size != n && First(bs, Clamp(n)) < |bs| {
        var a := DoAlloc(bs, end, n);
        DoAllocInv(bs, end, n);
        LiveIndex(a, end, off);
        FreeInv(a, end, IndexOf(a, off));
      }
  }

  /** The layout invariant holds after every run of legal calls. */
  lemma {:induction false} RunInv(end: nat, ops: seq<Op>)
    requires HDR <= end && LegalRun(end, ops)
    ensures Inv(Run(end, ops), end)
  {
    if ops != [] {
      RunInv(end, ops[..|ops| - 1]);
      ApplyInv(Run(end, ops[..|ops| - 1]), end, ops[|ops| - 1]);
    }
  }

  /** Two blocks need two headers and a user word each. */
  lemma TwoBlocksNeed(bs: Layout, end: nat)
    requires Tiled(bs, end) && |bs| > 1
    ensures end >= 2 * HDR + 2
  {
    assert bs[0].next == bs[1].off;
  }

  lemma TwoBlocksHaveLive(bs: Layout, end: nat)
    requires Inv(bs, end) && |bs| > 1
    ensures exists b :: b in LiveBlocks(bs)
  {
    assert bs[if bs[0].used then 0 else 1] in LiveBlocks(bs);
  }

  lemma MarkTiled(bs: Layout, end: nat, i: nat)
    requires Inv(bs, end) && i < |bs| && bs[i].used
    ensures Tiled(Mark(bs, i), end) && FreeNeighboursOnlyAt(Mark(bs, i), i)
  {
  }

  /** The cursor after a free: pulled down to the freed block, never past it. */
  lemma {:induction false} FreeLowest(bs: Layout, end: nat, i: nat)
    requires Inv(bs, end) && i < |bs| && bs[i].used
    ensures LowestFree(Mark(bs, i), end) == if bs[i].off < LowestFree(bs, end) then bs[i].off else LowestFree(bs, end)
    ensures LowestFree(FreeAt(bs, i), end) == LowestFree(Mark(bs, i), end)
  {
    MarkTiled(bs, end, i);
    MarkLowest(bs, end, i, Mark(bs, i));
    PlugLowest(Mark(bs, i), end, i);
  }

  lemma SplitSeparates(bs: Layout, end: nat, i: nat, size: nat, s: Layout)
    requires Inv(bs, end) && IsSplit(bs, i, size, s) && bs[i].used && size > 0
    requires bs[i].off + HDR + size + HDR < bs[i].next
    ensures Tiled(s, end) && FreeNeighboursOnlyAt(s, i + 1)
  {
    SplitTiled(bs, end, i, size, s);
  }

  lemma {:induction false} SplitLowest(bs: Layout, end: nat, i: nat, size: nat, s: Layout)
    requires Tiled(bs, end) && IsSplit(bs, i, size, s) && bs[i].used && Tiled(s, end)
    ensures LowestFree(s, end) == if s[i + 1].off < LowestFree(bs, end) then s[i + 1].off else LowestFree(bs, end)
  {
    FirstFreeOffset(bs, end, i);
    var k := First(bs, 0);
    FirstIs(s, 0, if k < i then k else i + 1);
    if k < i { Ordered(s, end, k, i + 1); }
    if i < k < |bs| { Ordered(bs, end, i, k); }
  }

  /** A used block cut short: the state plug_holes starts from, and the cursor, pulled
      down to the new remainder and never past it. */
  lemma {:induction false} SplitForRest(bs: Layout, end: nat, i: nat, size: nat)
    requires Inv(bs, end) && i < |bs| && bs[i].used && size > 0
    requires bs[i].off + HDR + size + HDR < bs[i].next
    ensures Tiled(SplitAt(bs, i, size), end) && FreeNeighboursOnlyAt(SplitAt(bs, i, size), i + 1)
    ensures i + 1 < |SplitAt(bs, i, size)|
    ensures SplitAt(bs, i, size)[i + 1] == Block(bs[i].off + HDR + size, bs[i].next, false)
    ensures LowestFree(SplitAt(bs, i, size), end) ==
            if bs[i].off + HDR + size < LowestFree(bs, end) then bs[i].off + HDR + size else LowestFree(bs, end)
  {
    var s := SplitAt(bs, i, size);
    SplitIs(bs, i, size);
    SplitSeparates(bs, end, i, size, s);
    SplitLowest(bs, end, i, size, s);
  }

  /** A shrink only releases words. */
  lemma ShrinkFacts(bs: Layout, end: nat, i: nat, size: nat)
    requires Inv(bs, end) && i < |bs| && bs[i].used && size > 0
    requires bs[i].off + HDR + size + HDR < bs[i].next
    ensures Inv(ShrinkAt(bs, i, size), end) && Block(bs[i].off, bs[i].off + HDR + size, true) in ShrinkAt(bs, i, size)
    ensures UsedSum(ShrinkAt(bs, i, size)) == UsedSum(bs) - (bs[i].next - bs[i].off - HDR - size)
  {
    ShrinkInv(bs, end, i, size);
    UsedAfterShrink(bs, i, size);
    ShrinkLive(bs, end, i, size);
    assert Block(bs[i].off, bs[i].off + HDR + size, true) in LiveBlocks(ShrinkAt(bs, i, size));
  }

  lemma {:induction false} PlugForwardFacts(bs: Layout, end: nat, i: nat, f: Layout)
    requires Tiled(bs, end) && i < |bs| && !bs[i].used && FreeNeighboursOnlyAt(bs, i) && f == PlugForward(bs, i)
    ensures if i + 1 < |bs| && !bs[i + 1].used then IsMerge(bs, i, f) else f == bs
    ensures Tiled(f, end) && i < |f| && !f[i].used && f[i].off == bs[i].off
    ensures forall b :: b in bs && b.used ==> b in f
  {
    PlugForwardKeeps(bs, end, i);
    if i + 1 < |bs| && !bs[i + 1].used {
      MergeIs(bs, i);
      MergeLive(bs, i);
      assert forall b :: b in bs && b.used ==> b in LiveBlocks(bs);
    }
  }

  /** The two steps of plug_holes as seen by the in-place code: each merges or does nothing,
      the cursor is below every block that vanishes, and live blocks stay. */
  lemma {:induction false} PlugFacts(bs: Layout, end: nat, i: nat, f: Layout, r: Layout)
    requires Tiled(bs, end) && i < |bs| && !bs[i].used && FreeNeighboursOnlyAt(bs, i)
    requires f == PlugForward(bs, i) && r == PlugBackward(f, i)
    requires i < |f| && (i > 0 ==> f[i - 1] == bs[i - 1])
    ensures if i > 0 && !f[i - 1].used then IsMerge(f, i - 1, r) && LowestFree(bs, end) < bs[i].off else r == f
    ensures LowestFree(r, end) == LowestFree(bs, end) <= bs[i].off < bs[i].next
  {
    PlugLowest(bs, end, i);
    LowestAtMost(bs, end, i);
    if i > 0 && !f[i - 1].used {
      MergeIs(f, i - 1);
      LowestAtMost(bs, end, i - 1);
    }
  }

  /** With nothing live the heap is one free block again. */
  lemma NothingLiveIsFresh(bs: Layout, end: nat)
    requires Inv(bs, end) && LiveBlocks(bs) == {}
    ensures bs == Fresh(end) && UsedSum(bs) == 0 && LowestFree(bs, end) == 0
  {
    if |bs| > 1 { TwoBlocksHaveLive(bs, end); }
    assert bs[0] !in LiveBlocks(bs);
    assert bs[1..] == [];
  }

  function FreeAll(bs: Layout, offs: seq<nat>): Layout
    decreases |offs|
  {
    if offs == [] then bs else FreeAll(DoFree(bs, offs[0]), offs[1..])
  }

  /** `offs` lists the headers of the live blocks, each once, in any order. */
  ghost predicate ListsLive(bs: Layout, offs: seq<nat>) {
    && (forall i, j :: 0 <= i < j < |offs| ==> offs[i] != offs[j])
    && (forall o :: o in offs ==> Live(bs, o))
    && (forall o :: Live(bs, o) ==> o in offs)
  }

  /** Freeing block `i` leaves every other live block, and no block at its offset, live. */
  lemma FreeLiveOffsets(bs: Layout, end: nat, i: nat, o: nat)
    requires Inv(bs, end) && i < |bs| && bs[i].used
    ensures Live(FreeAt(bs, i), o) <==> Live(bs, o) && o != bs[i].off
  {
    var f := FreeAt(bs, i);
    FreeLive(bs, end, i);
    OffsetsDiffer(bs, end, i);
    if Live(bs, o) && o != bs[i].off {
      var k :| 0 <= k < |bs| && bs[k].off == o && bs[k].used;
      assert bs[k] in LiveBlocks(f);
    }
    if Live(f, o) {
      var k :| 0 <= k < |f| && f[k].off == o && f[k].used;
      assert f[k] in LiveBlocks(f) && f[k] in LiveBlocks(bs);
    }
  }

  /** A free never leaves the layout as it was. */
  lemma FreeChanges(bs: Layout, end: nat, off: nat)
    requires Inv(bs, end) && Live(bs, off)
    ensures !Live(DoFree(bs, off), off) && DoFree(bs, off) != bs
  {
    LiveIndex(bs, end, off);
    FreeLiveOffsets(bs, end, IndexOf(bs, off), off);
  }

  lemma LiveBlockIsLive(bs: Layout, b: Block)
    requires b in LiveBlocks(bs)
    ensures Live(bs, b.off)
  {
  }

  /** Freeing the first listed block leaves the rest of the list the live blocks. */
  lemma FreeListed(bs: Layout, end: nat, offs: seq<nat>)
    requires Inv(bs, end) && ListsLive(bs, offs) && |offs| > 0
    ensures Inv(DoFree(bs, offs[0]), end) && ListsLive(DoFree(bs, offs[0]), offs[1..])
  {
    var off, rest := offs[0], offs[1..];
    assert Live(bs, off);
    LiveIndex(bs, end, off);
    var i := IndexOf(bs, off);
    var f := FreeAt(bs, i);
    FreeInv(bs, end, i);
    forall o | o in rest ensures Live(f, o) {
      assert o in offs && o != off;
      FreeLiveOffsets(bs, end, i, o);
    }
    forall o | Live(f, o) ensures o in rest {
      FreeLiveOffsets(bs, end, i, o);
      assert o in offs;
    }
  }

  /** From any reachable layout: freeing every live block, in whatever order, ends in
      the fresh heap. */
  lemma {:induction false} FreeAllIsFresh(bs: Layout, end: nat, offs: seq<nat>)
    requires Inv(bs, end) && ListsLive(bs, offs)
    ensures FreeAll(bs, offs) == Fresh(end)
    decreases |offs|
  {
    if offs == [] {
      forall b | b in LiveBlocks(bs) ensures false { LiveBlockIsLive(bs, b); }
      NothingLiveIsFresh(bs, end);
    } else {
      FreeListed(bs, end, offs);
      FreeAllIsFresh(DoFree(bs, offs[0]), end, offs[1..]);
    }
  }

  /** The whole-run statement: any legal run, then freeing what is live in any order,
      leaves one free block, nothing used and the cursor at offset 0. */
  lemma RunThenFreeAll(end: nat, ops: seq<Op>, offs: seq<nat>)
    requires HDR <= end && LegalRun(end, ops) && ListsLive(Run(end, ops), offs)
    ensures var bs := FreeAll(Run(end, ops), offs);
      bs == Fresh(end) && UsedSum(bs) == 0 && LowestFree(bs, end) == 0
  {
    RunInv(end, ops);
    FreeAllIsFresh(Run(end, ops), end, offs);
    NothingLiveIsFresh(Fresh(end), end);
  }

  // ------------------------------------------------------ largest use so far

  /** The largest `UsedSum` over a non-empty history of layouts. */
  function Peak(history: seq<Layout>): int
    requires |history| > 0
  {
    var u := UsedSum(history[|history| - 1]);
    if |history| == 1 then u
    else var p := Peak(history[..|history| - 1]); if p < u then u else p
  }

  lemma PeakExtend(history: seq<Layout>, bs: Layout)
    requires |history| > 0
    ensures Peak(history + [bs]) == if Peak(history) < UsedSum(bs) then UsedSum(bs) else Peak(history)
  {
    assert (history + [bs])[..|history|] == history;
  }

  /** A layout that uses no more than the last one does not raise the peak. */
  lemma PeakAfterRelease(history: seq<Layout>, bs: Layout)
    requires |history| > 0 && UsedSum(bs) <= UsedSum(history[|history| - 1])
    ensures Peak(history + [bs]) == Peak(history)
  {
    PeakExtend(history, bs);
  }

  /** `Peak` is a value some layout had and none exceeded. */
  lemma {:induction false} PeakIsMaximum(history: seq<Layout>)
    requires |history| > 0
    ensures exists i :: 0 <= i < |history| && UsedSum(history[i]) == Peak(history)
    ensures forall i :: 0 <= i < |history| ==> UsedSum(history[i]) <= Peak(history)
  {
    var last := |history| - 1;
    if |history| == 1 || Peak(history[..last]) < UsedSum(history[last]) {
      assert UsedSum(history[last]) == Peak(history);
    }
    if |history| > 1 {
      var front := history[..last];
      PeakIsMaximum(front);
      var i :| 0 <= i < |front| && UsedSum(front[i]) == Peak(front);
      assert history[i] == front[i];
      forall j | 0 <= j < |history| ensures UsedSum(history[j]) <= Peak(history) {
        if j < |front| { assert history[j] == front[j]; }
      }
    }
  }

  // ------------------------------------------------------------ moving a block

  /** The block a move allocates for live block `i`: large enough, and clear of it. */
  lemma {:induction false} MoveTarget(bs: Layout, end: nat, i: nat, n: nat)
    requires Inv(bs, end) && i < |bs| && bs[i].used && n + HDR <= end && First(bs, Clamp(n)) < |bs|
    ensures var k, a := First(bs, Clamp(n)), DoAlloc(bs, end, n);
      && Inv(a, end) && k < |a| && a[k].used && a[k].off == bs[k].off && a[k].next >= a[k].off + HDR + n
      && LiveBlocks(a) == LiveBlocks(bs) + {a[k]}
      && (a[k].next <= bs[i].off || bs[i].next <= a[k].off)
  {
    var k := First(bs, Clamp(n));
    AllocInv(bs, end, k, Clamp(n));
    AllocLive(bs, k, Clamp(n));
    if k < i { Ordered(bs, end, k, i); } else { Ordered(bs, end, i, k); }
  }

  lemma AllocKeepsOthers(bs: Layout, end: nat, k: nat, a: Layout)
    requires Inv(bs, end) && k < |bs| && !bs[k].used
    requires k < |a| && a[k].off == bs[k].off && LiveBlocks(a) == LiveBlocks(bs) + {a[k]}
    ensures forall b :: b in bs && b.used ==> b in a && b.off != a[k].off
  {
    OffsetsDiffer(bs, end, k);
    forall b | b in bs && b.used ensures b in a && b.off != a[k].off {
      assert b in LiveBlocks(bs);
      assert b in LiveBlocks(a);
    }
  }

  /** Room of a block: its user words. */
  function Room(b: Block): int { b.next - b.off - HDR }

  /** Block `j` of `cs` is what `n` words are served with from the free block `b`: all of `b`
      when less than six words would be left over, else exactly what is asked for, with one
      free block of all the rest behind it. */
  ghost predicate Served(b: Block, cs: Layout, j: nat, n: nat) {
    && j < |cs| && cs[j].used && cs[j].off == b.off && Room(cs[j]) >= Clamp(n)
    && if Room(b) - Clamp(n) < 6 then cs[j].next == b.next
       else Room(cs[j]) == Clamp(n) && j + 1 < |cs| && cs[j + 1] == Block(cs[j].next, b.next, false)
  }

  /** How large the block is that an allocation of `n` words hands out: less than six words
      more than needed.  What is free shrinks by exactly what is needed and a header, if the
      block found has six words to spare, else by the whole block. */
  lemma AllocServes(bs: Layout, end: nat, n: nat)
    requires Inv(bs, end) && n + HDR <= end && First(bs, Clamp(n)) < |bs|
    ensures var k, a := First(bs, Clamp(n)), DoAlloc(bs, end, n);
      && Served(bs[k], a, k, n) && Clamp(n) <= Room(a[k]) < Clamp(n) + 6
      && FreeSum(a) == FreeSum(bs) - 3 - (if Room(bs[k]) >= Clamp(n) + 6 then Clamp(n) else Room(bs[k]))
  {
    var k := First(bs, Clamp(n));
    AllocInv(bs, end, k, Clamp(n));
    UsedAfterAlloc(bs, k, Clamp(n));
    Conservation(bs, end);
    Conservation(DoAlloc(bs, end, n), end);
  }

  ghost predicate NoRoom(bs: Layout, n: nat) { forall b :: b in bs && !b.used ==> Room(b) < Clamp(n) }

  /** Nothing is handed out exactly when every free block is too small; otherwise every free
      block in front of the one taken is. */
  lemma FirstFit(bs: Layout, end: nat, n: nat)
    requires Inv(bs, end)
    ensures First(bs, Clamp(n)) == |bs| <==> NoRoom(bs, n)
    ensures First(bs, Clamp(n)) < |bs| ==>
      forall b :: b in bs && !b.used && b.off < bs[First(bs, Clamp(n))].off ==> Room(b) < Clamp(n)
  {
    var k := First(bs, Clamp(n));
    if k < |bs| {
      assert bs[k] in bs;
      forall b | b in bs && !b.used && b.off < bs[k].off ensures Room(b) < Clamp(n) {
        var i :| 0 <= i < |bs| && bs[i] == b;
        if k < i { Ordered(bs, end, k, i); }
      }
    }
  }

  /** The pointer `p` is the lowest free block of `bs` with room for `n` words, and in `cs` a
      live block with less than six words more than needed, the rest a free block behind it. */
  ghost predicate Snug(bs: Layout, cs: Layout, p: nat, n: nat) {
    exists k {:trigger bs[k]} :: 0 <= k < |bs| && !bs[k].used && bs[k].off + HDR == p && Room(bs[k]) >= Clamp(n)
      && Served(bs[k], cs, k, n) && Room(cs[k]) < Clamp(n) + 6
      && forall b :: b in bs && !b.used && b.off < bs[k].off ==> Room(b) < Clamp(n)
  }

  /** A live block of `bs` starts at `p` and has at least `n` words. */
  ghost predicate RoomyIn(bs: Layout, p: nat, n: nat) {
    exists b :: b in bs && b.used && b.off + HDR == p && b.next - p >= n
  }

  lemma AllocRoomy(bs: Layout, end: nat, n: nat)
    requires Inv(bs, end) && n + HDR <= end && First(bs, Clamp(n)) < |bs|
    ensures RoomyIn(DoAlloc(bs, end, n), bs[First(bs, Clamp(n))].off + HDR, n)
  {
    var k := First(bs, Clamp(n));
    AllocatedBlock(bs, end, n);
    assert DoAlloc(bs, end, n)[k] in DoAlloc(bs, end, n);
  }

  lemma AllocSnug(bs: Layout, end: nat, n: nat)
    requires Inv(bs, end) && n + HDR <= end && First(bs, Clamp(n)) < |bs|
    ensures Snug(bs, DoAlloc(bs, end, n), bs[First(bs, Clamp(n))].off + HDR, n)
  {
    FirstFit(bs, end, n);
    AllocServes(bs, end, n);
  }

  /** An allocation keeps every live block and hands out another one. */
  lemma AllocApart(bs: Layout, end: nat, n: nat)
    requires Inv(bs, end) && n + HDR <= end && First(bs, Clamp(n)) < |bs|
    ensures forall b :: b in bs && b.used ==> b in DoAlloc(bs, end, n) && b.off != bs[First(bs, Clamp(n))].off
  {
    var k := First(bs, Clamp(n));
    AllocatedBlock(bs, end, n);
    AllocLive(bs, k, Clamp(n));
    AllocKeepsOthers(bs, end, k, DoAlloc(bs, end, n));
  }

  /** What moving block `i` starts from: the new block `k`, and the old one, now block `o`. */
  ghost predicate Moving(bs: Layout, i: nat, cs: Layout, k: nat, o: nat, n: nat) {
    && i < |bs| && k < |cs| && o < |cs| && cs[k].used && cs[o].used && cs[o] == bs[i]
    && cs[k].off + HDR + n <= cs[k].next && (cs[k].next <= cs[o].off || cs[o].next <= cs[k].off)
    && (forall b :: b in bs && b.used ==> b in cs && b.off != cs[k].off)
  }

  lemma {:induction false} MovePlan(bs: Layout, end: nat, i: nat, n: nat) returns (o: nat)
    requires Inv(bs, end) && i < |bs| && bs[i].used && n + HDR <= end && First(bs, Clamp(n)) < |bs|
    ensures Moving(bs, i, DoAlloc(bs, end, n), First(bs, Clamp(n)), o, n)
    ensures DoAlloc(bs, end, n)[First(bs, Clamp(n))].off == bs[First(bs, Clamp(n))].off
  {
    var k, cs := First(bs, Clamp(n)), DoAlloc(bs, end, n);
    MoveTarget(bs, end, i, n);
    AllocKeepsOthers(bs, end, k, cs);
    o :| 0 <= o < |cs| && cs[o] == bs[i];
  }

  /** The three ways rt_smem_realloc resizes block `i`. */
  predicate IsResized(bs: Layout, end: nat, i: nat, n: nat, r: Layout)
    requires i < |bs|
  {
    var off := bs[i].off;
    if bs[i].next - off - HDR == n then r == bs
    else if n + HDR + MIN < bs[i].next - off - HDR then r == ShrinkAt(bs, i, n)
    else r == DoMove(bs, end, off, n)
  }

  lemma ReallocCases(bs: Layout, end: nat, off: nat, i: nat, n: nat)
    requires Tiled(bs, end) && i < |bs| && off == bs[i].off && 0 < n && n + HDR <= end
    ensures IsResized(bs, end, i, n, DoRealloc(bs, end, off, n))
  {
    IndexUnique(bs, end, i);
  }

  lemma FreeKeepsOthers(bs: Layout, end: nat, off: nat, i: nat, b: Block)
    requires Tiled(bs, end) && b in bs && b.used && b.off != off
    requires i < |bs| && bs[i].used && bs[i].off == off
    ensures Live(bs, off) && b in DoFree(bs, off)
  {
    IndexUnique(bs, end, i);
    FreeLive(bs, end, i);
    assert b in LiveBlocks(FreeAt(bs, i));
  }
}
