/** The block layout of the small-memory heap of rt-thread/src/mem.c, as a value.

    Offsets and sizes count 4-byte words (RT_ALIGN_SIZE is 4): every offset, header and
    rounded size of mem.c is a multiple of four bytes.  A layout lists the blocks from
    offset 0 up to the end marker; it is the specification the in-place allocator of
    module SmallMem is proved against. */
module HeapLayout {

  const HDR: nat := 3   // SIZEOF_STRUCT_MEM: three words pool_ptr, next, prev
  const MIN: nat := 3   // MIN_SIZE_ALIGNED: 12 bytes

  /** The block whose header is at `off` and whose successor's header is at `next`. */
  datatype Block = Block(off: nat, next: nat, used: bool)

  type Layout = seq<Block>

  /** Whether `b` is free and has room for `size` words. */
  predicate Fits(b: Block, size: nat) {
    !b.used && b.next - (b.off + HDR) >= size
  }

  /** The blocks tile the arena from offset 0 to `end`, in address order, and each has
      at least one user word (none only in the degenerate arena without user words). */
  ghost predicate Tiled(bs: Layout, end: nat) {
    && |bs| > 0 && bs[0].off == 0 && bs[|bs| - 1].next == end
    && (forall i :: 0 <= i < |bs| ==> bs[i].off + HDR <= bs[i].next <= end)
    && (forall i :: 0 <= i < |bs| && end > HDR ==> bs[i].off + HDR < bs[i].next)
    && (forall i, j :: 0 <= i < |bs| && j == i + 1 && j < |bs| ==> bs[i].next == bs[j].off)
  }

  lemma {:induction false} Ordered(bs: Layout, end: nat, i: nat, j: nat)
    requires Tiled(bs, end) && i < j < |bs|
    ensures bs[i].off + HDR <= bs[i].next <= bs[j].off
    decreases j - i
  {
    if i + 1 < j { Ordered(bs, end, i + 1, j); }
  }

  ghost predicate NoFreeNeighbours(bs: Layout) {
    forall i, j :: 0 <= i < |bs| && j == i + 1 && j < |bs| ==> bs[i].used || bs[j].used
  }

  /** What every heap operation keeps. */
  ghost predicate Inv(bs: Layout, end: nat) {
    Tiled(bs, end) && NoFreeNeighbours(bs)
  }

  /** The layout of a heap just initialised: one free block. */
  function Fresh(end: nat): Layout { [Block(0, end, false)] }

  // ---------------------------------------------------------------- first fit

  /** Index of the lowest block from index `k` on that fits `size`, or |bs|. */
  function FirstFrom(bs: Layout, size: nat, k: nat): (r: nat)
    requires k <= |bs|
    ensures k <= r <= |bs|
    ensures r < |bs| ==> Fits(bs[r], size)
    ensures forall i :: k <= i < r ==> !Fits(bs[i], size)
    decreases |bs| - k
  {
    if k == |bs| || Fits(bs[k], size) then k else FirstFrom(bs, size, k + 1)
  }

  /** Scan from offset 0: the simple form of the search. */
  function First(bs: Layout, size: nat): (r: nat)
    ensures r <= |bs|
    ensures r < |bs| ==> Fits(bs[r], size)
    ensures forall i :: 0 <= i < r ==> !Fits(bs[i], size)
  {
    FirstFrom(bs, size, 0)
  }

  /** Offset of block `k`, or of the end marker. */
  function OffsetAt(bs: Layout, end: nat, k: nat): nat
    requires k <= |bs|
  {
    if k < |bs| then bs[k].off else end
  }

  /** Offset of the lowest free block, or of the end marker. */
  function LowestFree(bs: Layout, end: nat): nat {
    OffsetAt(bs, end, First(bs, 0))
  }

  /** Index of the block whose header is at `off`, or |bs|. */
  function IndexFrom(bs: Layout, off: nat, k: nat): (r: nat)
    requires k <= |bs|
    ensures k <= r <= |bs|
    ensures r < |bs| ==> bs[r].off == off
    ensures forall i :: k <= i < r ==> bs[i].off != off
    decreases |bs| - k
  {
    if k == |bs| || bs[k].off == off then k else IndexFrom(bs, off, k + 1)
  }

  function IndexOf(bs: Layout, off: nat): (r: nat)
    ensures r <= |bs|
    ensures r < |bs| ==> bs[r].off == off
    ensures forall i :: 0 <= i < r ==> bs[i].off != off
  {
    IndexFrom(bs, off, 0)
  }

  ghost predicate Live(bs: Layout, off: nat) {
    exists i :: 0 <= i < |bs| && bs[i].off == off && bs[i].used
  }

  ghost predicate AllFree(bs: Layout) {
    forall i :: 0 <= i < |bs| ==> !bs[i].used
  }

  lemma IndexUnique(bs: Layout, end: nat, i: nat)
    requires Tiled(bs, end) && i < |bs|
    ensures IndexOf(bs, bs[i].off) == i
  {
    var r := IndexOf(bs, bs[i].off);
    if r < i { Ordered(bs, end, r, i); }
  }

  // --------------------------------------------------------------- operations

  /** A block big enough for a further header and MIN words is split in two. */
  predicate Splits(b: Block, size: nat) {
    b.next - (b.off + HDR) >= size + HDR + MIN
  }

  /** Block `i` cut after `size` user words: a used part and a free remainder. */
  function SplitAt(bs: Layout, i: nat, size: nat): Layout
    requires i < |bs|
  {
    var cut := bs[i].off + HDR + size;
    bs[..i] + [Block(bs[i].off, cut, true), Block(cut, bs[i].next, false)] + bs[i + 1..]
  }

  /** Take block `i` for a request of `size` words. */
  function AllocAt(bs: Layout, i: nat, size: nat): Layout
    requires i < |bs|
  {
    if Splits(bs[i], size) then SplitAt(bs, i, size) else bs[i := bs[i].(used := true)]
  }

  /** Blocks `i` and `i + 1` become one free block. */
  function Merge(bs: Layout, i: nat): Layout
    requires i + 1 < |bs|
  {
    bs[..i] + [Block(bs[i].off, bs[i + 1].next, false)] + bs[i + 2..]
  }

  function PlugForward(bs: Layout, i: nat): Layout
    requires i < |bs|
  {
    if i + 1 < |bs| && !bs[i + 1].used then Merge(bs, i) else bs
  }

  function PlugBackward(bs: Layout, i: nat): Layout
    requires i < |bs|
  {
    if i > 0 && !bs[i - 1].used then Merge(bs, i - 1) else bs
  }

  /** Coalesce the free block `i` with free neighbours on both sides. */
  function Plug(bs: Layout, i: nat): Layout
    requires i < |bs|
  {
    PlugBackward(PlugForward(bs, i), i)
  }

  function Mark(bs: Layout, i: nat): Layout
    requires i < |bs|
  {
    bs[i := bs[i].(used := false)]
  }

  /** Give block `i` back. */
  function FreeAt(bs: Layout, i: nat): Layout
    requires i < |bs|
  {
    Plug(Mark(bs, i), i)
  }

  /** Cut block `i` down to `size` words and coalesce the remainder. */
  function ShrinkAt(bs: Layout, i: nat, size: nat): Layout
    requires i < |bs|
  {
    Plug(SplitAt(bs, i, size), i + 1)
  }

  /** Free neighbours occur at most next to block `i`: the state plug_holes starts from. */
  ghost predicate FreeNeighboursOnlyAt(bs: Layout, i: nat) {
    forall k, j :: 0 <= k < |bs| && j == k + 1 && j < |bs| && k != i && j != i ==> bs[k].used || bs[j].used
  }

  /** Element-wise reading of Merge. */
  ghost predicate IsMerge(bs: Layout, i: nat, r: Layout) {
    && i + 1 < |bs| && |r| == |bs| - 1
    && (forall k :: 0 <= k < i ==> r[k] == bs[k])
    && r[i] == Block(bs[i].off, bs[i + 1].next, false)
    && (forall k :: i < k < |r| ==> r[k] == bs[k + 1])
  }

  /** Element-wise reading of SplitAt. */
  ghost predicate IsSplit(bs: Layout, i: nat, size: nat, r: Layout) {
    && i < |bs| && |r| == |bs| + 1
    && (forall k :: 0 <= k < i ==> r[k] == bs[k])
    && r[i] == Block(bs[i].off, bs[i].off + HDR + size, true)
    && r[i + 1] == Block(bs[i].off + HDR + size, bs[i].next, false)
    && (forall k :: i + 1 < k < |r| ==> r[k] == bs[k - 1])
  }

  lemma MergeIs(bs: Layout, i: nat)
    requires i + 1 < |bs|
    ensures IsMerge(bs, i, Merge(bs, i))
  {
  }

  lemma SplitIs(bs: Layout, i: nat, size: nat)
    requires i < |bs|
    ensures IsSplit(bs, i, size, SplitAt(bs, i, size))
  {
  }

  lemma MergeTiled(bs: Layout, end: nat, i: nat, r: Layout)
    requires Tiled(bs, end) && IsMerge(bs, i, r)
    ensures Tiled(r, end)
  {
  }

  lemma SplitTiled(bs: Layout, end: nat, i: nat, size: nat, r: Layout)
    requires Tiled(bs, end) && IsSplit(bs, i, size, r) && size > 0
    requires bs[i].off + HDR + size + HDR < bs[i].next
    ensures Tiled(r, end)
  {
    forall j, k | 0 <= j < |r| && k == j + 1 && k < |r| ensures r[j].next == r[k].off {
      if k < i { assert r[k] == bs[k] && r[j] == bs[j]; }
      if j > i + 1 { assert r[k] == bs[k - 1] && r[j] == bs[j - 1]; }
    }
  }

  lemma PlugForwardKeeps(bs: Layout, end: nat, i: nat)
    requires Tiled(bs, end) && i < |bs| && !bs[i].used && FreeNeighboursOnlyAt(bs, i)
    ensures var f := PlugForward(bs, i);
      && Tiled(f, end) && i < |f| && !f[i].used && FreeNeighboursOnlyAt(f, i)
      && (i + 1 < |f| ==> f[i + 1].used)
  {
    if i + 1 < |bs| && !bs[i + 1].used {
      var f := Merge(bs, i);
      MergeIs(bs, i);
      MergeTiled(bs, end, i, f);
    }
  }

  lemma MergeBackInv(f: Layout, end: nat, i: nat, r: Layout)
    requires Tiled(f, end) && 0 < i < |f| && !f[i].used && !f[i - 1].used && FreeNeighboursOnlyAt(f, i)
    requires i + 1 < |f| ==> f[i + 1].used
    requires IsMerge(f, i - 1, r)
    ensures Inv(r, end)
  {
    MergeTiled(f, end, i - 1, r);
  }

  lemma PlugBackwardInv(f: Layout, end: nat, i: nat)
    requires Tiled(f, end) && i < |f| && !f[i].used && FreeNeighboursOnlyAt(f, i)
    requires i + 1 < |f| ==> f[i + 1].used
    ensures Inv(PlugBackward(f, i), end)
  {
    if i > 0 && !f[i - 1].used {
      MergeIs(f, i - 1);
      MergeBackInv(f, end, i, Merge(f, i - 1));
    }
  }

  lemma PlugInv(bs: Layout, end: nat, i: nat)
    requires Tiled(bs, end) && i < |bs| && !bs[i].used && FreeNeighboursOnlyAt(bs, i)
    ensures Inv(Plug(bs, i), end)
  {
    PlugForwardKeeps(bs, end, i);
    PlugBackwardInv(PlugForward(bs, i), end, i);
  }

  lemma CutInv(bs: Layout, end: nat, i: nat, size: nat, r: Layout)
    requires Inv(bs, end) && i < |bs| && !bs[i].used && size > 0
    requires bs[i].off + HDR + size + HDR < bs[i].next && IsSplit(bs, i, size, r)
    ensures Inv(r, end)
  {
    SplitTiled(bs, end, i, size, r);
    assert i + 1 < |bs| ==> bs[i + 1].used;
  }

  lemma TakeWholeInv(bs: Layout, end: nat, i: nat)
    requires Inv(bs, end) && i < |bs|
    ensures Inv(bs[i := bs[i].(used := true)], end)
  {
  }

  /** Allocation keeps the layout invariant. */
  lemma AllocInv(bs: Layout, end: nat, i: nat, size: nat)
    requires Inv(bs, end) && i < |bs| && Fits(bs[i], size) && size >= MIN
    ensures Inv(AllocAt(bs, i, size), end)
  {
    if Splits(bs[i], size) {
      SplitIs(bs, i, size);
      CutInv(bs, end, i, size, SplitAt(bs, i, size));
    } else {
      TakeWholeInv(bs, end, i);
    }
  }

  /** Freeing keeps the layout invariant. */
  lemma FreeInv(bs: Layout, end: nat, i: nat)
    requires Inv(bs, end) && i < |bs| && bs[i].used
    ensures Inv(FreeAt(bs, i), end)
  {
    PlugInv(Mark(bs, i), end, i);
  }

  /** Shrinking in place keeps the layout invariant. */
  lemma ShrinkInv(bs: Layout, end: nat, i: nat, size: nat)
    requires Inv(bs, end) && i < |bs| && bs[i].used && size > 0
    requires bs[i].off + HDR + size + HDR < bs[i].next
    ensures Inv(ShrinkAt(bs, i, size), end)
  {
    var r := SplitAt(bs, i, size);
    SplitIs(bs, i, size);
    SplitTiled(bs, end, i, size, r);
    PlugInv(r, end, i + 1);
  }
}
