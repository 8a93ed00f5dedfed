/**
  mm_checkheap as a predicate: true exactly when the routine would print no
  error. The walk from the sentinel reads only the tags; a walk that leaves
  the heap before it meets a zero-size header counts as a failure.
 */
module Check {
  import opened Tags
  import opened HeapModel
  import opened Allocator
  import opened InitProof
  import opened FreeProof
  import opened MallocProof

  /** checkblock: the payload is 8-byte aligned and the footer's size agrees with the header's. */
  function BlockChecked(m: Memory, b: int): (ok: bool)
    ensures ok ==> b % 8 == 0
  {
    (b + HeaderSize) % 8 == 0 && Read(m, b).size == Read(m, FooterOf(m, b)).size
  }

  /**
    The heap walk from `b`: every block with a nonzero size passes
    checkblock, and the walk ends inside the heap on an allocated
    zero-size header.
   */
  function Walk(m: Memory, b: int, brk: int): (ok: bool)
    ensures ok ==> 0 <= b <= brk - HeaderSize
    decreases brk - b
  {
    if b < 0 || brk - HeaderSize < b then false
    else if Read(m, b).size == 0 then Read(m, b).alloc
    else BlockChecked(m, b) && Walk(m, b + Read(m, b).size, brk)
  }

  /** mm_checkheap: the prologue header is (8, allocated), the prologue passes checkblock, and the walk from the sentinel succeeds. */
  function CheckHeap(h: Heap): (ok: bool)
    ensures ok ==> Sentinel + HeaderSize <= h.brk
  {
    && Read(h.mem, 0) == Tag(HeaderSize, true)
    && BlockChecked(h.mem, 0)
    && Walk(h.mem, Sentinel, h.brk)
  }

  /** The same check as a loop over the blocks, in the source's order. */
  method CheckHeapLoop(h: Heap) returns (ok: bool)
    ensures ok == CheckHeap(h)
  {
    var m := h.mem;
    ok := Read(m, 0) == Tag(HeaderSize, true) && BlockChecked(m, 0);
    var b := Sentinel;
    while 0 <= b <= h.brk - HeaderSize && Read(m, b).size > 0
      invariant CheckHeap(h) == (ok && Walk(m, b, h.brk))
      decreases h.brk - b
    {
      ok := ok && BlockChecked(m, b);
      b := b + Read(m, b).size;
    }
    ok := ok && 0 <= b <= h.brk - HeaderSize && Read(m, b).alloc;
  }

  /** The walk from block `i` of a layout reaches the epilogue, every block passing checkblock. */
  lemma {:induction false} WalkLayout(m: Memory, bs: seq<int>, brk: int, i: int)
    requires Layout(m, bs, brk)
    requires 0 <= i < |bs|
    ensures Walk(m, bs[i], brk)
    decreases |bs| - i
  {
    Ordered(m, bs, brk);
    assert Step(m, bs, brk, i);
    var next := bs[i] + Read(m, bs[i]).size;
    if i + 1 < |bs| {
      WalkLayout(m, bs, brk, i + 1);
    } else {
      assert next == brk - HeaderSize && Read(m, next) == Tag(0, true);
      assert Walk(m, next, brk);
    }
  }

  /** Every heap that satisfies the invariant passes mm_checkheap. */
  lemma InvPassesCheck(h: Heap, bs: seq<int>)
    requires Layout(h.mem, bs, h.brk)
    ensures CheckHeap(h)
  {
    WalkLayout(h.mem, bs, h.brk, 0);
  }

  /**
    mm_checkheap is weaker than the invariant: it reads neither the footer's
    allocated flag nor the free list. This heap has a sentinel whose footer
    says free; it passes the check, yet the sentinel fails the block
    condition that every layout demands of its first block.
   */
  lemma CheckMissesFooterFlag()
    ensures var m: Memory := map[0 := Tag(8, true), 8 := Tag(32, true), 32 := Tag(32, false), 40 := Tag(0, true)];
      && CheckHeap(Heap(m, [], 48))
      && !BlockOk(m, Sentinel)
  {
    var m: Memory := map[0 := Tag(8, true), 8 := Tag(32, true), 32 := Tag(32, false), 40 := Tag(0, true)];
    assert Walk(m, 40, 48);
    assert Walk(m, 8, 48);
  }

  /** The heap mm_init builds passes mm_checkheap. */
  lemma InitPassesCheck()
    ensures Init(true).Some? && CheckHeap(Init(true).value)
  {
    InitEstablishesInv();
    InvPassesCheck(Init(true).value, [Sentinel, Sentinel + MinBlockSize]);
  }

  /** On a valid heap, the heap after mm_malloc passes mm_checkheap, whether or not the host grants memory. */
  lemma MallocPassesCheck(h: Heap, bs: seq<int>, size: nat, granted: bool)
    requires Inv(h, bs)
    requires size + Overhead + 7 < SizeLimit
    ensures CheckHeap(Malloc(h, size, granted).0)
  {
    var bs', h', p := MallocPreserves(h, bs, size, granted);
    InvPassesCheck(h', bs');
  }

  /** On a valid heap, the heap after mm_free of an allocated block passes mm_checkheap. */
  lemma FreePassesCheck(h: Heap, bs: seq<int>, p: int)
    requires Inv(h, bs)
    requires p - HeaderSize in UsedBlocks(h.mem, bs) && p - HeaderSize != Sentinel
    ensures CheckHeap(Free(h, p))
  {
    var bs', r := FreePreserves(h, bs, p);
    InvPassesCheck(Free(h, p), bs');
  }
}
