/** mm_init establishes the heap invariant with exactly the documented layout. */
module InitProof {
  import opened Options
  import opened Tags
  import opened FreeList
  import opened HeapModel
  import opened Allocator

  /**
    A failed first request makes mm_init fail; otherwise the 64 KiB chunk
    holds the prologue, the sentinel, one free block at 40 and the epilogue
    at 65528, and the free list holds just that block.
   */
  lemma InitLayout()
    ensures Init(false).None?
    ensures Init(true).Some?
    ensures var h := Init(true).value;
      && Read(h.mem, 0) == Tag(8, true)
      && Read(h.mem, 8) == Tag(32, true)
      && Read(h.mem, 32) == Tag(32, true)
      && Read(h.mem, 40) == Tag(65488, false)
      && Read(h.mem, 65520) == Tag(65488, false)
      && Read(h.mem, 65528) == Tag(0, true)
      && h.free == [40]
      && h.brk == 65536
  {
  }

  /** The initial heap satisfies the invariant, witnessed by the sentinel and the one free block. */
  lemma InitEstablishesInv()
    ensures Init(true).Some? && Inv(Init(true).value, [Sentinel, Sentinel + MinBlockSize])
  {
    InitLayout();
    var h := Init(true).value;
    var bs := [Sentinel, Sentinel + MinBlockSize];
    assert Step(h.mem, bs, h.brk, 0);
    assert Step(h.mem, bs, h.brk, 1);
    assert Layout(h.mem, bs, h.brk);
    assert FreeBlocks(h.mem, bs) == {40};
  }
}
