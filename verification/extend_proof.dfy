/** extend_heap keeps the heap invariant: the new bytes become a free block at the end of the heap. */
module ExtendProof {
  import opened Options
  import opened Tags
  import opened FreeList
  import opened HeapModel
  import opened Allocator
  import opened CoalesceProof

  /**
    The memory extend_heap hands to coalesce: the old epilogue at `brk - 8`
    is now the header of a free block of `words * 8` bytes, its footer
    agrees, a new epilogue follows, and nothing below the old epilogue moved.
   */
  lemma GrownTags(h: Heap, words: nat) returns (m': Memory)
    requires words * 8 >= MinBlockSize
    requires 0 < h.brk && Grows(h, words * 8, true)
    ensures var b, size := h.brk - HeaderSize, words * 8;
      && ExtendHeap(h, words, true) == Some(Coalesce(Heap(m', h.free, h.brk + size), b))
      && Read(m', b) == Tag(size, false)
      && Read(m', b + size - HeaderSize) == Tag(size, false)
      && Read(m', b + size) == Tag(0, true)
      && forall x :: x < b ==> Read(m', x) == Read(h.mem, x)
  {
    var size := words * 8;
    var b := h.brk - HeaderSize;
    assert 2 * HeaderSize <= size < SizeLimit;
    m' := FreshBlock(h.mem, b, size);
  }

  /** The end of a valid heap is 8-byte aligned and every block lies below the epilogue. */
  lemma BelowEpilogue(h: Heap, bs: seq<int>)
    requires Layout(h.mem, bs, h.brk)
    ensures h.brk % 8 == 0
    ensures forall x :: x in bs ==> x < h.brk - HeaderSize && x + Read(h.mem, x).size <= h.brk - HeaderSize
  {
    Ordered(h.mem, bs, h.brk);
    assert Step(h.mem, bs, h.brk, |bs| - 1);
    forall x | x in bs ensures x < h.brk - HeaderSize {
      var i :| 0 <= i < |bs| && bs[i] == x;
      assert Step(h.mem, bs, h.brk, i);
    }
  }

  /** After growing, the heap with the new block appended is in the state coalesce expects. */
  lemma GrownFreed(h: Heap, bs: seq<int>, words: nat, m': Memory)
    requires Inv(h, bs)
    requires words * 8 >= MinBlockSize
    requires Grows(h, words * 8, true)
    requires var b, size := h.brk - HeaderSize, words * 8;
      && Read(m', b) == Tag(size, false)
      && Read(m', b + size - HeaderSize) == Tag(size, false)
      && Read(m', b + size) == Tag(0, true)
      && forall x :: x < b ==> Read(m', x) == Read(h.mem, x)
    ensures Freed(Heap(m', h.free, h.brk + words * 8), bs + [h.brk - HeaderSize], |bs|)
    ensures KeepsUsed(h.mem, bs, m', bs + [h.brk - HeaderSize])
    ensures UsedBlocks(m', bs + [h.brk - HeaderSize]) == UsedBlocks(h.mem, bs)
  {
    var b, size := h.brk - HeaderSize, words * 8;
    var brk' := h.brk + size;
    var bs1 := bs + [b];
    var h1 := Heap(m', h.free, brk');
    BelowEpilogue(h, bs);
    assert forall x :: x in bs ==> x < b && Read(m', x) == Read(h.mem, x) by {
      forall x | x in bs ensures x < b && Read(m', x) == Read(h.mem, x) {
        var i :| 0 <= i < |bs| && bs[i] == x;
        assert Step(h.mem, bs, h.brk, i);
      }
    }
    forall i | 0 <= i < |bs1| ensures Step(m', bs1, brk', i) {
      if i < |bs| {
        assert Step(h.mem, bs, h.brk, i);
        assert bs1[i] == bs[i];
      }
    }
    assert Layout(m', bs1, brk') by {
      assert Read(m', 0) == Read(h.mem, 0);
      assert Read(m', Sentinel) == Read(h.mem, Sentinel) by {
        assert bs[0] in bs;
      }
    }
    assert forall x :: x in FreeBlocks(m', bs1) <==> x in FreeBlocks(h.mem, bs) || x == b;
    assert forall x :: x in UsedBlocks(h.mem, bs) ==> x in bs1;
    forall i | 0 <= i < |bs1| - 1 && i + 1 != |bs| && i != |bs| ensures NotBothFree(m', bs1, i) {
      assert NotBothFree(h.mem, bs, i);
      assert bs[i] in bs && bs[i + 1] in bs;
    }
  }

  /**
    extend_heap with a granted request of at least one minimum block keeps
    the heap invariant. It succeeds, and the block it returns is free, on
    the free list, and reaches the new epilogue. It is either the new block
    itself, at the old epilogue, or the free block that ended there, now
    grown by the new bytes. Allocated blocks are untouched.
   */
  lemma ExtendPreserves(h: Heap, bs: seq<int>, words: nat) returns (bs': seq<int>, h': Heap, r: int)
    requires Inv(h, bs)
    requires words * 8 >= MinBlockSize
    requires Grows(h, words * 8, true)
    ensures ExtendHeap(h, words, true) == Some((h', r))
    ensures Inv(h', bs')
    ensures r in h'.free && !Read(h'.mem, r).alloc
    ensures r + Read(h'.mem, r).size == h'.brk - HeaderSize
    ensures Read(h'.mem, r).size >= words * 8
    ensures r == h.brk - HeaderSize || (r in h.free && Read(h'.mem, r).size == Read(h.mem, r).size + words * 8)
    ensures forall x :: x in h'.free <==> x == r || x in h.free
    ensures KeepsUsed(h.mem, bs, h'.mem, bs')
    ensures UsedBlocks(h'.mem, bs') == UsedBlocks(h.mem, bs)
  {
    var b, size := h.brk - HeaderSize, words * 8;
    var bs1 := bs + [b];
    var k := |bs|;
    BelowEpilogue(h, bs);
    var m' := GrownTags(h, words);
    var h1 := Heap(m', h.free, h.brk + size);
    GrownFreed(h, bs, words, m');
    var k';
    bs', k' := CoalescePreserves(h1, bs1, k);
    h', r := Coalesce(h1, b).0, Coalesce(h1, b).1;
    Neighbours(h1, bs1, k);
    KeepsUsedTrans(h.mem, bs, m', bs1, h'.mem, bs');
    assert bs1[k - 1] == bs[k - 1] && bs1[k] == b;
    if !Read(m', bs[k - 1]).alloc {
      assert bs[k - 1] in FreeBlocks(h.mem, bs) by {
        assert Read(m', bs[k - 1]) == Read(h.mem, bs[k - 1]);
      }
    }
  }
}
