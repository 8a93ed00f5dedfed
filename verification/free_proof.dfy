/** mm_free keeps the heap invariant: the block is released and merged with free neighbours. */
module FreeProof {
  import opened Tags
  import opened FreeList
  import opened HeapModel
  import opened Allocator
  import opened PlaceProof
  import opened CoalesceProof

  /** Clearing the flag touches only the block's header and footer. */
  lemma ClearedTags(h: Heap, b: int)
    requires Read(h.mem, b).size >= MinBlockSize
    requires Read(h.mem, b + Read(h.mem, b).size - HeaderSize) == Read(h.mem, b)
    ensures var m', t := Cleared(h, b).mem, Read(h.mem, b);
      && Read(m', b) == Tag(t.size, false)
      && Read(m', b + t.size - HeaderSize) == Tag(t.size, false)
      && forall x :: x < b || b + t.size <= x ==> Read(m', x) == Read(h.mem, x)
  {
  }

  /** After clearing block `k` of a valid heap, the heap is in the state coalesce expects. */
  lemma ClearedFreed(h: Heap, bs: seq<int>, k: int)
    requires Inv(h, bs)
    requires 1 <= k < |bs| && Read(h.mem, bs[k]).alloc
    ensures Freed(Cleared(h, bs[k]), bs, k)
    ensures UsedBlocks(Cleared(h, bs[k]).mem, bs) == UsedBlocks(h.mem, bs) - {bs[k]}
    ensures forall x :: x in bs && x != bs[k] ==> Read(Cleared(h, bs[k]).mem, x) == Read(h.mem, x)
    ensures Read(Cleared(h, bs[k]).mem, bs[k]) == Read(h.mem, bs[k]).(alloc := false)
  {
    var m, b := h.mem, bs[k];
    var h1 := Cleared(h, b);
    var m' := h1.mem;
    var ns := [b];
    var end := EndOf(bs, k, h.brk);
    assert Step(m, bs, h.brk, k);
    ClearedTags(h, b);
    assert RewriteOk(m, bs, h.brk, m', k, k + 1, ns) by {
      assert TileStep(m', ns, end, 0);
    }
    assert bs[..k] + ns + bs[k + 1..] == bs;
    Rewrite(m, bs, h.brk, m', k, k + 1, ns);
    RewriteFree(m, bs, h.brk, m', k, k + 1, ns);
    assert forall x :: x in bs && x != b ==> Read(m', x) == Read(m, x) by {
      forall x | x in bs && x != b ensures Read(m', x) == Read(m, x) {
        OtherOutside(m, bs, h.brk, k, x);
      }
    }
    forall i | 0 <= i < |bs| - 1 && i + 1 != k && i != k ensures NotBothFree(m', bs, i) {
      assert NotBothFree(m, bs, i);
      assert bs[i] != b && bs[i + 1] != b by {
        LayoutNoDup(m, bs, h.brk);
      }
    }
    assert forall x :: x in h1.free <==> x in FreeBlocks(m', bs) && x != b;
  }

  /**
    mm_free on an allocated block other than the sentinel keeps the heap
    invariant. Every other allocated block keeps its place and tag, the
    freed block is no longer allocated, and no other block becomes
    allocated. The freed block lies inside a free block `r` of the new heap;
    the list gains `r` and loses exactly the listed neighbours merged into it.
   */
  lemma FreePreserves(h: Heap, bs: seq<int>, p: int) returns (bs': seq<int>, r: int)
    requires Inv(h, bs)
    requires p - HeaderSize in UsedBlocks(h.mem, bs) && p - HeaderSize != Sentinel
    ensures Inv(Free(h, p), bs')
    ensures forall x :: x in UsedBlocks(h.mem, bs) && x != p - HeaderSize ==> x in bs' && Read(Free(h, p).mem, x) == Read(h.mem, x)
    ensures p - HeaderSize !in UsedBlocks(Free(h, p).mem, bs')
    ensures r in Free(h, p).free && !Read(Free(h, p).mem, r).alloc
    ensures r <= p - HeaderSize && p - HeaderSize + Read(h.mem, p - HeaderSize).size <= r + Read(Free(h, p).mem, r).size
    ensures UsedBlocks(Free(h, p).mem, bs') == UsedBlocks(h.mem, bs) - {p - HeaderSize}
    ensures forall x :: x in Free(h, p).free <==>
      x == r || (x in h.free && x != PrevBlock(h.mem, p - HeaderSize) && x != p - HeaderSize + Read(h.mem, p - HeaderSize).size)
  {
    var m, b := h.mem, p - HeaderSize;
    var k :| 0 <= k < |bs| && bs[k] == b;
    var h1 := Cleared(h, b);
    ClearedFreed(h, bs, k);
    assert Free(h, p) == Coalesce(h1, b).0;
    var k';
    bs', k' := CoalescePreserves(h1, bs, k);
    r := Coalesce(h1, b).1;
    var h' := Free(h, p);
    assert r in h'.free;
    assert r <= b < b + Read(m, b).size <= r + Read(h'.mem, r).size by {
      Neighbours(h1, bs, k);
      assert Step(h1.mem, bs, h.brk, k - 1);
      assert Step(m, bs, h.brk, k);
    }
    Covered(h', bs', k', b);
    FreeChanges(h, bs, k, bs', k');
  }

  /** What freeing block `k` changes: its allocated flag, and the listed neighbours merged into the result. */
  lemma FreeChanges(h: Heap, bs: seq<int>, k: int, bs': seq<int>, k': int)
    requires Inv(h, bs)
    requires 1 <= k < |bs| && Read(h.mem, bs[k]).alloc
    requires Outcome(Cleared(h, bs[k]), bs, k, Coalesce(Cleared(h, bs[k]), bs[k]), bs', k')
    ensures var b := bs[k]; var (h', r) := Coalesce(Cleared(h, b), b);
      && (forall x :: x in UsedBlocks(h.mem, bs) && x != b ==> x in bs' && Read(h'.mem, x) == Read(h.mem, x))
      && UsedBlocks(h'.mem, bs') == UsedBlocks(h.mem, bs) - {b}
      && forall x :: x in h'.free <==> x == r || (x in h.free && x != PrevBlock(h.mem, b) && x != b + Read(h.mem, b).size)
  {
    ClearedFreed(h, bs, k);
    AbsorbedNeighbours(h, bs, k);
  }

  /**
    The listed blocks coalesce absorbs when block `k` is freed are exactly
    the listed ones among its two neighbours: the block whose footer lies
    just below it and the block just past its end.
   */
  lemma AbsorbedNeighbours(h: Heap, bs: seq<int>, k: int)
    requires Inv(h, bs)
    requires 1 <= k < |bs|
    ensures var m, b := h.mem, bs[k];
      forall x :: x in h.free ==>
        && (x == PrevBlock(m, b) <==> !Read(m, bs[k - 1]).alloc && x == bs[k - 1])
        && (x == b + Read(m, b).size <==> k + 1 < |bs| && !Read(m, bs[k + 1]).alloc && x == bs[k + 1])
  {
    var m, b := h.mem, bs[k];
    Neighbours(h, bs, k);
    forall x | x in h.free ensures x != h.brk - HeaderSize {
      assert x in FreeBlocks(m, bs);
      var j :| 0 <= j < |bs| && bs[j] == x;
      assert Step(m, bs, h.brk, j);
    }
  }

  /** A block start that lies inside free block `k` of a layout is not an allocated block. */
  lemma Covered(h: Heap, bs: seq<int>, k: int, b: int)
    requires Layout(h.mem, bs, h.brk)
    requires 1 <= k < |bs| && !Read(h.mem, bs[k]).alloc
    requires bs[k] <= b < bs[k] + Read(h.mem, bs[k]).size
    ensures b !in UsedBlocks(h.mem, bs)
  {
    if b in bs && b != bs[k] {
      OtherOutside(h.mem, bs, h.brk, k, b);
      Neighbours(h, bs, k);
    }
  }
}
