/** place preserves the heap invariant, splitting without leaving a splinter. */
module PlaceProof {
  import opened Tags
  import opened FreeList
  import opened HeapModel
  import opened Allocator

  /** A member of the free list is a free block of the layout other than the sentinel. */
  lemma FreeMemberIndex(h: Heap, bs: seq<int>, b: int) returns (k: int)
    requires Inv(h, bs)
    requires b in h.free
    ensures 1 <= k < |bs| && bs[k] == b && !Read(h.mem, b).alloc
  {
    assert b in FreeBlocks(h.mem, bs);
    k :| 0 <= k < |bs| && bs[k] == b;
  }

  /** The tags written by a splitting place, and the words it leaves alone. */
  lemma PlaceSplitTags(h: Heap, b: int, asize: nat)
    requires MinBlockSize <= asize
    requires asize + MinBlockSize <= Read(h.mem, b).size < SizeLimit
    ensures var m' := Place(h, b, asize).mem; var size := Read(h.mem, b).size;
      && Read(m', b) == Tag(asize, true)
      && Read(m', b + asize - HeaderSize) == Tag(asize, true)
      && Read(m', b + asize) == Tag(size - asize, false)
      && Read(m', b + size - HeaderSize) == Tag(size - asize, false)
      && forall x :: x < b || b + size <= x ==> Read(m', x) == Read(h.mem, x)
    ensures Place(h, b, asize).free == Push(Remove(h.free, b), b + asize)
  {
  }

  /** The tags written by a non-splitting place, and the words it leaves alone. */
  lemma PlaceWholeTags(h: Heap, b: int, asize: nat)
    requires asize <= Read(h.mem, b).size < asize + MinBlockSize
    requires Read(h.mem, b + Read(h.mem, b).size - HeaderSize) == Read(h.mem, b)
    requires Read(h.mem, b).size >= MinBlockSize
    ensures var m' := Place(h, b, asize).mem; var size := Read(h.mem, b).size;
      && Read(m', b) == Tag(size, true)
      && Read(m', b + size - HeaderSize) == Tag(size, true)
      && forall x :: x < b || b + size <= x ==> Read(m', x) == Read(h.mem, x)
    ensures Place(h, b, asize).free == Remove(h.free, b)
  {
  }

  /**
    place on a listed free block keeps the heap invariant. The block becomes
    allocated and holds at least `asize` bytes; when the rest is at least
    the minimum block size it becomes a free block of its own at the list
    front, otherwise the whole block is allocated. Nothing else changes.
   */
  lemma PlacePreserves(h: Heap, bs: seq<int>, b: int, asize: nat) returns (bs': seq<int>)
    requires Inv(h, bs)
    requires b in h.free
    requires asize % 8 == 0 && MinBlockSize <= asize <= Read(h.mem, b).size
    ensures Inv(Place(h, b, asize), bs')
    ensures b in bs' && Read(Place(h, b, asize).mem, b).alloc
    ensures Read(h.mem, b).size - asize >= MinBlockSize ==>
      && Read(Place(h, b, asize).mem, b).size == asize
      && Read(Place(h, b, asize).mem, b + asize) == Tag(Read(h.mem, b).size - asize, false)
      && (forall x :: x in Place(h, b, asize).free <==> (x in h.free && x != b) || x == b + asize)
    ensures Read(h.mem, b).size - asize < MinBlockSize ==>
      && Read(Place(h, b, asize).mem, b).size == Read(h.mem, b).size
      && (forall x :: x in Place(h, b, asize).free <==> x in h.free && x != b)
    ensures KeepsUsed(h.mem, bs, Place(h, b, asize).mem, bs')
    ensures UsedBlocks(Place(h, b, asize).mem, bs') == UsedBlocks(h.mem, bs) + {b}
  {
    if Read(h.mem, b).size - asize >= MinBlockSize {
      bs' := PlaceSplit(h, bs, b, asize);
    } else {
      bs' := PlaceWhole(h, bs, b, asize);
    }
  }

  lemma PlaceSplit(h: Heap, bs: seq<int>, b: int, asize: nat) returns (bs': seq<int>)
    requires Inv(h, bs)
    requires b in h.free
    requires asize % 8 == 0 && MinBlockSize <= asize && asize + MinBlockSize <= Read(h.mem, b).size
    ensures Inv(Place(h, b, asize), bs') && b in bs'
    ensures Read(Place(h, b, asize).mem, b) == Tag(asize, true)
    ensures Read(Place(h, b, asize).mem, b + asize) == Tag(Read(h.mem, b).size - asize, false)
    ensures forall x :: x in Place(h, b, asize).free <==> (x in h.free && x != b) || x == b + asize
    ensures KeepsUsed(h.mem, bs, Place(h, b, asize).mem, bs')
    ensures UsedBlocks(Place(h, b, asize).mem, bs') == UsedBlocks(h.mem, bs) + {b}
  {
    var k := FreeMemberIndex(h, bs, b);
    assert Step(h.mem, bs, h.brk, k);
    PlaceSplitTags(h, b, asize);
    bs' := SplitPreserves(h, bs, k, asize, Place(h, b, asize));
  }

  lemma PlaceWhole(h: Heap, bs: seq<int>, b: int, asize: nat) returns (bs': seq<int>)
    requires Inv(h, bs)
    requires b in h.free
    requires asize <= Read(h.mem, b).size < asize + MinBlockSize
    ensures Inv(Place(h, b, asize), bs') && b in bs'
    ensures Read(Place(h, b, asize).mem, b) == Tag(Read(h.mem, b).size, true)
    ensures forall x :: x in Place(h, b, asize).free <==> x in h.free && x != b
    ensures KeepsUsed(h.mem, bs, Place(h, b, asize).mem, bs')
    ensures UsedBlocks(Place(h, b, asize).mem, bs') == UsedBlocks(h.mem, bs) + {b}
  {
    var k := FreeMemberIndex(h, bs, b);
    assert Step(h.mem, bs, h.brk, k);
    PlaceWholeTags(h, b, asize);
    bs' := WholePreserves(h, bs, k, Place(h, b, asize));
  }

  /** The old neighbours of block `k` keep their tags when only the span of block `k` is rewritten. */
  lemma NeighboursKept(m: Memory, bs: seq<int>, brk: int, m': Memory, k: int, ns: seq<int>)
    requires RewriteOk(m, bs, brk, m', k, k + 1, ns)
    ensures Read(m', bs[k - 1]) == Read(m, bs[k - 1])
    ensures k + 1 < |bs| ==> Read(m', bs[k + 1]) == Read(m, bs[k + 1])
  {
    Rewrite(m, bs, brk, m', k, k + 1, ns);
    assert bs[k - 1] in bs[..k];
    if k + 1 < |bs| {
      assert bs[k + 1] == bs[k + 1..][0];
    }
  }

  /** A free block of the layout other than block `k` lies outside block `k`'s span. */
  lemma OtherOutside(m: Memory, bs: seq<int>, brk: int, k: int, x: int)
    requires Layout(m, bs, brk)
    requires 0 <= k < |bs|
    requires x in bs && x != bs[k]
    ensures x < bs[k] || EndOf(bs, k, brk) <= x
  {
    var j :| 0 <= j < |bs| && bs[j] == x;
    if j < k {
      Chain(m, bs, brk, j, k);
      assert Step(m, bs, brk, j);
    } else {
      assert j > k;
      assert Step(m, bs, brk, k);
      if j > k + 1 {
        Chain(m, bs, brk, k + 1, j);
      }
    }
  }

  lemma SplitPreserves(h: Heap, bs: seq<int>, k: int, asize: nat, h': Heap) returns (bs': seq<int>)
    requires Inv(h, bs)
    requires 1 <= k < |bs| && bs[k] in h.free
    requires asize % 8 == 0 && MinBlockSize <= asize && asize + MinBlockSize <= Read(h.mem, bs[k]).size
    requires var b, size := bs[k], Read(h.mem, bs[k]).size;
      && Read(h'.mem, b) == Tag(asize, true)
      && Read(h'.mem, b + asize - HeaderSize) == Tag(asize, true)
      && Read(h'.mem, b + asize) == Tag(size - asize, false)
      && Read(h'.mem, b + size - HeaderSize) == Tag(size - asize, false)
      && (forall x :: x < b || b + size <= x ==> Read(h'.mem, x) == Read(h.mem, x))
    requires h'.brk == h.brk && h'.free == Push(Remove(h.free, bs[k]), bs[k] + asize)
    ensures Inv(h', bs') && bs[k] in bs' && bs[k] + asize in bs'
    ensures KeepsUsed(h.mem, bs, h'.mem, bs')
    ensures UsedBlocks(h'.mem, bs') == UsedBlocks(h.mem, bs) + {bs[k]}
    ensures forall x :: x in h'.free <==> (x in h.free && x != bs[k]) || x == bs[k] + asize
  {
    var m, m' := h.mem, h'.mem;
    var b := bs[k];
    var end := EndOf(bs, k, h.brk);
    var ns := [b, b + asize];
    bs' := bs[..k] + ns + bs[k + 1..];
    assert RewriteOk(m, bs, h.brk, m', k, k + 1, ns) by {
      assert Step(m, bs, h.brk, k);
      assert TileStep(m', ns, end, 0);
      assert TileStep(m', ns, end, 1);
    }
    assert Layout(m', bs', h.brk) by {
      Rewrite(m, bs, h.brk, m', k, k + 1, ns);
    }
    assert NoAdjacentFree(m', bs') by {
      NeighboursKept(m, bs, h.brk, m', k, ns);
      assert !Read(m, b).alloc by { assert b in FreeBlocks(m, bs); }
      if k + 1 < |bs| {
        assert NotBothFree(m, bs, k);
      }
      RewriteNoAdjacent(m, bs, h.brk, m', k, k + 1, ns);
    }
    RewriteFree(m, bs, h.brk, m', k, k + 1, ns);
    assert KeepsUsed(m, bs, m', bs') by {
      forall x | x in UsedBlocks(m, bs) ensures x in bs' && Read(m', x) == Read(m, x) {
        assert x != b by { assert b in FreeBlocks(m, bs); }
        OtherOutside(m, bs, h.brk, k, x);
      }
    }
    assert UsedBlocks(m', bs') <= UsedBlocks(m, bs) + {b} by {
      RewriteUsed(m, bs, h.brk, m', k, k + 1, ns);
    }
    SplitList(h, bs, k, asize, h', bs');
  }

  lemma SplitList(h: Heap, bs: seq<int>, k: int, asize: nat, h': Heap, bs': seq<int>)
    requires Inv(h, bs)
    requires 1 <= k < |bs| && bs[k] in h.free
    requires MinBlockSize <= asize && asize + MinBlockSize <= Read(h.mem, bs[k]).size
    requires Read(h'.mem, bs[k]).alloc && !Read(h'.mem, bs[k] + asize).alloc
    requires forall x :: x in FreeBlocks(h'.mem, bs') <==>
      (x in FreeBlocks(h.mem, bs) && (x < bs[k] || EndOf(bs, k, h.brk) <= x)) || (x in [bs[k], bs[k] + asize] && !Read(h'.mem, x).alloc)
    requires h'.free == Push(Remove(h.free, bs[k]), bs[k] + asize)
    ensures ListOk(h', bs')
    ensures forall x :: x in h'.free <==> (x in h.free && x != bs[k]) || x == bs[k] + asize
  {
    var m := h.mem;
    var b, rest := bs[k], bs[k] + asize;
    assert Step(m, bs, h.brk, k);
    RemoveNoDup(h.free, b);
    assert rest !in h.free by {
      if rest in h.free {
        assert rest in FreeBlocks(m, bs);
        OtherOutside(m, bs, h.brk, k, rest);
      }
    }
    forall x ensures x in h'.free <==> x in FreeBlocks(h'.mem, bs') {
      if x in FreeBlocks(m, bs) && x != b {
        OtherOutside(m, bs, h.brk, k, x);
      }
    }
  }

  lemma WholePreserves(h: Heap, bs: seq<int>, k: int, h': Heap) returns (bs': seq<int>)
    requires Inv(h, bs)
    requires 1 <= k < |bs| && bs[k] in h.free
    requires var b, size := bs[k], Read(h.mem, bs[k]).size;
      && Read(h'.mem, b) == Tag(size, true)
      && Read(h'.mem, b + size - HeaderSize) == Tag(size, true)
      && (forall x :: x < b || b + size <= x ==> Read(h'.mem, x) == Read(h.mem, x))
    requires h'.brk == h.brk && h'.free == Remove(h.free, bs[k])
    ensures Inv(h', bs') && bs[k] in bs'
    ensures KeepsUsed(h.mem, bs, h'.mem, bs')
    ensures UsedBlocks(h'.mem, bs') == UsedBlocks(h.mem, bs) + {bs[k]}
    ensures forall x :: x in h'.free <==> x in h.free && x != bs[k]
  {
    var m, m' := h.mem, h'.mem;
    var b := bs[k];
    var end := EndOf(bs, k, h.brk);
    assert Step(m, bs, h.brk, k);
    var ns := [b];
    bs' := bs[..k] + ns + bs[k + 1..];
    assert RewriteOk(m, bs, h.brk, m', k, k + 1, ns) by {
      assert TileStep(m', ns, end, 0);
    }
    assert Layout(m', bs', h.brk) by {
      Rewrite(m, bs, h.brk, m', k, k + 1, ns);
    }
    assert NoAdjacentFree(m', bs') by {
      NeighboursKept(m, bs, h.brk, m', k, ns);
      RewriteNoAdjacent(m, bs, h.brk, m', k, k + 1, ns);
    }
    RewriteFree(m, bs, h.brk, m', k, k + 1, ns);
    assert KeepsUsed(m, bs, m', bs') by {
      forall x | x in UsedBlocks(m, bs) ensures x in bs' && Read(m', x) == Read(m, x) {
        assert x != b by { assert b in FreeBlocks(m, bs); }
        OtherOutside(m, bs, h.brk, k, x);
      }
    }
    assert UsedBlocks(m', bs') <= UsedBlocks(m, bs) + {b} by {
      RewriteUsed(m, bs, h.brk, m', k, k + 1, ns);
    }
    RemoveNoDup(h.free, b);
    forall x ensures x in h'.free <==> x in FreeBlocks(m', bs') {
      if x in FreeBlocks(m, bs) && x != b {
        OtherOutside(m, bs, h.brk, k, x);
      }
    }
  }
}
