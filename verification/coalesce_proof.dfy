/**
  coalesce restores the heap invariant after one block has been made free,
  in each of its four cases.
 */
module CoalesceProof {
  import opened Tags
  import opened FreeList
  import opened HeapModel
  import opened Allocator

  /**
    The state coalesce starts from: a valid layout in which block `k` has
    just been marked free but is not yet on the list, so only the two pairs
    around it may be adjacent free blocks.
   */
  ghost predicate Freed(h: Heap, bs: seq<int>, k: int)
  {
    && Layout(h.mem, bs, h.brk)
    && 1 <= k < |bs|
    && !Read(h.mem, bs[k]).alloc
    && NoDup(h.free)
    && (forall x :: x in h.free <==> x in FreeBlocks(h.mem, bs) && x != bs[k])
    && (forall i :: 0 <= i < |bs| - 1 && i + 1 != k && i != k ==> NotBothFree(h.mem, bs, i))
  }

  /**
    What coalescing block `k` achieves: the invariant holds again; the result
    starts at the block itself or, when the previous block was free, at the
    previous block; it is free and carries the sum of the merged sizes; both
    of its neighbours are allocated; the absorbed neighbours have left the
    list and the result has joined it; allocated blocks are untouched.
   */
  ghost predicate Outcome(h: Heap, bs: seq<int>, k: int, c: (Heap, int), bs': seq<int>, k': int)
    requires 1 <= k < |bs|
  {
    var (h', r) := c;
    var m := h.mem;
    var prevFree := !Read(m, bs[k - 1]).alloc;
    var nextFree := k + 1 < |bs| && !Read(m, bs[k + 1]).alloc;
    && Inv(h', bs')
    && 1 <= k' < |bs'| && bs'[k'] == r
    && r == (if prevFree then bs[k - 1] else bs[k])
    && Read(h'.mem, r) == Tag((if prevFree then Read(m, bs[k - 1]).size else 0) + Read(m, bs[k]).size
                              + (if nextFree then Read(m, bs[k + 1]).size else 0), false)
    && Read(h'.mem, bs'[k' - 1]).alloc
    && (k' + 1 < |bs'| ==> Read(h'.mem, bs'[k' + 1]).alloc)
    && (forall x :: x in h'.free <==> x == r || (x in h.free && !(prevFree && x == bs[k - 1]) && !(nextFree && x == bs[k + 1])))
    && KeepsUsed(m, bs, h'.mem, bs')
    && UsedBlocks(h'.mem, bs') == UsedBlocks(m, bs)
  }

  /** The footer before block `k` and the header after it are the neighbours' tags. */
  lemma Neighbours(h: Heap, bs: seq<int>, k: int)
    requires Layout(h.mem, bs, h.brk)
    requires 1 <= k < |bs|
    ensures Read(h.mem, bs[k] - HeaderSize) == Read(h.mem, bs[k - 1])
    ensures PrevBlock(h.mem, bs[k]) == bs[k - 1]
    ensures bs[k] - Read(h.mem, bs[k] - HeaderSize).size == bs[k - 1]
    ensures bs[k] + Read(h.mem, bs[k]).size == EndOf(bs, k, h.brk)
    ensures k + 1 == |bs| ==> Read(h.mem, bs[k] + Read(h.mem, bs[k]).size) == Tag(0, true)
  {
    FooterInBlock(h.mem, bs, h.brk, k - 1);
    assert Step(h.mem, bs, h.brk, k);
  }

  /** coalesce on block `k` of a freed state, in every case. */
  lemma CoalescePreserves(h: Heap, bs: seq<int>, k: int) returns (bs': seq<int>, k': int)
    requires Freed(h, bs, k)
    ensures Outcome(h, bs, k, Coalesce(h, bs[k]), bs', k')
  {
    Neighbours(h, bs, k);
    var prevAlloc := Read(h.mem, bs[k - 1]).alloc;
    var nextAlloc := k + 1 == |bs| || Read(h.mem, bs[k + 1]).alloc;
    if prevAlloc && nextAlloc {
      bs', k' := Case1(h, bs, k);
    } else if prevAlloc {
      bs', k' := CoalesceCase2(h, bs, k);
    } else if nextAlloc {
      bs', k' := CoalesceCase3(h, bs, k);
    } else {
      bs', k' := CoalesceCase4(h, bs, k);
    }
  }

  /**
    Past 2^31 bytes of heap a merged size no longer fits the 31-bit size
    field, which is why the host never grows the heap that far (see `Grows`).
    In C the two fields are added as `int`, so 2^30 + 2^30 overflows, which is
    undefined behaviour; the model stores the sum modulo 2^31, as a wrapping
    compiler does. Here the freed block at 40 and the free block after it
    hold 2^30 bytes each: coalesce (case 2) stores 0, and the footer it then
    writes lands on the word before the block, the sentinel's footer. The
    merged block is therefore not a well-formed block. Such a heap also lies
    past the 2^31-byte bound, so no block sequence makes it a valid layout.
   */
  lemma WrapBeyondLimit()
    ensures var m: Memory := map[32 := Tag(32, true), 40 := Tag(0x4000_0000, false), 0x4000_0028 := Tag(0x4000_0000, false)];
      var c := Coalesce(Heap(m, [0x4000_0028], 0x8000_0050), 40);
      && c.1 == 40
      && Read(c.0.mem, 40) == Tag(0, false)
      && Read(c.0.mem, 32) == Tag(0, true)
      && !BlockOk(c.0.mem, 40)
      && forall bs :: !Layout(m, bs, 0x8000_0050)
  {
  }

  /** Resize writes the new size into the header and into the footer it implies, and nothing else. */
  lemma ResizeTags(m: Memory, b: int, merged: nat)
    requires merged < SizeLimit
    ensures Read(Resize(m, b, merged), b) == Tag(merged, Read(m, b).alloc)
    ensures merged != HeaderSize ==> Read(Resize(m, b, merged), b + merged - HeaderSize) == Tag(merged, Read(m, b + merged - HeaderSize).alloc)
    ensures forall x :: x != b && x != b + merged - HeaderSize ==> Read(Resize(m, b, merged), x) == Read(m, x)
  {
  }

  /** The number of bytes the window bs[a..c] spans. */
  ghost function SpanSize(m: Memory, bs: seq<int>, brk: int, a: int, c: int): (n: nat)
    requires Layout(m, bs, brk)
    requires 1 <= a < c <= |bs|
    ensures n == EndOf(bs, c - 1, brk) - bs[a]
    ensures n < SizeLimit
  {
    InsideWindow(m, bs, brk, a, c, c - 1);
    Ordered(m, bs, brk);
    EndOf(bs, c - 1, brk) - bs[a]
  }

  /**
    Merging the free blocks bs[a..c] into one block at bs[a]: the header at
    bs[a] and the footer at the end of the span get the span's size, and
    the result is a layout in which the window's blocks have become one free
    block and everything outside the span is unchanged.
   */
  lemma MergeWindow(m: Memory, bs: seq<int>, brk: int, a: int, c: int) returns (m': Memory, bs': seq<int>)
    requires Layout(m, bs, brk)
    requires 1 <= a < c <= |bs|
    requires forall i :: a <= i < c ==> !Read(m, bs[i]).alloc
    ensures m' == Resize(m, bs[a], SpanSize(m, bs, brk, a, c))
    ensures bs' == bs[..a] + [bs[a]] + bs[c..]
    ensures Layout(m', bs', brk)
    ensures Read(m', bs[a]) == Tag(EndOf(bs, c - 1, brk) - bs[a], false)
    ensures |bs'| == |bs| - (c - a) + 1 && bs'[a] == bs[a] && bs'[a - 1] == bs[a - 1]
    ensures c < |bs| ==> bs'[a + 1] == bs[c]
    ensures forall x :: x in FreeBlocks(m', bs') <==> x == bs[a] || (x in FreeBlocks(m, bs) && x !in bs[a..c])
    ensures KeepsUsed(m, bs, m', bs')
    ensures UsedBlocks(m', bs') == UsedBlocks(m, bs)
  {
    var lo, hi := bs[a], EndOf(bs, c - 1, brk);
    InsideWindow(m, bs, brk, a, c, c - 1);
    assert Step(m, bs, brk, c - 1);
    var last := bs[c - 1];
    var merged := hi - lo;
    assert merged >= MinBlockSize && merged % 8 == 0 by {
      assert Step(m, bs, brk, a);
      if c - 1 > a {
        Chain(m, bs, brk, a, c - 1);
      }
      assert Step(m, bs, brk, c - 1);
      assert bs[a] % 8 == 0 && hi % 8 == 0 by {
        assert BlockOk(m, bs[a]) && BlockOk(m, last);
      }
    }
    assert merged == SpanSize(m, bs, brk, a, c);
    m' := Resize(m, lo, merged);
    ResizeTags(m, lo, merged);
    var ns := [lo];
    bs' := bs[..a] + ns + bs[c..];
    assert Read(m, last + Read(m, last).size - HeaderSize) == Read(m, last);
    assert Read(m', lo) == Tag(merged, false);
    assert Read(m', lo + merged - HeaderSize) == Tag(merged, false);
    assert RewriteOk(m, bs, brk, m', a, c, ns) by {
      assert Step(m, bs, brk, a);
      assert TileStep(m', ns, hi, 0);
    }
    assert Layout(m', bs', brk) by {
      Rewrite(m, bs, brk, m', a, c, ns);
    }
    assert forall x :: x in FreeBlocks(m', bs') <==> x == lo || (x in FreeBlocks(m, bs) && x !in bs[a..c]) by {
      RewriteFree(m, bs, brk, m', a, c, ns);
      WindowSpan(m, bs, brk, a, c);
    }
    assert KeepsUsed(m, bs, m', bs') by {
      RewriteFree(m, bs, brk, m', a, c, ns);
      WindowSpan(m, bs, brk, a, c);
      forall x | x in UsedBlocks(m, bs) ensures x in bs' && Read(m', x) == Read(m, x) {
        assert x !in bs[a..c];
      }
    }
    assert UsedBlocks(m', bs') <= UsedBlocks(m, bs) by {
      RewriteUsed(m, bs, brk, m', a, c, ns);
    }
  }

  /** After a merge, no two neighbours are free if that held away from the window and both blocks around it are allocated. */
  lemma MergeNoAdjacent(m: Memory, bs: seq<int>, brk: int, a: int, c: int)
    requires Layout(m, bs, brk)
    requires 1 <= a < c <= |bs|
    requires forall i :: a <= i < c ==> !Read(m, bs[i]).alloc
    requires forall i :: 0 <= i < |bs| - 1 && (i + 1 < a || c <= i) ==> NotBothFree(m, bs, i)
    requires Read(m, bs[a - 1]).alloc
    requires c < |bs| ==> Read(m, bs[c]).alloc
    ensures NoAdjacentFree(Resize(m, bs[a], SpanSize(m, bs, brk, a, c)), bs[..a] + [bs[a]] + bs[c..])
  {
    var m', bs' := MergeWindow(m, bs, brk, a, c);
    var ns := [bs[a]];
    ResizeTags(m, bs[a], SpanSize(m, bs, brk, a, c));
    assert RewriteOk(m, bs, brk, m', a, c, ns) by {
      assert Step(m, bs, brk, a);
      InsideWindow(m, bs, brk, a, c, c - 1);
      assert Step(m, bs, brk, c - 1);
      assert TileStep(m', ns, EndOf(bs, c - 1, brk), 0);
    }
    WindowSpan(m, bs, brk, a, c);
    assert bs[a - 1] in bs[..a];
    if c < |bs| {
      assert bs[c] in bs[c..];
    }
    RewriteNoAdjacent(m, bs, brk, m', a, c, ns);
  }

  /** coalesce when only the next block is free. */
  lemma CoalesceNext(h: Heap, b: int, n: int)
    requires Read(h.mem, b - HeaderSize).alloc
    requires n == b + Read(h.mem, b).size && !Read(h.mem, n).alloc
    ensures Coalesce(h, b) == (Heap(Resize(h.mem, b, Read(h.mem, b).size + Read(h.mem, n).size), Push(Remove(h.free, n), b), h.brk), b)
  {
    assert Coalesce(h, b) == MergeNext(h, b);
  }

  /** coalesce when only the previous block is free. */
  lemma CoalescePrev(h: Heap, p: int, b: int)
    requires p == b - Read(h.mem, b - HeaderSize).size && !Read(h.mem, b - HeaderSize).alloc
    requires Read(h.mem, b + Read(h.mem, b).size).alloc
    ensures Coalesce(h, b) == (Heap(Resize(h.mem, p, Read(h.mem, p).size + Read(h.mem, b).size), Push(Remove(h.free, p), p), h.brk), p)
  {
    assert Coalesce(h, b) == MergePrev(h, b);
  }

  /** coalesce when both neighbours are free. */
  lemma CoalesceBoth(h: Heap, p: int, b: int, n: int)
    requires p == b - Read(h.mem, b - HeaderSize).size && !Read(h.mem, b - HeaderSize).alloc
    requires n == b + Read(h.mem, b).size && !Read(h.mem, n).alloc
    ensures Coalesce(h, b) == (Heap(Resize(h.mem, p, Read(h.mem, p).size + Read(h.mem, b).size + Read(h.mem, n).size),
                                    Push(Remove(Remove(h.free, p), n), p), h.brk), p)
  {
    assert Coalesce(h, b) == MergeBoth(h, b);
  }

  /** Case 2 of coalesce on a freed state. */
  lemma CoalesceCase2(h: Heap, bs: seq<int>, k: int) returns (bs': seq<int>, k': int)
    requires Freed(h, bs, k)
    requires Read(h.mem, bs[k - 1]).alloc
    requires k + 1 < |bs| && !Read(h.mem, bs[k + 1]).alloc
    ensures Outcome(h, bs, k, Coalesce(h, bs[k]), bs', k')
  {
    Neighbours(h, bs, k);
    var m, b, n := h.mem, bs[k], bs[k + 1];
    CoalesceNext(h, b, n);
    bs' := Case2(h, bs, k, Coalesce(h, b));
    k' := k;
  }

  /** Case 3 of coalesce on a freed state. */
  lemma CoalesceCase3(h: Heap, bs: seq<int>, k: int) returns (bs': seq<int>, k': int)
    requires Freed(h, bs, k)
    requires !Read(h.mem, bs[k - 1]).alloc
    requires k + 1 == |bs| || Read(h.mem, bs[k + 1]).alloc
    ensures Outcome(h, bs, k, Coalesce(h, bs[k]), bs', k')
  {
    Neighbours(h, bs, k);
    var m, p, b := h.mem, bs[k - 1], bs[k];
    CoalescePrev(h, p, b);
    bs' := Case3(h, bs, k, Coalesce(h, b));
    k' := k - 1;
  }

  /** Case 4 of coalesce on a freed state. */
  lemma CoalesceCase4(h: Heap, bs: seq<int>, k: int) returns (bs': seq<int>, k': int)
    requires Freed(h, bs, k)
    requires !Read(h.mem, bs[k - 1]).alloc
    requires k + 1 < |bs| && !Read(h.mem, bs[k + 1]).alloc
    ensures Outcome(h, bs, k, Coalesce(h, bs[k]), bs', k')
  {
    BothShape(h, bs, k);
    k' := k - 1;
    bs' := Case4(h, bs, k, Coalesce(h, bs[k]));
  }

  /** With both neighbours free, coalesce merges the three blocks at the previous block's start. */
  lemma BothShape(h: Heap, bs: seq<int>, k: int)
    requires Freed(h, bs, k)
    requires !Read(h.mem, bs[k - 1]).alloc
    requires k + 1 < |bs| && !Read(h.mem, bs[k + 1]).alloc
    ensures var m, p, b, n := h.mem, bs[k - 1], bs[k], bs[k + 1];
      Coalesce(h, b) == (Heap(Resize(m, p, Read(m, p).size + Read(m, b).size + Read(m, n).size), Push(Remove(Remove(h.free, p), n), p), h.brk), bs[k - 1])
  {
    Neighbours(h, bs, k);
    CoalesceBoth(h, bs[k - 1], bs[k], bs[k + 1]);
  }

  /** Case 1: both neighbours allocated; the block is only linked in. */
  lemma Case1(h: Heap, bs: seq<int>, k: int) returns (bs': seq<int>, k': int)
    requires Freed(h, bs, k)
    requires Read(h.mem, bs[k - 1]).alloc
    requires k + 1 == |bs| || Read(h.mem, bs[k + 1]).alloc
    ensures Outcome(h, bs, k, Coalesce(h, bs[k]), bs', k')
  {
    Neighbours(h, bs, k);
    var h' := Heap(h.mem, Push(h.free, bs[k]), h.brk);
    assert Coalesce(h, bs[k]) == (h', bs[k]);
    bs', k' := bs, k;
    var m := h.mem;
    assert bs[k] in FreeBlocks(m, bs);
    assert NoAdjacentFree(m, bs) by {
      forall i | 0 <= i < |bs| - 1 ensures NotBothFree(m, bs, i) {
      }
    }
    assert ListOk(h', bs);
  }

  /**
    Cases 2 to 4: the window bs[a..c] around block `k` is merged, the
    absorbed neighbours leave the list, and the merged block joins it.
   */
  lemma MergePreserves(h: Heap, bs: seq<int>, k: int, a: int, c: int, res: (Heap, int)) returns (bs': seq<int>)
    requires Freed(h, bs, k)
    requires a == (if Read(h.mem, bs[k - 1]).alloc then k else k - 1)
    requires c == (if k + 1 < |bs| && !Read(h.mem, bs[k + 1]).alloc then k + 2 else k + 1)
    requires c - a >= 2
    requires res.1 == bs[a]
    requires res.0.mem == Resize(h.mem, bs[a], SpanSize(h.mem, bs, h.brk, a, c)) && res.0.brk == h.brk
    requires NoDup(res.0.free) && forall x :: x in res.0.free <==> x == bs[a] || (x in h.free && x != bs[a] && x != bs[c - 1])
    ensures a >= 1 && Outcome(h, bs, k, res, bs', a)
  {
    var m := h.mem;
    var h' := res.0;
    bs' := MergeShape(h, bs, k, a, c, h');
    var r := bs[a];
    assert Read(h'.mem, r) == Tag((if a < k then Read(m, bs[k - 1]).size else 0) + Read(m, bs[k]).size
                              + (if k + 1 < c then Read(m, bs[k + 1]).size else 0), false) by {
      assert Step(m, bs, h.brk, k);
      if a < k {
        assert Step(m, bs, h.brk, k - 1);
      }
      if k + 1 < c {
        assert Step(m, bs, h.brk, k + 1);
      }
    }
  }

  /** The layout side of cases 2 to 4: the invariant after the merge and the merged block's neighbours. */
  lemma MergeShape(h: Heap, bs: seq<int>, k: int, a: int, c: int, h': Heap) returns (bs': seq<int>)
    requires Freed(h, bs, k)
    requires a == (if Read(h.mem, bs[k - 1]).alloc then k else k - 1)
    requires c == (if k + 1 < |bs| && !Read(h.mem, bs[k + 1]).alloc then k + 2 else k + 1)
    requires c - a >= 2
    requires h'.mem == Resize(h.mem, bs[a], SpanSize(h.mem, bs, h.brk, a, c)) && h'.brk == h.brk
    requires NoDup(h'.free) && forall x :: x in h'.free <==> x == bs[a] || (x in h.free && x != bs[a] && x != bs[c - 1])
    ensures a >= 1 && Inv(h', bs')
    ensures 1 <= a < |bs'| && bs'[a] == bs[a]
    ensures Read(h'.mem, bs[a]) == Tag(SpanSize(h.mem, bs, h.brk, a, c), false)
    ensures Read(h'.mem, bs'[a - 1]).alloc && (a + 1 < |bs'| ==> Read(h'.mem, bs'[a + 1]).alloc)
    ensures KeepsUsed(h.mem, bs, h'.mem, bs')
    ensures UsedBlocks(h'.mem, bs') == UsedBlocks(h.mem, bs)
  {
    var m := h.mem;
    assert a >= 1 by {
      if a == 0 {
        assert Read(m, bs[0]).alloc;
      }
    }
    assert forall i :: a <= i < c ==> !Read(m, bs[i]).alloc;
    assert Read(m, bs[a - 1]).alloc by {
      if a == k - 1 {
        assert NotBothFree(m, bs, k - 2);
      }
    }
    assert c < |bs| ==> Read(m, bs[c]).alloc by {
      if c == k + 2 && c < |bs| {
        assert NotBothFree(m, bs, k + 1);
      }
    }
    bs' := bs[..a] + [bs[a]] + bs[c..];
    var r := bs[a];
    assert forall x :: x in bs[a..c] <==> x == bs[a] || x == bs[k] || x == bs[c - 1] by {
      if c - a == 3 {
        assert bs[a..c] == [bs[a], bs[k], bs[c - 1]];
      } else {
        assert bs[a..c] == [bs[a], bs[c - 1]];
      }
    }
    assert Inv(h', bs') by {
      var _, _ := MergeWindow(m, bs, h.brk, a, c);
      MergeNoAdjacent(m, bs, h.brk, a, c);
    }
    assert KeepsUsed(m, bs, h'.mem, bs') && UsedBlocks(h'.mem, bs') == UsedBlocks(m, bs) && Read(h'.mem, r) == Tag(SpanSize(m, bs, h.brk, a, c), false) by {
      var _, _ := MergeWindow(m, bs, h.brk, a, c);
    }
    assert Read(h'.mem, bs'[a - 1]).alloc by {
      assert bs'[a - 1] == bs[a - 1];
      assert bs[a - 1] in UsedBlocks(m, bs);
    }
    assert a + 1 < |bs'| ==> Read(h'.mem, bs'[a + 1]).alloc by {
      if a + 1 < |bs'| {
        assert bs'[a + 1] == bs[c];
        assert bs[c] in UsedBlocks(m, bs);
      }
    }
  }

  /** Case 2: the next block is absorbed into the freed block. */
  lemma Case2(h: Heap, bs: seq<int>, k: int, res: (Heap, int)) returns (bs': seq<int>)
    requires Freed(h, bs, k)
    requires Read(h.mem, bs[k - 1]).alloc
    requires k + 1 < |bs| && !Read(h.mem, bs[k + 1]).alloc
    requires var m, b, n := h.mem, bs[k], bs[k + 1];
      res == (Heap(Resize(m, b, Read(m, b).size + Read(m, n).size), Push(Remove(h.free, n), b), h.brk), bs[k])
    ensures Outcome(h, bs, k, res, bs', k)
  {
    var m, b, n := h.mem, bs[k], bs[k + 1];
    TwoSpan(m, bs, h.brk, k);
    assert n in h.free by {
      assert Step(m, bs, h.brk, k);
      assert n in FreeBlocks(m, bs);
    }
    assert NoDup(res.0.free) && forall x :: x in res.0.free <==> x == b || (x in h.free && x != b && x != n) by {
      RemoveNoDup(h.free, n);
      PushFront(Remove(h.free, n), b);
    }
    var a, c := k, k + 2;
    assert bs[a] == b && bs[c - 1] == n;
    assert res.0.mem == Resize(m, bs[a], SpanSize(m, bs, h.brk, a, c));
    assert forall x :: x in res.0.free <==> x == bs[a] || (x in h.free && x != bs[a] && x != bs[c - 1]);
    bs' := MergePreserves(h, bs, k, a, c, res);
  }

  /** Case 3: the freed block is absorbed into the previous block. */
  lemma Case3(h: Heap, bs: seq<int>, k: int, res: (Heap, int)) returns (bs': seq<int>)
    requires Freed(h, bs, k)
    requires !Read(h.mem, bs[k - 1]).alloc
    requires k + 1 == |bs| || Read(h.mem, bs[k + 1]).alloc
    requires var m, p, b := h.mem, bs[k - 1], bs[k];
      res == (Heap(Resize(m, p, Read(m, p).size + Read(m, b).size), Push(Remove(h.free, p), p), h.brk), bs[k - 1])
    ensures Outcome(h, bs, k, res, bs', k - 1)
  {
    var m, p, b := h.mem, bs[k - 1], bs[k];
    TwoSpan(m, bs, h.brk, k - 1);
    assert p in h.free by { assert p in FreeBlocks(m, bs); }
    assert NoDup(res.0.free) && forall x :: x in res.0.free <==> x == p || (x in h.free && x != p && x != b) by {
      RemoveNoDup(h.free, p);
      PushFront(Remove(h.free, p), p);
    }
    var a, c := k - 1, k + 1;
    assert bs[a] == p && bs[c - 1] == b;
    assert res.0.mem == Resize(m, bs[a], SpanSize(m, bs, h.brk, a, c));
    assert forall x :: x in res.0.free <==> x == bs[a] || (x in h.free && x != bs[a] && x != bs[c - 1]);
    bs' := MergePreserves(h, bs, k, a, c, res);
  }

  /** Two neighbouring blocks of a valid heap are in address order and together span the sum of their sizes. */
  lemma TwoSpan(m: Memory, bs: seq<int>, brk: int, a: int)
    requires Layout(m, bs, brk)
    requires 1 <= a && a + 1 < |bs|
    ensures bs[a] < bs[a + 1]
    ensures Read(m, bs[a]).size + Read(m, bs[a + 1]).size == SpanSize(m, bs, brk, a, a + 2)
  {
    assert Step(m, bs, brk, a);
    assert Step(m, bs, brk, a + 1);
  }

  /** Three neighbouring blocks of a valid heap are distinct and together span the sum of their sizes. */
  lemma ThreeSpan(m: Memory, bs: seq<int>, brk: int, k: int)
    requires Layout(m, bs, brk)
    requires 2 <= k && k + 1 < |bs|
    ensures bs[k - 1] != bs[k] && bs[k] != bs[k + 1] && bs[k - 1] != bs[k + 1]
    ensures Read(m, bs[k - 1]).size + Read(m, bs[k]).size + Read(m, bs[k + 1]).size == SpanSize(m, bs, brk, k - 1, k + 2)
  {
    assert Step(m, bs, brk, k - 1);
    assert Step(m, bs, brk, k);
    assert Step(m, bs, brk, k + 1);
  }

  /** Case 4: the freed block and the next block are absorbed into the previous block. */
  lemma Case4(h: Heap, bs: seq<int>, k: int, res: (Heap, int)) returns (bs': seq<int>)
    requires Freed(h, bs, k)
    requires !Read(h.mem, bs[k - 1]).alloc
    requires k + 1 < |bs| && !Read(h.mem, bs[k + 1]).alloc
    requires var m, p, b, n := h.mem, bs[k - 1], bs[k], bs[k + 1];
      res == (Heap(Resize(m, p, Read(m, p).size + Read(m, b).size + Read(m, n).size), Push(Remove(Remove(h.free, p), n), p), h.brk), bs[k - 1])
    ensures Outcome(h, bs, k, res, bs', k - 1)
  {
    var m, p, b, n := h.mem, bs[k - 1], bs[k], bs[k + 1];
    ThreeSpan(m, bs, h.brk, k);
    assert NoDup(res.0.free) && forall x :: x in res.0.free <==> x == p || (x in h.free && x != p && x != n) by {
      RemoveTwoNoDup(h.free, p, n);
      PushFront(Remove(Remove(h.free, p), n), p);
    }
    var a, c := k - 1, k + 2;
    assert bs[a] == p && bs[c - 1] == n;
    assert res.0.mem == Resize(m, bs[a], SpanSize(m, bs, h.brk, a, c));
    assert forall x :: x in res.0.free <==> x == bs[a] || (x in h.free && x != bs[a] && x != bs[c - 1]);
    bs' := MergePreserves(h, bs, k, a, c, res);
  }
}
