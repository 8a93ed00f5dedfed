/**
  The allocator's state and the heap invariant that holds between any two
  public operations.

  Offsets are bytes from the start of the heap (the address the first
  mem_sbrk returned). The heap is laid out as
    prologue header (8, allocated) at 0,
    the sentinel block (32, allocated) at 8, the head of the free list,
    the user blocks, tiling the heap,
    the epilogue header (0, allocated) in the last word before `brk`.
 */
module HeapModel {
  import opened Tags
  import opened FreeList

  /** The minimum block: header, footer and the two free-list links, padded. */
  const MinBlockSize: int := 32
  /** Initial heap size and the least amount the heap grows by. */
  const ChunkSize: int := 0x1_0000
  /** Header plus footer. */
  const Overhead: int := 2 * HeaderSize
  /** Offset of the sentinel block (free_list_startp). */
  const Sentinel: int := 8

  /**
    mem: the tag words; free: the free list after the sentinel, in list
    order; brk: the current end of the heap.
   */
  datatype Heap = Heap(mem: Memory, free: seq<int>, brk: int)

  /** Where the `i`th block of `bs` must end: at the next block, or at the epilogue header. */
  function EndOf(bs: seq<int>, i: int, brk: int): int
    requires 0 <= i < |bs|
  {
    if i + 1 < |bs| then bs[i + 1] else brk - HeaderSize
  }

  /**
    The block at `b` is aligned, large enough, its size fits the 31-bit
    field, and the footer get_footer finds agrees with the header.
   */
  ghost predicate BlockOk(m: Memory, b: int)
  {
    var t := Read(m, b);
    && b % 8 == 0
    && MinBlockSize <= t.size < SizeLimit
    && t.size % 8 == 0
    && Read(m, FooterOf(m, b)) == t
  }

  /** Block `i` of `bs` is well formed and ends where the next one begins. */
  ghost predicate Step(m: Memory, bs: seq<int>, brk: int, i: int)
    requires 0 <= i < |bs|
  {
    BlockOk(m, bs[i]) && bs[i] + Read(m, bs[i]).size == EndOf(bs, i, brk)
  }

  /**
    `bs` lists, in address order, the blocks between the prologue and the
    epilogue: it starts with the sentinel, and each block's size carries it
    exactly to the next one (the sizes tile the heap).
   */
  ghost predicate Layout(m: Memory, bs: seq<int>, brk: int)
  {
    && Read(m, 0) == Tag(HeaderSize, true)
    && |bs| >= 1
    && bs[0] == Sentinel
    && Read(m, Sentinel) == Tag(MinBlockSize, true)
    && (forall i :: 0 <= i < |bs| ==> Step(m, bs, brk, i))
    && Read(m, brk - HeaderSize) == Tag(0, true)
    && brk <= SizeLimit
  }

  /** The blocks of the layout whose allocated flag is clear. */
  function FreeBlocks(m: Memory, bs: seq<int>): set<int>
  {
    set x | x in bs && !Read(m, x).alloc
  }

  /** The blocks of the layout whose allocated flag is set (the sentinel and the live allocations). */
  function UsedBlocks(m: Memory, bs: seq<int>): set<int>
  {
    set x | x in bs && Read(m, x).alloc
  }

  /** List membership matches the free flag, and every free block is listed once. */
  ghost predicate ListOk(h: Heap, bs: seq<int>)
  {
    && NoDup(h.free)
    && forall x :: x in h.free <==> x in FreeBlocks(h.mem, bs)
  }

  /**
    get_footer on block `i` of a layout is the last word before the next
    block (or before the epilogue), and it holds the block's header tag;
    this is the word coalesce reads as the footer of its left neighbour.
   */
  lemma FooterInBlock(m: Memory, bs: seq<int>, brk: int, i: int)
    requires Layout(m, bs, brk)
    requires 0 <= i < |bs|
    ensures bs[i] < FooterOf(m, bs[i]) && FooterOf(m, bs[i]) == EndOf(bs, i, brk) - HeaderSize
    ensures Read(m, FooterOf(m, bs[i])) == Read(m, bs[i])
  {
    assert Step(m, bs, brk, i);
  }

  /** Blocks `i` and `i + 1` of `bs` are not both free. */
  ghost predicate NotBothFree(m: Memory, bs: seq<int>, i: int)
    requires 0 <= i < |bs| - 1
  {
    Read(m, bs[i]).alloc || Read(m, bs[i + 1]).alloc
  }

  /** Coalescing is eager: no two neighbouring blocks are both free. */
  ghost predicate NoAdjacentFree(m: Memory, bs: seq<int>)
  {
    forall i :: 0 <= i < |bs| - 1 ==> NotBothFree(m, bs, i)
  }

  /** The heap invariant, with `bs` the block sequence it is witnessed by. */
  ghost predicate Inv(h: Heap, bs: seq<int>)
  {
    Layout(h.mem, bs, h.brk) && ListOk(h, bs) && NoAdjacentFree(h.mem, bs)
  }

  /** Every allocated block of the old heap is still a block of the new one, with the same tag. */
  ghost predicate KeepsUsed(m: Memory, bs: seq<int>, m': Memory, bs': seq<int>)
  {
    forall x :: x in UsedBlocks(m, bs) ==> x in bs' && Read(m', x) == Read(m, x)
  }

  /** Keeping the allocated blocks composes across two steps. */
  lemma KeepsUsedTrans(m1: Memory, bs1: seq<int>, m2: Memory, bs2: seq<int>, m3: Memory, bs3: seq<int>)
    requires KeepsUsed(m1, bs1, m2, bs2) && KeepsUsed(m2, bs2, m3, bs3)
    ensures KeepsUsed(m1, bs1, m3, bs3)
  {
    forall x | x in UsedBlocks(m1, bs1) ensures x in bs3 && Read(m3, x) == Read(m1, x) {
      assert x in UsedBlocks(m2, bs2);
    }
  }

  /** Blocks of a layout follow one another: block `i` ends at or before block `j` starts. */
  lemma {:induction false} Chain(m: Memory, bs: seq<int>, brk: int, i: int, j: int)
    requires Layout(m, bs, brk)
    requires 0 <= i < j <= |bs|
    ensures bs[i] + Read(m, bs[i]).size <= (if j < |bs| then bs[j] else brk - HeaderSize)
    decreases j - i
  {
    assert Step(m, bs, brk, i);
    if j > i + 1 {
      Chain(m, bs, brk, i + 1, j);
    }
  }

  /** The blocks of a layout are disjoint, ordered, and lie between the sentinel and the epilogue. */
  lemma Ordered(m: Memory, bs: seq<int>, brk: int)
    requires Layout(m, bs, brk)
    ensures forall i, j :: 0 <= i < j < |bs| ==> bs[i] + Read(m, bs[i]).size <= bs[j]
    ensures forall i :: 0 <= i < |bs| ==> Sentinel <= bs[i] && bs[i] + Read(m, bs[i]).size <= brk - HeaderSize
    ensures forall i :: 1 <= i < |bs| ==> Sentinel + MinBlockSize <= bs[i]
  {
    forall i, j | 0 <= i < j < |bs| ensures bs[i] + Read(m, bs[i]).size <= bs[j] {
      Chain(m, bs, brk, i, j);
    }
    forall i | 0 <= i < |bs| ensures bs[i] + Read(m, bs[i]).size <= brk - HeaderSize {
      Chain(m, bs, brk, i, |bs|);
    }
  }

  /** A layout lists each block once. */
  lemma LayoutNoDup(m: Memory, bs: seq<int>, brk: int)
    requires Layout(m, bs, brk)
    ensures NoDup(bs)
  {
    Ordered(m, bs, brk);
    forall i, j | 0 <= i < j < |bs| ensures bs[i] != bs[j] {
      assert Step(m, bs, brk, i);
    }
  }

  /** `ns` is a run of well-formed blocks that tiles exactly [lo, hi). */
  ghost predicate Tiles(m: Memory, ns: seq<int>, lo: int, hi: int)
  {
    && |ns| >= 1
    && ns[0] == lo
    && forall i :: 0 <= i < |ns| ==> TileStep(m, ns, hi, i)
  }

  /** Block `i` of the run `ns` is well formed and ends at the next block of the run, or at `hi`. */
  ghost predicate TileStep(m: Memory, ns: seq<int>, hi: int, i: int)
    requires 0 <= i < |ns|
  {
    BlockOk(m, ns[i]) && ns[i] + Read(m, ns[i]).size == (if i + 1 < |ns| then ns[i + 1] else hi)
  }

  /** Every block of a tiling run lies inside the span it tiles. */
  lemma {:induction false} TilesInside(m: Memory, ns: seq<int>, lo: int, hi: int, i: int)
    requires Tiles(m, ns, lo, hi)
    requires 0 <= i < |ns|
    ensures lo <= ns[i] && ns[i] + Read(m, ns[i]).size <= hi
    decreases |ns| - i
  {
    assert TileStep(m, ns, hi, i);
    if i + 1 < |ns| {
      TilesInside(m, ns, lo, hi, i + 1);
    }
    if i > 0 {
      TilesInsideBelow(m, ns, lo, hi, i);
    }
  }

  lemma {:induction false} TilesInsideBelow(m: Memory, ns: seq<int>, lo: int, hi: int, i: int)
    requires Tiles(m, ns, lo, hi)
    requires 0 <= i < |ns|
    ensures lo <= ns[i]
  {
    if i > 0 {
      assert TileStep(m, ns, hi, i - 1);
      TilesInsideBelow(m, ns, lo, hi, i - 1);
    }
  }

  /** The span [lo, hi) that a rewrite of bs[a..c] replaces. */
  ghost predicate RewriteOk(m: Memory, bs: seq<int>, brk: int, m': Memory, a: int, c: int, ns: seq<int>)
  {
    && Layout(m, bs, brk)
    && 1 <= a < c <= |bs|
    && (forall x :: x < bs[a] || EndOf(bs, c - 1, brk) <= x ==> Read(m', x) == Read(m, x))
    && Tiles(m', ns, bs[a], EndOf(bs, c - 1, brk))
  }

  /**
    Replacing the blocks bs[a..c] by a run `ns` tiling the same span, in a
    memory that differs from the old one only inside that span, gives a
    layout again; the blocks outside the span keep their tags.
   */
  lemma Rewrite(m: Memory, bs: seq<int>, brk: int, m': Memory, a: int, c: int, ns: seq<int>)
    requires Layout(m, bs, brk)
    requires 1 <= a < c <= |bs|
    requires forall x :: x < bs[a] || EndOf(bs, c - 1, brk) <= x ==> Read(m', x) == Read(m, x)
    requires Tiles(m', ns, bs[a], EndOf(bs, c - 1, brk))
    ensures Layout(m', bs[..a] + ns + bs[c..], brk)
    ensures forall x :: x in bs[..a] + ns + bs[c..] <==> x in bs[..a] || x in ns || x in bs[c..]
    ensures forall x :: x in bs[..a] || x in bs[c..] <==> x in bs && (x < bs[a] || EndOf(bs, c - 1, brk) <= x)
    ensures forall x :: x in bs[..a] || x in bs[c..] ==> Read(m', x) == Read(m, x)
    ensures forall x :: x in ns ==> bs[a] <= x < EndOf(bs, c - 1, brk)
  {
    RewriteSteps(m, bs, brk, m', a, c, ns);
    RewriteOutside(m, bs, brk, a, c);
    var lo, hi := bs[a], EndOf(bs, c - 1, brk);
    forall x | x in ns ensures lo <= x < hi {
      var i :| 0 <= i < |ns| && ns[i] == x;
      TilesInside(m', ns, lo, hi, i);
      assert TileStep(m', ns, hi, i);
    }
  }

  lemma RewriteSteps(m: Memory, bs: seq<int>, brk: int, m': Memory, a: int, c: int, ns: seq<int>)
    requires RewriteOk(m, bs, brk, m', a, c, ns)
    ensures Layout(m', bs[..a] + ns + bs[c..], brk)
  {
    Ordered(m, bs, brk);
    var lo, hi := bs[a], EndOf(bs, c - 1, brk);
    var bs' := bs[..a] + ns + bs[c..];
    assert hi == if c < |bs| then bs[c] else brk - HeaderSize;
    forall i | 0 <= i < |bs'| ensures Step(m', bs', brk, i) {
      if i < a {
        RewriteStepBefore(m, bs, brk, m', a, c, ns, i);
      } else if i < a + |ns| {
        assert bs'[i] == ns[i - a];
        assert TileStep(m', ns, hi, i - a);
        if i + 1 < a + |ns| {
          assert bs'[i + 1] == ns[i - a + 1];
        } else if c < |bs| {
          assert bs'[i + 1] == bs[c];
        }
      } else {
        RewriteStepAfter(m, bs, brk, m', a, c, ns, i);
      }
    }
  }

  lemma RewriteStepBefore(m: Memory, bs: seq<int>, brk: int, m': Memory, a: int, c: int, ns: seq<int>, i: int)
    requires RewriteOk(m, bs, brk, m', a, c, ns)
    requires 0 <= i < a
    ensures Step(m', bs[..a] + ns + bs[c..], brk, i)
  {
    var bs' := bs[..a] + ns + bs[c..];
    assert bs'[i] == bs[i];
    assert Step(m, bs, brk, i);
    Chain(m, bs, brk, i, a);
    assert Read(m', bs[i]) == Read(m, bs[i]);
    assert Read(m', bs[i] + Read(m, bs[i]).size - HeaderSize) == Read(m, bs[i] + Read(m, bs[i]).size - HeaderSize);
    if i + 1 < a {
      assert bs'[i + 1] == bs[i + 1];
    } else {
      assert bs'[i + 1] == ns[0];
    }
  }

  lemma RewriteStepAfter(m: Memory, bs: seq<int>, brk: int, m': Memory, a: int, c: int, ns: seq<int>, i: int)
    requires RewriteOk(m, bs, brk, m', a, c, ns)
    requires a + |ns| <= i < |bs[..a] + ns + bs[c..]|
    ensures Step(m', bs[..a] + ns + bs[c..], brk, i)
  {
    var bs' := bs[..a] + ns + bs[c..];
    var hi := EndOf(bs, c - 1, brk);
    var j := i - a - |ns| + c;
    assert bs'[i] == bs[j];
    assert c <= j < |bs|;
    assert Step(m, bs, brk, j);
    assert hi == bs[c];
    if j > c {
      Chain(m, bs, brk, c, j);
    }
    assert Read(m', bs[j]) == Read(m, bs[j]);
    assert Read(m', bs[j] + Read(m, bs[j]).size - HeaderSize) == Read(m, bs[j] + Read(m, bs[j]).size - HeaderSize);
    if i + 1 < |bs'| {
      assert bs'[i + 1] == bs[j + 1];
    }
  }

  /** The blocks left outside a rewritten window are exactly the old blocks outside its span. */
  lemma RewriteOutside(m: Memory, bs: seq<int>, brk: int, a: int, c: int)
    requires Layout(m, bs, brk)
    requires 1 <= a < c <= |bs|
    ensures forall x :: x in bs[..a] || x in bs[c..] <==> x in bs && (x < bs[a] || EndOf(bs, c - 1, brk) <= x)
  {
    var lo, hi := bs[a], EndOf(bs, c - 1, brk);
    assert hi == if c < |bs| then bs[c] else brk - HeaderSize;
    forall x | x in bs[..a] || x in bs[c..] ensures x in bs && (x < lo || hi <= x) {
      if x in bs[..a] {
        var k :| 0 <= k < a && bs[..a][k] == x;
        assert Step(m, bs, brk, k);
        Chain(m, bs, brk, k, a);
      } else {
        var k :| 0 <= k < |bs| - c && bs[c..][k] == x;
        assert bs[c + k] == x;
        if k > 0 {
          Chain(m, bs, brk, c, c + k);
          assert Step(m, bs, brk, c);
        }
      }
    }
    forall x | x in bs && (x < lo || hi <= x) ensures x in bs[..a] || x in bs[c..] {
      var k :| 0 <= k < |bs| && bs[k] == x;
      if a <= k < c {
        InsideWindow(m, bs, brk, a, c, k);
      }
      if k < a {
        assert bs[..a][k] == x;
      } else {
        assert bs[c..][k - c] == x;
      }
    }
  }

  /** A block of the window bs[a..c] starts inside the window's span. */
  lemma InsideWindow(m: Memory, bs: seq<int>, brk: int, a: int, c: int, k: int)
    requires Layout(m, bs, brk)
    requires 0 <= a <= k < c <= |bs|
    ensures bs[a] <= bs[k] < EndOf(bs, c - 1, brk)
  {
    if k > a {
      Chain(m, bs, brk, a, k);
    }
    Chain(m, bs, brk, k, c);
    assert Step(m, bs, brk, k);
  }

  /** After a rewrite, the free blocks are the old free blocks outside the span plus the free blocks of the new run. */
  lemma RewriteFree(m: Memory, bs: seq<int>, brk: int, m': Memory, a: int, c: int, ns: seq<int>)
    requires RewriteOk(m, bs, brk, m', a, c, ns)
    ensures forall x :: x in FreeBlocks(m', bs[..a] + ns + bs[c..]) <==>
      (x in FreeBlocks(m, bs) && (x < bs[a] || EndOf(bs, c - 1, brk) <= x)) || (x in ns && !Read(m', x).alloc)
    ensures forall x :: x in UsedBlocks(m, bs) && (x < bs[a] || EndOf(bs, c - 1, brk) <= x) ==>
      x in bs[..a] + ns + bs[c..] && Read(m', x) == Read(m, x)
  {
    Rewrite(m, bs, brk, m', a, c, ns);
  }

  /** After a rewrite, an allocated block is an old allocated block outside the span or an allocated block of the new run. */
  lemma RewriteUsed(m: Memory, bs: seq<int>, brk: int, m': Memory, a: int, c: int, ns: seq<int>)
    requires RewriteOk(m, bs, brk, m', a, c, ns)
    ensures forall x :: x in UsedBlocks(m', bs[..a] + ns + bs[c..]) ==>
      (x in UsedBlocks(m, bs) && (x < bs[a] || EndOf(bs, c - 1, brk) <= x)) || (x in ns && Read(m', x).alloc)
  {
    Rewrite(m, bs, brk, m', a, c, ns);
  }

  /**
    After a rewrite, no two neighbours are both free provided this held of
    the old neighbours outside the window, of the neighbours inside the new
    run, and across both ends of the run.
   */
  lemma RewriteNoAdjacent(m: Memory, bs: seq<int>, brk: int, m': Memory, a: int, c: int, ns: seq<int>)
    requires RewriteOk(m, bs, brk, m', a, c, ns)
    requires forall i :: 0 <= i < |bs| - 1 && (i + 1 < a || c <= i) ==> NotBothFree(m, bs, i)
    requires forall j :: 0 <= j < |ns| - 1 ==> NotBothFree(m', ns, j)
    requires Read(m', bs[a - 1]).alloc || Read(m', ns[0]).alloc
    requires c < |bs| ==> Read(m', ns[|ns| - 1]).alloc || Read(m', bs[c]).alloc
    ensures NoAdjacentFree(m', bs[..a] + ns + bs[c..])
  {
    Rewrite(m, bs, brk, m', a, c, ns);
    var bs' := bs[..a] + ns + bs[c..];
    forall i | 0 <= i < |bs'| - 1 ensures NotBothFree(m', bs', i) {
      if i + 1 < a {
        assert bs'[i] == bs[i] && bs'[i + 1] == bs[i + 1];
        assert bs[i] in bs[..a] && bs[i + 1] in bs[..a];
        assert NotBothFree(m, bs, i);
      } else if i + 1 == a {
        assert bs'[i] == bs[a - 1] && bs'[i + 1] == ns[0];
        assert bs[a - 1] in bs[..a];
      } else if i + 1 < a + |ns| {
        assert bs'[i] == ns[i - a] && bs'[i + 1] == ns[i - a + 1];
        assert NotBothFree(m', ns, i - a);
      } else if i + 1 == a + |ns| {
        assert bs'[i] == ns[|ns| - 1] && bs'[i + 1] == bs[c];
      } else {
        var j := i - a - |ns| + c;
        assert bs'[i] == bs[j] && bs'[i + 1] == bs[j + 1];
        assert bs[j] in bs[c..] && bs[j + 1] in bs[c..] by {
          assert bs[c..][j - c] == bs[j] && bs[c..][j + 1 - c] == bs[j + 1];
        }
        assert NotBothFree(m, bs, j);
      }
    }
  }

  /** A block of the layout lies outside the span of the window bs[a..c] exactly when it is not one of the window's blocks. */
  lemma WindowSpan(m: Memory, bs: seq<int>, brk: int, a: int, c: int)
    requires Layout(m, bs, brk)
    requires 1 <= a < c <= |bs|
    ensures forall x :: x in bs ==> ((x < bs[a] || EndOf(bs, c - 1, brk) <= x) <==> x !in bs[a..c])
  {
    RewriteOutside(m, bs, brk, a, c);
    forall x | x in bs ensures (x < bs[a] || EndOf(bs, c - 1, brk) <= x) <==> x !in bs[a..c] {
      if x in bs[a..c] {
        var j :| 0 <= j < c - a && bs[a..c][j] == x;
        InsideWindow(m, bs, brk, a, c, a + j);
      } else {
        var j :| 0 <= j < |bs| && bs[j] == x;
        if j < a {
          assert bs[..a][j] == x;
        } else {
          assert bs[c..][j - c] == x;
        }
      }
    }
  }
}
