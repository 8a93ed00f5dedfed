/** mm_malloc and mm_realloc keep the heap invariant and hand out fresh, large-enough blocks. */
module MallocProof {
  import opened Options
  import opened Tags
  import opened FreeList
  import opened HeapModel
  import opened Allocator
  import opened PlaceProof
  import opened ExtendProof
  import opened FreeProof

  /** What a successful allocation of `asize` bytes at block `b` guarantees. */
  ghost predicate Granted(h: Heap, bs: seq<int>, h': Heap, bs': seq<int>, b: int, asize: nat)
  {
    && Inv(h', bs')
    && KeepsUsed(h.mem, bs, h'.mem, bs')
    && b % 8 == 0
    && b in UsedBlocks(h'.mem, bs')
    && b !in UsedBlocks(h.mem, bs)
    && UsedBlocks(h'.mem, bs') == UsedBlocks(h.mem, bs) + {b}
    && asize <= Read(h'.mem, b).size < asize + MinBlockSize
  }

  /** Placing into a block on the free list of a valid heap. */
  lemma PlaceGrants(h: Heap, bs: seq<int>, b: int, asize: nat) returns (bs': seq<int>)
    requires Inv(h, bs)
    requires b in h.free
    requires asize % 8 == 0 && MinBlockSize <= asize <= Read(h.mem, b).size
    ensures Granted(h, bs, Place(h, b, asize), bs', b, asize)
  {
    bs' := PlacePreserves(h, bs, b, asize);
    var k := FreeMemberIndex(h, bs, b);
    assert Step(h.mem, bs, h.brk, k);
    assert b in UsedBlocks(Place(h, b, asize).mem, bs');
  }

  /** The first case of mm_malloc: a listed free block fits and is placed. */
  lemma MallocFit(h: Heap, bs: seq<int>, size: nat, granted: bool) returns (bs': seq<int>, b: int)
    requires Inv(h, bs)
    requires 0 < size && size + Overhead + 7 < SizeLimit
    requires FindFit(h, AdjustSize(size)).Some?
    ensures b in h.free && FindFit(h, AdjustSize(size)) == Some(b)
    ensures Malloc(h, size, granted) == (Place(h, b, AdjustSize(size)), Some(b + HeaderSize))
    ensures Granted(h, bs, Place(h, b, AdjustSize(size)), bs', b, AdjustSize(size))
  {
    var asize := AdjustSize(size);
    b := FindFit(h, asize).value;
    assert Read(h.mem, Sentinel).alloc;
    bs' := PlaceGrants(h, bs, b, asize);
  }

  /** The second case of mm_malloc: nothing fits, the heap grows by max(asize, ChunkSize), and the request is placed there. */
  lemma MallocGrow(h: Heap, bs: seq<int>, size: nat) returns (bs': seq<int>, h1: Heap, h': Heap, b: int)
    requires Inv(h, bs)
    requires 0 < size && size + Overhead + 7 < SizeLimit
    requires FindFit(h, AdjustSize(size)).None?
    requires Grows(h, ExtendBytes(AdjustSize(size)), true)
    ensures ExtendHeap(h, ExtendBytes(AdjustSize(size)) / 8, true) == Some((h1, b)) && h' == Place(h1, b, AdjustSize(size))
    ensures Malloc(h, size, true) == (h', Some(b + HeaderSize))
    ensures h'.brk == h.brk + (if AdjustSize(size) > ChunkSize then AdjustSize(size) else ChunkSize)
    ensures Granted(h, bs, h', bs', b, AdjustSize(size))
  {
    var asize := AdjustSize(size);
    var extendSize := ExtendBytes(asize);
    var bs1;
    bs1, h1, b := ExtendPreserves(h, bs, extendSize / 8);
    assert b !in UsedBlocks(h.mem, bs) by {
      BelowEpilogue(h, bs);
    }
    bs' := PlaceGrants(h1, bs1, b, asize);
    h' := Place(h1, b, asize);
    KeepsUsedTrans(h.mem, bs, h1.mem, bs1, h'.mem, bs');
    MallocGrowResult(h, size, h1, b);
  }

  /** When nothing fits and extend_heap returns block `b`, mm_malloc places the request there. */
  lemma MallocGrowResult(h: Heap, size: nat, h1: Heap, b: int)
    requires 0 < size && size + Overhead + 7 < SizeLimit
    requires FindFit(h, AdjustSize(size)).None?
    requires ExtendHeap(h, ExtendBytes(AdjustSize(size)) / 8, true) == Some((h1, b))
    requires AdjustSize(size) <= Read(h1.mem, b).size
    ensures Malloc(h, size, true) == (Place(h1, b, AdjustSize(size)), Some(b + HeaderSize))
  {
  }

  /** An aligned block has an aligned payload. */
  lemma PayloadAligned(b: int)
    requires b % 8 == 0
    ensures (b + HeaderSize) % 8 == 0
  {
  }

  /**
    Everything mm_malloc promises on a valid heap, for one outcome
    (h', p) and a block sequence bs' of the new heap.
   */
  ghost predicate MallocSpec(h: Heap, bs: seq<int>, size: nat, granted: bool, bs': seq<int>, h': Heap, p: Option<int>)
    requires size + Overhead + 7 < SizeLimit
  {
    && Malloc(h, size, granted) == (h', p)
    && Inv(h', bs')
    && KeepsUsed(h.mem, bs, h'.mem, bs')
    && (p.None? <==> size == 0 || (FindFit(h, AdjustSize(size)).None? && !Grows(h, ExtendBytes(AdjustSize(size)), granted)))
    && (p.None? ==> h' == h)
    && (p.Some? ==> size > 0 && p.value % 8 == 0 && Granted(h, bs, h', bs', p.value - HeaderSize, AdjustSize(size)))
    && (h'.brk != h.brk ==>
      && size > 0 && FindFit(h, AdjustSize(size)).None?
      && h'.brk == h.brk + (if AdjustSize(size) > ChunkSize then AdjustSize(size) else ChunkSize))
  }

  /** mm_malloc when a listed block fits. */
  lemma MallocFitSpec(h: Heap, bs: seq<int>, size: nat, granted: bool) returns (bs': seq<int>, h': Heap, p: Option<int>)
    requires Inv(h, bs)
    requires 0 < size && size + Overhead + 7 < SizeLimit
    requires FindFit(h, AdjustSize(size)).Some?
    ensures MallocSpec(h, bs, size, granted, bs', h', p)
  {
    var b;
    bs', b := MallocFit(h, bs, size, granted);
    h', p := Place(h, b, AdjustSize(size)), Some(b + HeaderSize);
    PayloadAligned(b);
    assert p.value - HeaderSize == b;
  }

  /** mm_malloc when nothing fits and the host grants more memory. */
  lemma MallocGrowSpec(h: Heap, bs: seq<int>, size: nat) returns (bs': seq<int>, h': Heap, p: Option<int>)
    requires Inv(h, bs)
    requires 0 < size && size + Overhead + 7 < SizeLimit
    requires FindFit(h, AdjustSize(size)).None?
    requires Grows(h, ExtendBytes(AdjustSize(size)), true)
    ensures MallocSpec(h, bs, size, true, bs', h', p)
  {
    var h1, b;
    bs', h1, h', b := MallocGrow(h, bs, size);
    p := Some(b + HeaderSize);
    PayloadAligned(b);
    assert p.value - HeaderSize == b;
  }

  /** mm_malloc returning NULL: a zero-size request, or nothing fits and the host refuses. */
  lemma MallocNullSpec(h: Heap, bs: seq<int>, size: nat, granted: bool)
    requires Inv(h, bs)
    requires size + Overhead + 7 < SizeLimit
    requires size == 0 || (FindFit(h, AdjustSize(size)).None? && !Grows(h, ExtendBytes(AdjustSize(size)), granted))
    ensures MallocSpec(h, bs, size, granted, bs, h, None)
  {
  }

  /**
    mm_malloc keeps the heap invariant. A zero-size request returns NULL and
    changes nothing; otherwise the result is NULL exactly when no listed
    block fits and the host refuses to grow the heap, and then nothing
    changes either. A returned payload is 8-byte aligned; its block was not
    allocated before, is allocated now, holds at least the adjusted size
    and leaves less than a minimum block unused. The heap grows only when
    no listed block fits, and then by the larger of the adjusted size and
    one chunk. Every block allocated before keeps its place and tag.
   */
  lemma MallocPreserves(h: Heap, bs: seq<int>, size: nat, granted: bool) returns (bs': seq<int>, h': Heap, p: Option<int>)
    requires Inv(h, bs)
    requires size + Overhead + 7 < SizeLimit
    ensures MallocSpec(h, bs, size, granted, bs', h', p)
  {
    if size == 0 || (FindFit(h, AdjustSize(size)).None? && !Grows(h, ExtendBytes(AdjustSize(size)), granted)) {
      bs', h', p := bs, h, None;
      MallocNullSpec(h, bs, size, granted);
    } else if FindFit(h, AdjustSize(size)).Some? {
      bs', h', p := MallocFitSpec(h, bs, size, granted);
    } else {
      bs', h', p := MallocGrowSpec(h, bs, size);
    }
  }

  /**
    Everything mm_realloc promises for the payload `p` of an allocated
    block: it exits exactly when the allocation fails. Otherwise the heap
    is valid for bs', the new block is allocated and holds at least the
    adjusted size, the old block is no longer allocated, and every other
    block allocated before keeps its place and tag.
   */
  ghost predicate ReallocSpec(h: Heap, bs: seq<int>, p: int, size: nat, granted: bool, bs': seq<int>, r: ReallocResult)
    requires size + Overhead + 7 < SizeLimit
  {
    && r == Realloc(h, p, size, granted)
    && (r.Exited? <==> size == 0 || (FindFit(h, AdjustSize(size)).None? && !Grows(h, ExtendBytes(AdjustSize(size)), granted)))
    && (r.Moved? ==> size > 0 && MovedOk(h, bs, p, AdjustSize(size), bs', r.heap, r.ptr))
  }

  /** After a move: a valid heap in which the new block is allocated and large enough, the old one is released, and every other allocated block is untouched. */
  ghost predicate MovedOk(h: Heap, bs: seq<int>, p: int, asize: nat, bs': seq<int>, h': Heap, q: int)
  {
    && Inv(h', bs')
    && q - HeaderSize in UsedBlocks(h'.mem, bs')
    && Read(h'.mem, q - HeaderSize).size >= asize
    && p - HeaderSize !in UsedBlocks(h'.mem, bs')
    && UsedBlocks(h'.mem, bs') == UsedBlocks(h.mem, bs) - {p - HeaderSize} + {q - HeaderSize}
    && forall x :: x in UsedBlocks(h.mem, bs) && x != p - HeaderSize ==> x in bs' && Read(h'.mem, x) == Read(h.mem, x)
  }

  /** mm_realloc on an allocated block other than the sentinel keeps the heap invariant. */
  lemma ReallocPreserves(h: Heap, bs: seq<int>, p: int, size: nat, granted: bool) returns (bs': seq<int>, r: ReallocResult)
    requires Inv(h, bs)
    requires p - HeaderSize in UsedBlocks(h.mem, bs) && p - HeaderSize != Sentinel
    requires size + Overhead + 7 < SizeLimit
    ensures ReallocSpec(h, bs, p, size, granted, bs', r)
  {
    var bs1, h1, q := MallocPreserves(h, bs, size, granted);
    r := Realloc(h, p, size, granted);
    if q.None? {
      bs' := bs;
      ReallocExits(h, bs, p, size, granted);
    } else {
      ReallocResultOf(h, p, size, granted, h1, q);
      bs' := FreeAfterGrant(h, bs, h1, bs1, q.value - HeaderSize, AdjustSize(size), p);
    }
  }

  /** mm_realloc exits when its allocation fails. */
  lemma ReallocExits(h: Heap, bs: seq<int>, p: int, size: nat, granted: bool)
    requires size + Overhead + 7 < SizeLimit
    requires Malloc(h, size, granted).1.None?
    ensures ReallocSpec(h, bs, p, size, granted, bs, Realloc(h, p, size, granted))
  {
  }

  /** When mm_malloc returns (h1, q) with q not NULL, mm_realloc frees the old block in h1 and returns q. */
  lemma ReallocResultOf(h: Heap, p: int, size: nat, granted: bool, h1: Heap, q: Option<int>)
    requires size + Overhead + 7 < SizeLimit
    requires Malloc(h, size, granted) == (h1, q) && q.Some?
    ensures Realloc(h, p, size, granted) == Moved(Free(h1, p), q.value)
  {
  }

  /** Freeing an old block after a grant keeps the granted block and every other allocated block. */
  lemma FreeAfterGrant(h: Heap, bs: seq<int>, h1: Heap, bs1: seq<int>, b: int, asize: nat, p: int) returns (bs': seq<int>)
    requires Granted(h, bs, h1, bs1, b, asize)
    requires p - HeaderSize in UsedBlocks(h.mem, bs) && p - HeaderSize != Sentinel
    ensures MovedOk(h, bs, p, asize, bs', Free(h1, p), b + HeaderSize)
  {
    assert p - HeaderSize in UsedBlocks(h1.mem, bs1) && p - HeaderSize != b;
    var f;
    bs', f := FreePreserves(h1, bs1, p);
    assert Read(Free(h1, p).mem, b) == Read(h1.mem, b) && b in bs';
    forall x | x in UsedBlocks(h.mem, bs) && x != p - HeaderSize
      ensures x in bs' && Read(Free(h1, p).mem, x) == Read(h.mem, x)
    {
      assert x in UsedBlocks(h1.mem, bs1);
    }
  }
}
