/**
  The allocator's routines, one pure function per routine of the source.
  Each takes the heap state and returns the new one; pointers are byte
  offsets from the heap start. The host's answer to a heap-growth request
  (mem_sbrk) is the parameter `granted`, see `Grows`.
 */
module Allocator {
  import opened Options
  import opened Tags
  import opened FreeList
  import opened HeapModel

  /**
    The block size mm_malloc asks for: the request plus header and footer,
    rounded up to a multiple of 8, and at least the minimum block size.
   */
  function AdjustSize(size: nat): (asize: nat)
    requires size > 0
    ensures asize % 8 == 0
    ensures asize >= size + Overhead && asize >= MinBlockSize
    ensures asize == MinBlockSize || asize - 8 < size + Overhead
  {
    var s := size + Overhead;
    var rounded := (s + 7) / 8 * 8;
    if rounded < MinBlockSize then MinBlockSize else rounded
  }

  /**
    mem_sbrk: the host appends `bytes` at the end of the heap when it agrees
    to (`granted`) and the heap stays within 2^31 bytes, the most that a
    31-bit block size can describe; otherwise the request fails.
   */
  predicate Grows(h: Heap, bytes: int, granted: bool)
  {
    granted && h.brk + bytes <= SizeLimit
  }

  /** The number of bytes mm_malloc asks extend_heap for when nothing fits: the larger of `asize` and one chunk. */
  function ExtendBytes(asize: nat): (n: nat)
    requires asize % 8 == 0
    ensures n >= asize && n >= ChunkSize && (n == asize || n == ChunkSize)
    ensures n / 8 * 8 == n
  {
    if asize > ChunkSize then asize else ChunkSize
  }

  /**
    mm_init: asks the host for one chunk; on success lays out the prologue,
    the sentinel list head, one free block over the rest of the chunk and
    the epilogue, and makes the free block the only list member.
   */
  function Init(granted: bool): (r: Option<Heap>)
    ensures r.Some? <==> granted
    ensures r.Some? ==> r.value.brk == ChunkSize && r.value.free == [Sentinel + MinBlockSize]
  {
    if !granted then None
    else
      var m0: Memory := map[];
      var m1 := SetSize(SetAlloc(m0, 0, true), 0, HeaderSize);
      var m2 := SetSize(SetAlloc(m1, Sentinel, true), Sentinel, MinBlockSize);
      var sentinelFooter := FooterOf(m2, Sentinel);
      var m3 := SetSize(SetAlloc(m2, sentinelFooter, true), sentinelFooter, Read(m2, Sentinel).size);
      var first := Sentinel + MinBlockSize;
      var m4 := SetSize(SetAlloc(m3, first, false), first, ChunkSize - Overhead - MinBlockSize);
      var firstFooter := FooterOf(m4, first);
      var m5 := SetSize(SetAlloc(m4, firstFooter, false), firstFooter, Read(m4, first).size);
      var epilogue := first + Read(m5, first).size;
      var m6 := SetSize(SetAlloc(m5, epilogue, true), epilogue, 0);
      Some(Heap(m6, [first], ChunkSize))
  }

  /** A block that find_fit accepts: free and at least `asize` bytes. */
  predicate Fits(m: Memory, b: int, asize: nat)
  {
    !Read(m, b).alloc && asize <= Read(m, b).size
  }

  /** The index of the first block of `l` that fits, scanning in list order. */
  function FirstFit(m: Memory, l: seq<int>, asize: nat): (r: Option<nat>)
    ensures r.Some? ==> r.value < |l| && Fits(m, l[r.value], asize)
    ensures r.Some? ==> forall j :: 0 <= j < r.value ==> !Fits(m, l[j], asize)
    ensures r.None? ==> forall j :: 0 <= j < |l| ==> !Fits(m, l[j], asize)
    decreases |l|
  {
    if |l| == 0 then None
    else if Fits(m, l[0], asize) then Some(0)
    else
      match FirstFit(m, l[1..], asize)
      case None => None
      case Some(i) => Some(i + 1)
  }

  /**
    find_fit: first fit over the list as the source walks it, starting at
    the sentinel (which is allocated, so it never fits).
   */
  function FindFit(h: Heap, asize: nat): (r: Option<int>)
    ensures r.Some? ==> Fits(h.mem, r.value, asize) && r.value in [Sentinel] + h.free
    ensures r.None? ==> forall x :: x in h.free ==> !Fits(h.mem, x, asize)
    ensures Read(h.mem, Sentinel).alloc && r.Some? ==> r.value != Sentinel && r.value in h.free
  {
    var l := [Sentinel] + h.free;
    match FirstFit(h.mem, l, asize)
    case None =>
      assert forall x :: x in h.free ==> x in l;
      None
    case Some(i) => Some(l[i])
  }

  /**
    find_fit is first fit in list order: when the sentinel is allocated the
    result is a listed block that fits, and no block ahead of it on the free
    list fits.
   */
  lemma FindFitFirst(h: Heap, asize: nat)
    requires Read(h.mem, Sentinel).alloc && FindFit(h, asize).Some?
    ensures var b := FindFit(h, asize).value;
      && b in h.free && Fits(h.mem, b, asize)
      && forall j :: 0 <= j < IndexOf(h.free, b) ==> !Fits(h.mem, h.free[j], asize)
  {
    var l := [Sentinel] + h.free;
    var i := FirstFit(h.mem, l, asize).value;
    var b := FindFit(h, asize).value;
    assert i >= 1 && h.free[i - 1] == b;
    assert IndexOf(h.free, b) <= i - 1;
    forall j | 0 <= j < IndexOf(h.free, b) ensures !Fits(h.mem, h.free[j], asize) {
      assert l[j + 1] == h.free[j];
    }
  }

  /** Unsigned 64-bit (size_t) arithmetic is modulo 2^64. */
  const SizeTLimit: nat := 0x1_0000_0000_0000_0000

  /**
    place: allocates `asize` bytes at the start of the free block `b`,
    splitting off the rest as a new free block when the rest is at least
    the minimum block size, and otherwise allocating the whole block. The
    rest is a size_t difference, so a block smaller than `asize` gives a
    wrapped, huge rest and takes the splitting branch.
   */
  function Place(h: Heap, b: int, asize: nat): (h': Heap)
    ensures h'.brk == h.brk
    ensures asize + MinBlockSize <= Read(h.mem, b).size < SizeLimit ==>
      h'.free == Push(Remove(h.free, b), b + asize)
    ensures asize <= Read(h.mem, b).size < asize + MinBlockSize ==> h'.free == Remove(h.free, b)
  {
    var m := h.mem;
    var size := Read(m, b).size;
    var splitSize := if asize <= size then size - asize else size + SizeTLimit - asize;
    if splitSize >= MinBlockSize then
      var m1 := SetAlloc(SetSize(m, b, asize), b, true);
      var footer := FooterOf(m1, b);
      var m2 := SetAlloc(SetSize(m1, footer, asize), footer, true);
      var free1 := Remove(h.free, b);
      var rest := b + Read(m2, b).size;
      var m3 := SetAlloc(SetSize(m2, rest, splitSize), rest, false);
      var restFooter := FooterOf(m3, rest);
      var m4 := SetAlloc(SetSize(m3, restFooter, splitSize), restFooter, false);
      Heap(m4, Push(free1, rest), h.brk)
    else
      var m1 := SetAlloc(m, b, true);
      var footer := FooterOf(m1, b);
      Heap(SetAlloc(m1, footer, true), Remove(h.free, b), h.brk)
  }

  /** The address of the block before `b`, from the size in the footer just before `b`. */
  function PrevBlock(m: Memory, b: int): (p: int)
    ensures p + Read(m, b - HeaderSize).size == b
  {
    var prevFooter := b - HeaderSize;
    prevFooter - Read(m, prevFooter).size + HeaderSize
  }

  /**
    Gives the block at `b` the size `merged` in its header and in the footer
    that size implies. The header keeps the size as the 31-bit field does,
    modulo 2^31, and its allocated flag is kept.
   */
  function Resize(m: Memory, b: int, merged: nat): (m': Memory)
    ensures Read(m', b) == Tag(merged % SizeLimit, Read(m, b).alloc)
  {
    var m1 := SetSize(m, b, merged);
    SetSize(m1, FooterOf(m1, b), merged)
  }

  /** Case 2 of coalesce: the next block is free and is absorbed into `b`. */
  function MergeNext(h: Heap, b: int): (r: (Heap, int))
    ensures r.1 == b && r.0.brk == h.brk && |r.0.free| >= 1 && r.0.free[0] == b
    ensures Read(r.0.mem, b).size == (Read(h.mem, b).size + Read(h.mem, b + Read(h.mem, b).size).size) % SizeLimit
  {
    var next := b + Read(h.mem, b).size;
    var merged := Read(h.mem, b).size + Read(h.mem, next).size;
    (Heap(Resize(h.mem, b, merged), Push(Remove(h.free, next), b), h.brk), b)
  }

  /** Case 3 of coalesce: `b` is absorbed into the free block before it. */
  function MergePrev(h: Heap, b: int): (r: (Heap, int))
    ensures r.1 + Read(h.mem, b - HeaderSize).size == b && r.0.brk == h.brk && |r.0.free| >= 1 && r.0.free[0] == r.1
    ensures Read(r.0.mem, r.1).size == (Read(h.mem, r.1).size + Read(h.mem, b).size) % SizeLimit
  {
    var prev := PrevBlock(h.mem, b);
    var merged := Read(h.mem, prev).size + Read(h.mem, b).size;
    (Heap(Resize(h.mem, prev, merged), Push(Remove(h.free, prev), prev), h.brk), prev)
  }

  /** Case 4 of coalesce: `b` and the free block after it are absorbed into the free block before it. */
  function MergeBoth(h: Heap, b: int): (r: (Heap, int))
    ensures r.1 + Read(h.mem, b - HeaderSize).size == b && r.0.brk == h.brk && |r.0.free| >= 1 && r.0.free[0] == r.1
    ensures Read(r.0.mem, r.1).size == (Read(h.mem, r.1).size + Read(h.mem, b).size + Read(h.mem, b + Read(h.mem, b).size).size) % SizeLimit
  {
    var prev := PrevBlock(h.mem, b);
    var next := b + Read(h.mem, b).size;
    var merged := Read(h.mem, prev).size + Read(h.mem, b).size + Read(h.mem, next).size;
    (Heap(Resize(h.mem, prev, merged), Push(Remove(Remove(h.free, prev), next), prev), h.brk), prev)
  }

  /**
    coalesce: merges the freshly freed block `b` with whichever neighbours
    are free, according to the previous block's footer and the next block's
    header, and links the merged block into the free list. Returns the new
    heap and the merged block.
   */
  function Coalesce(h: Heap, b: int): (r: (Heap, int))
    ensures r.0.brk == h.brk
    ensures |r.0.free| >= 1 && r.0.free[0] == r.1
    ensures r.1 == if Read(h.mem, b - HeaderSize).alloc then b else PrevBlock(h.mem, b)
    ensures Read(h.mem, b - HeaderSize).alloc && Read(h.mem, b + Read(h.mem, b).size).alloc ==> Read(r.0.mem, r.1) == Read(h.mem, b)
  {
    var prevAlloc := Read(h.mem, b - HeaderSize).alloc;
    var nextAlloc := Read(h.mem, b + Read(h.mem, b).size).alloc;
    if prevAlloc && nextAlloc then (h.(free := Push(h.free, b)), b)
    else if prevAlloc then MergeNext(h, b)
    else if nextAlloc then MergePrev(h, b)
    else MergeBoth(h, b)
  }

  /**
    extend_heap: asks the host for `words` more 8-byte words. On success
    the old epilogue header becomes the header of a free block over the new
    bytes, a new epilogue follows it, and the block is coalesced with a free
    predecessor. Returns the new heap and the (possibly merged) free block.
   */
  function ExtendHeap(h: Heap, words: nat, granted: bool): (r: Option<(Heap, int)>)
    ensures r.None? <==> words == 0 || !Grows(h, words * 8, granted)
    ensures r.Some? ==> r.value.0.brk == h.brk + words * 8
    ensures r.Some? ==> r.value.1 == h.brk - HeaderSize || r.value.1 + Read(h.mem, h.brk - 2 * HeaderSize).size == h.brk - HeaderSize
    ensures r.Some? && words >= 2 && h.brk >= 2 * HeaderSize ==>
      r.value.1 == if Read(h.mem, h.brk - 2 * HeaderSize).alloc then h.brk - HeaderSize else PrevBlock(h.mem, h.brk - HeaderSize)
  {
    var size := words * 8;
    if size == 0 || !Grows(h, size, granted) then None
    else
      var b := h.brk - HeaderSize;
      var m' := FreshBlock(h.mem, b, size);
      FreshBlockBelow(h.mem, b, size);
      Some(Coalesce(Heap(m', h.free, h.brk + size), b))
  }

  /**
    extend_heap's tag writes: the old epilogue at `b` becomes the header of
    a free block of `size` bytes, its footer is written from the header,
    and a new epilogue follows the footer.
   */
  function FreshBlock(m: Memory, b: int, size: nat): (m': Memory)
    ensures 2 * HeaderSize <= size < SizeLimit ==>
      && Read(m', b) == Tag(size, false)
      && Read(m', b + size - HeaderSize) == Tag(size, false)
      && Read(m', b + size) == Tag(0, true)
      && forall x :: x != b && x != b + size - HeaderSize && x != b + size ==> Read(m', x) == Read(m, x)
  {
    var m1 := SetSize(SetAlloc(m, b, false), b, size);
    var footer := FooterOf(m1, b);
    var m2 := SetSize(SetAlloc(m1, footer, false), footer, Read(m1, b).size);
    var epilogue := footer + HeaderSize;
    SetSize(SetAlloc(m2, epilogue, true), epilogue, 0)
  }

  /**
    extend_heap's writes leave the word below the old epilogue alone, so the
    block before it is found as before, unless the size field wrapped to
    zero and the footer landed on that word.
   */
  lemma FreshBlockBelow(m: Memory, b: int, size: nat)
    requires size > 0
    ensures var m' := FreshBlock(m, b, size);
      && (Read(m', b - HeaderSize) == Read(m, b - HeaderSize) || PrevBlock(m', b) == b)
      && (2 * HeaderSize <= size < SizeLimit ==> PrevBlock(m', b) == PrevBlock(m, b))
  {
  }

  /**
    mm_malloc: returns the new heap and the payload offset, or None for a
    zero-size request or when the heap cannot grow. `size` is bounded so
    that the source's 32-bit size arithmetic does not wrap.
   */
  function Malloc(h: Heap, size: nat, granted: bool): (r: (Heap, Option<int>))
    requires size + Overhead + 7 < SizeLimit
    ensures size == 0 ==> r == (h, None)
    ensures r.1.None? <==> size == 0 || (FindFit(h, AdjustSize(size)).None? && !Grows(h, ExtendBytes(AdjustSize(size)), granted))
    ensures r.1.None? ==> r.0 == h
  {
    if size == 0 then (h, None)
    else
      var asize := AdjustSize(size);
      match FindFit(h, asize)
      case Some(b) => (Place(h, b, asize), Some(b + HeaderSize))
      case None =>
        var extendSize := ExtendBytes(asize);
        match ExtendHeap(h, extendSize / 8, granted)
        case None => (h, None)
        case Some((h1, b)) => (Place(h1, b, asize), Some(b + HeaderSize))
  }

  /** The first half of mm_free: the allocated flag is cleared in the block's header, then in its footer. */
  function Cleared(h: Heap, b: int): (h': Heap)
    ensures h'.free == h.free && h'.brk == h.brk
    ensures !Read(h'.mem, b).alloc && Read(h'.mem, b).size == Read(h.mem, b).size
    ensures Read(h'.mem, FooterOf(h.mem, b)) == Read(h.mem, FooterOf(h.mem, b)).(alloc := false)
    ensures forall x :: x != b && x != FooterOf(h.mem, b) ==> Read(h'.mem, x) == Read(h.mem, x)
  {
    var m1 := SetAlloc(h.mem, b, false);
    Heap(SetAlloc(m1, FooterOf(m1, b), false), h.free, h.brk)
  }

  /** mm_free: clears the allocated flag in the block's header and footer, then coalesces. */
  function Free(h: Heap, p: int): (h': Heap)
    ensures h'.brk == h.brk
    ensures |h'.free| >= 1 && (h'.free[0] == p - HeaderSize || h'.free[0] == PrevBlock(h.mem, p - HeaderSize))
  {
    var b := p - HeaderSize;
    Coalesce(Cleared(h, b), b).0
  }

  /** Outcome of mm_realloc: the process exits when the new allocation fails. */
  datatype ReallocResult = Exited | Moved(heap: Heap, ptr: int)

  /**
    mm_realloc at the level of block metadata: allocate the new block, then
    free the old one. The payload copy is not modelled.
   */
  function Realloc(h: Heap, p: int, size: nat, granted: bool): (r: ReallocResult)
    requires size + Overhead + 7 < SizeLimit
    ensures r.Exited? <==> size == 0 || (FindFit(h, AdjustSize(size)).None? && !Grows(h, ExtendBytes(AdjustSize(size)), granted))
    ensures r.Moved? ==> r.heap == Free(Malloc(h, size, granted).0, p)
    ensures r.Moved? && size > 0 && FindFit(h, AdjustSize(size)).Some? ==> r.ptr == FindFit(h, AdjustSize(size)).value + HeaderSize
  {
    var (h1, q) := Malloc(h, size, granted);
    if q.None? then Exited
    else Moved(Free(h1, p), q.value)
  }
}
