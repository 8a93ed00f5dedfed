# A verified model of the mm.c allocator

mm.c is a teaching `malloc` package. Each block has a header word and a footer word (boundary tags). Each tag holds a 31-bit `block_size` and an allocated bit. The heap starts with a prologue header `(8, a)` and ends with an epilogue header `(0, a)`. The free blocks sit on an explicit doubly linked list. That list hangs off a permanently allocated 32-byte sentinel block at offset 8. `find_fit` is a first-fit scan of that list. `place` splits a block when the rest is at least 32 bytes. `coalesce` merges a freed block with free neighbours using the boundary tags. Merged or split-off free blocks are pushed to the list front.

The model is pure Dafny functions over an abstract heap state `Heap(mem, free, brk)`:

- `mem` maps byte offsets (from the heap start) to the tag stored there. A word never written reads as zero, that is a free block of size 0.
- `free` is the free list in list order, without the sentinel.
- `brk` is the current heap size.

Pointers are byte offsets. A block pointer is its header's offset. A payload pointer is the block pointer plus 8.

The heap invariant `HeapModel.Inv(h, bs)` uses a proof-only sequence `bs`: the block starts, in address order, beginning with the sentinel. It says three things:

- `Layout`: the prologue and sentinel tags are right, and the blocks tile the heap exactly up to the epilogue. Every block is 8-aligned, at least 32 bytes and below 2^31 bytes, a multiple of 8, and has a footer equal to its header. The heap is at most 2^31 bytes.
- `ListOk`: the free list has no duplicates and holds exactly the free blocks.
- `NoAdjacentFree`: no two neighbouring blocks are both free.

Every routine is shown to keep `Inv`, and every allocated block keeps its place and its tag.

Files:

| file | contents |
|---|---|
| `options.dfy` | the `Option` type for NULL results and refused heap growth |
| `tags.dfy` | `Tag`, the tag memory, field writes, `get_footer`, the 32-bit word encoding |
| `freelist.dfy` | `add_2list` and `remove_from_list` on the list as a sequence |
| `heap.dfy` | constants, `Heap`, the invariant, and generic lemmas for rewriting a window of blocks |
| `allocator.dfy` | one function per routine: `AdjustSize`, `Init`, `FindFit`, `Place`, `Coalesce`, `ExtendHeap`, `Malloc`, `Free`, `Realloc` |
| `init_proof.dfy`, `place_proof.dfy`, `coalesce_proof.dfy`, `extend_proof.dfy`, `free_proof.dfy`, `malloc_proof.dfy` | one preservation proof per routine |
| `check.dfy` | `mm_checkheap` and `checkblock` as a predicate, and as a loop |

## Model

| member | source | states |
|---|---|---|
| Tags.SetSize | mm.c:45-49 | Writing the 31-bit `block_size` field stores the new size modulo 2^31 in that word and keeps its allocated bit. A size below 2^31 is stored unchanged. No other word changes. |
| Tags.SetAlloc | mm.c:45-49 | Writing the allocated bit stores the flag in that word and keeps its size. No other word changes. |
| Tags.FooterOf | mm.c:457-459 | `get_footer` points at a word after the header and inside the block, for every block of at least two words. |
| Tags.Encode | mm.c:5-12 | A tag packs into the low 32 bits of a word, with bit 0 set exactly when the block is allocated. |
| Tags.DecodeEncode | mm.c:45-49 | Decoding the packed word gives back the tag, for every 31-bit size. |
| Tags.EncodeDecode | mm.c:45-49 | Every 32-bit word is the packing of the tag it decodes to, so the format wastes no words. |
| HeapModel.FooterInBlock | mm.c:457-459 | In a valid heap, `get_footer` of a block is the word just below the next block, after the header, and it holds the header's tag. |
| HeapModel.Ordered | mm.c:12-23 | The blocks of a valid heap are disjoint and in address order, between the sentinel and the epilogue. |
| HeapModel.LayoutNoDup | mm.c:12-23 | A valid heap lists each block once. |
| FreeList.Push | mm.c:231-250 | `add_2list` makes the block the first member, directly after the sentinel, and the old list follows unchanged. |
| FreeList.PushFront | mm.c:231-250 | The members after a push are the block and the old members. Pushing a block not yet listed keeps the list free of duplicates. |
| FreeList.Remove | mm.c:252-270 | `remove_from_list` shortens the list by at most one member. |
| FreeList.RemoveKeepsOrder | mm.c:252-270 | `remove_from_list` cuts exactly the block's first occurrence out of the list. The members before and after it keep their order. |
| FreeList.RemoveNoDup | mm.c:252-270 | On a duplicate-free list, the block is gone afterwards and every other member stays. |
| FreeList.RemoveMultiset | mm.c:252-270 | Removal takes out one occurrence of the block and nothing else. |
| FreeList.RemoveLength | mm.c:252-270 | The list shrinks by one exactly when the block was a member. Otherwise the list is unchanged. |
| FreeList.RemoveTwoNoDup | mm.c:441-444 | Removing both neighbours from a duplicate-free list leaves exactly the other members, still without duplicates. |
| FreeList.RemovePush | mm.c:231-270 | Removing a block just pushed onto a list that did not hold it restores the list. |
| Allocator.AdjustSize | mm.c:156-167 | The adjusted size is a multiple of 8, at least the request plus 16, and at least 32. It is the least such value. |
| Allocator.ExtendBytes | mm.c:177-180 | `mm_malloc` asks for the larger of the adjusted size and 65536 bytes, a whole number of words. |
| Allocator.Init | mm.c:94-143 | `mm_init` fails exactly when the first heap request fails. On success the heap is one chunk and the list holds just the block at 40. |
| InitProof.InitLayout | mm.c:99-140 | The exact initial layout: prologue `(8, a)` at 0, sentinel `(32, a)` at 8 with footer at 32, free block `(65488, f)` at 40 with footer at 65520, epilogue `(0, a)` at 65528, list `[40]`, heap size 65536. |
| InitProof.InitEstablishesInv | mm.c:94-143 | The initial heap satisfies the invariant. |
| Allocator.FirstFit | mm.c:385-395 | The scan returns the first list position whose block is free and large enough. It returns none only if no listed block fits. |
| Allocator.FindFit | mm.c:379-396 | `find_fit` returns a fitting block from the sentinel-headed list, or NULL when no listed block fits. It never returns the allocated sentinel. |
| Allocator.FindFitFirst | mm.c:385-393 | First fit: no block ahead of the result on the free list fits. |
| Allocator.Place | mm.c:335-372 | `place` keeps the heap size. If the rest is at least 32 bytes, the block leaves the list and the remainder at `b + asize` heads it. Otherwise the block just leaves the list. |
| PlaceProof.PlaceSplitTags | mm.c:337-361 | A split writes `(asize, a)` to the front block's header and footer, and `(rest, f)` to the remainder's header and footer. The remainder replaces the block on the list front, and the words outside the block are untouched. |
| PlaceProof.PlaceWholeTags | mm.c:363-371 | Without a split, only the block's two allocated bits change, and the block leaves the list. |
| PlaceProof.PlacePreserves | mm.c:335-372 | `place` keeps the invariant. It splits exactly when the rest is at least 32 bytes, so no splinter is created. The list changes by the block out and the remainder in. Allocated blocks are kept, and the placed block is the only block that becomes allocated. |
| Allocator.Resize | mm.c:420-446 | The `+=` on `block_size` stores the merged size modulo 2^31 and keeps the allocated bit. |
| Allocator.MergeNext | mm.c:413-424 | Case 2 keeps the block's start and the heap size. The block heads the list and its header holds the two sizes' sum modulo 2^31. |
| Allocator.MergePrev | mm.c:426-436 | Case 3 returns the previous block, which heads the list. Its header holds the two sizes' sum modulo 2^31. |
| Allocator.MergeBoth | mm.c:438-451 | Case 4 returns the previous block, which heads the list. Its header holds the three sizes' sum modulo 2^31. |
| Allocator.Coalesce | mm.c:401-455 | `coalesce` keeps the heap size and returns the list's new head. That is the block itself when the previous footer says allocated, and the previous block otherwise. With both neighbours allocated the block keeps its tag. |
| CoalesceProof.Neighbours | mm.c:402-428 | In a valid heap, the word below a block is the previous block's footer and the word at `b + size` is the next block's header (lines 402-405). The address computed at line 428, `PrevBlock`, is exactly the previous block. |
| CoalesceProof.WrapBeyondLimit | mm.c:413-424 | Two free neighbours of 2^30 bytes each merge to a `block_size` of 0. In C the sum is an `int` overflow, which is undefined behaviour; the model stores it modulo 2^31, as a wrapping compiler does. The merged block then fails the block well-formedness check. The heap lies past the 2^31-byte bound, so no block sequence makes it a valid layout. |
| CoalesceProof.CoalescePreserves | mm.c:401-455 | On a heap whose only defect is the newly freed block, `coalesce` restores the invariant (case outcomes below). The allocated blocks are exactly those before, with their tags. |
| CoalesceProof.Case1 | mm.c:407-411 | Both neighbours allocated: the block is pushed to the list unchanged. |
| CoalesceProof.CoalesceCase2 | mm.c:413-424 | Next block free: it leaves the list, and the block's header and footer carry the sum of both sizes. |
| CoalesceProof.CoalesceCase3 | mm.c:426-436 | Previous block free: it leaves the list and absorbs the block. The result starts at the previous block. |
| CoalesceProof.ThreeSpan | mm.c:446 | Three neighbouring blocks of a valid heap are pairwise distinct, and their sizes add up to the span they cover, which stays below 2^31. |
| CoalesceProof.CoalesceCase4 | mm.c:438-451 | Both neighbours free: both leave the list and the three blocks merge at the previous block's start. |
| Allocator.Grows | mm.c:309 | `mem_sbrk` grants the request only when the host agrees and the heap stays within 2^31 bytes. |
| Allocator.FreshBlock | mm.c:314-324 | The old epilogue word becomes the header `(size, f)`. The footer `(size, f)` is the block's last word, and the new epilogue `(0, a)` follows it. No other word changes. |
| Allocator.ExtendHeap | mm.c:305-327 | `extend_heap` returns NULL exactly when the word count is 0 or `mem_sbrk` refuses. Otherwise the heap grows by exactly `words * 8`. For at least two words on a heap of at least two words, the result is the block at the old epilogue when the word below it (the last block's footer) says allocated. Otherwise it is the block that footer points back to. |
| ExtendProof.GrownTags | mm.c:314-325 | The old epilogue becomes the header `(words*8, f)`, with a matching footer and a new epilogue `(0, a)` right after it. Nothing below the old epilogue moves. |
| ExtendProof.ExtendPreserves | mm.c:305-327 | `extend_heap` keeps the invariant. Its block is free, listed, holds at least `words * 8` bytes, and reaches the new epilogue. It is the new block itself, or the free block that ended at the old epilogue grown by `words * 8`. Allocated blocks are kept, and no block becomes allocated. |
| Allocator.Malloc | mm.c:149-190 | A zero-size request returns NULL and changes nothing. NULL comes back exactly for size 0, or when no listed block fits and `mem_sbrk` refuses the extension. A NULL result leaves the heap unchanged. |
| MallocProof.MallocFit | mm.c:171-174 | When a listed block fits, `mm_malloc` places the request in the first one and returns its payload. |
| MallocProof.MallocGrow | mm.c:177-186 | When nothing fits and the host grants memory, `mm_malloc` is `extend_heap` by `max(asize, 65536)` bytes followed by `place` in the block it returns. |
| MallocProof.MallocPreserves | mm.c:149-190 | `mm_malloc` keeps the invariant and keeps every allocated block. It returns NULL exactly for size 0, or when nothing fits and the host refuses, and then nothing changes. A returned payload is 8-aligned. Its block was not an allocated block before, is allocated now, and holds between `asize` and `asize + 31` bytes. It is the only block that becomes allocated. The heap grows only when nothing fits. |
| Allocator.Cleared | mm.c:198-201 | Clearing the allocated bits leaves the block free with its size, and keeps the list and heap size. The word `get_footer` names loses its allocated bit and keeps its size. No other word changes. |
| Allocator.Free | mm.c:197-204 | `mm_free` keeps the heap size. The list is then headed by the freed block, or by the free block before it that absorbed it. |
| FreeProof.ClearedFreed | mm.c:197-201 | Clearing the allocated bits in the header and footer leaves a heap in which only the freed block breaks the invariant. The allocated blocks are the old ones without the freed block. |
| FreeProof.FreePreserves | mm.c:197-204 | `mm_free` keeps the invariant. The freed block is no longer allocated and lies inside a listed free block. The allocated blocks are exactly the old ones without it, with their tags kept. The list gains that free block and loses exactly the listed neighbours merged into it. |
| FreeProof.AbsorbedNeighbours | mm.c:402-405 | In a valid heap, a listed block sits at the address the freed block's predecessor footer points back to exactly when the previous block is free, and at `b + size` exactly when the next block is free. These are the blocks `coalesce` takes off the list. |
| Allocator.Realloc | mm.c:212-227 | `mm_realloc` exits exactly for size 0, or when no listed block fits and `mem_sbrk` refuses. Otherwise the result heap is the `mm_malloc` heap with the old block freed. When a listed block fits, the new payload is in the first fitting block. |
| MallocProof.ReallocPreserves | mm.c:212-227 | `mm_realloc` exits exactly for size 0, or when nothing fits and the host refuses. Otherwise it keeps the invariant. The new block is allocated with at least the adjusted size, the old block is freed, and every other allocated block is kept. The allocated blocks are exactly the old ones, less the old block, plus the new one. |
| Check.BlockChecked | mm.c:479-487 | `checkblock` as a boolean. Its own contract only records that a passing block is 8-aligned. What the check promises is in Check.WalkLayout, Check.InvPassesCheck and Check.CheckHeapLoop. |
| Check.Walk | mm.c:287-296 | The block walk as a boolean. Its own contract only records that a passing walk starts inside the heap. That it passes on every valid layout is Check.WalkLayout. |
| Check.CheckHeap | mm.c:276-297 | `mm_checkheap` as a boolean. Its own contract only records that a passing heap reaches past the sentinel's header. The loop form is Check.CheckHeapLoop, and every valid heap passing is Check.InvPassesCheck. |
| Check.CheckHeapLoop | mm.c:275-297 | The loop over the blocks computes the same verdict as the recursive definition of `mm_checkheap`. |
| Check.WalkLayout | mm.c:286-290 | From any block of a valid heap, the walk passes `checkblock` at every block and stops at the epilogue. |
| Check.InvPassesCheck | mm.c:275-297 | Every heap satisfying the invariant passes `mm_checkheap`. |
| Check.CheckMissesFooterFlag | mm.c:479-487 | The check is strictly weaker than the invariant. A heap whose sentinel footer says free passes it. |
| Check.InitPassesCheck | mm.c:94-143 | The heap built by `mm_init` passes `mm_checkheap`. |
| Check.MallocPassesCheck | mm.c:149-190 | After `mm_malloc` on a valid heap, `mm_checkheap` passes, whatever the host answers. |
| Check.FreePassesCheck | mm.c:197-204 | After `mm_free` of an allocated block on a valid heap, `mm_checkheap` passes. |

## Left out

- Payload bytes and `memcpy` in `mm_realloc`: only tags are modelled, so the copy of `min(size, old size)` bytes is not represented.
- `mem_sbrk` is an oracle. The parameter `granted` says whether the host extends the heap at its end by exactly the requested bytes. The model also has the host refuse any growth that would take the heap past 2^31 bytes (`Allocator.Grows`). Only under that bound can a valid heap's merged size not wrap the 31-bit `block_size`. The heap is assumed to start at an 8-aligned address, so offsets and addresses agree modulo 8.
- `exit(1)` in `mm_realloc` is the result `Exited`. The error message (`printf`) is not modelled.
- The list links stored in free block bodies (`next`/`prev`) are represented by the list sequence. The link-update code of `add_2list` and `remove_from_list` is not modelled pointer by pointer.
- FreeList.Remove: removing a block that is not on the list is undefined behaviour in the source. The model leaves the list unchanged instead.
- `mm_checkheap`'s `verbose` output, `printblock` and the error messages: the check is a boolean that is true exactly when no error message would be printed. A walk that leaves the heap counts as failure, where the source would read outside the heap.
- `team`: identification data only.
- Allocator.Malloc: `size` is a 64-bit `size_t`, so `size + 16` and `size + 7` do not wrap in practice. The rounded result is stored in the 32-bit `asize`, which truncates modulo 2^32, and `extendsize` is 32-bit too. The model requires `size + 23 < 2^31`, so that no truncation happens and every adjusted size fits the 31-bit `block_size` field. Larger requests are not modelled.
- Allocator.ExtendHeap: `words << 3` is not truncated to 32 bits, because callers only pass sizes below 2^31. The promise that the returned block holds at least `words * 8` bytes is made only for valid heaps, in ExtendProof.ExtendPreserves. Which of the two possible blocks is returned is stated exactly only for at least two words and a heap end of at least 16. For a single word, or a heap end below 16, only the disjunction is stated.
- Allocator.Coalesce: on an arbitrary heap the merged size wraps modulo 2^31, so no lower bound on the result's size is promised. CoalesceProof.WrapBeyondLimit shows the wrap. On valid heaps CoalesceProof.CoalescePreserves gives the exact merged sizes.
- FreeList.Remove: the exact length (one less exactly when the block was listed) is stated in FreeList.RemoveLength, not on the function.
- FreeProof.FreePreserves and MallocProof.ReallocPreserves require the pointer to be the payload of an allocated block other than the sentinel. Freeing anything else is undefined behaviour in the source.
- The header comment of mm.c describes an implicit free list. The code keeps an explicit list, and the model follows the code.
