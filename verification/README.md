# A model of the sample-tsk-sw kernel and its configuration tool

This project models the parts of the kernel and of its build tools in which the hard promises lie, and
proves those promises for all inputs, all runs and all interleavings of the model.

- **The kernel allocator** (`common/malloc.c` over `common/heap.c`, in the configuration of
  `include/kern/malloc-params.h`: 64-bit, one segment from sbrk, no mmap, no footers).
  `DlBits`, `DlBitmap`: size classes and bit tricks. `DlTrie`, `DlSearch`: bitwise tries and the best-fit
  searches. `DlLinks`, `DlSmallLinks`: the links of tree chunks and of small bins in memory, which refine the
  tries and lists; `DlTreeBins`: all tree bins over one memory. `DlBins`: small bins, tree bins and their 32-bit maps. `DlTags`, `DlChunks`: boundary tags,
  as values. `DlArena`: malloc, free, realloc, memalign and the system allocator on chunks. `DlAlign`: the
  loop that raises an alignment. `DlHeap`: the calls as callers see them, and whole runs of calls.
- **The Kconfig expression rewriter** (`tools/kconfig/expr.c`): `KconfigExpr`, `KconfigEq`, `KconfigEqExact`,
  `KconfigTransform`, `KconfigFactor`, `KconfigOperands`, `KconfigDups`, `KconfigDupsExact`, `KconfigClash`,
  `KconfigPrint`.
  Expressions have three values, no, mod and yes. `Legal` valuations give a boolean symbol no or yes only,
  give a boolean or tristate symbol the string of its letter, and give different quoted symbols different
  strings; `LegalStatesExist` shows that there are such valuations.
- **Threads** (`kern/`): `KernList` (linked lists), `KernReady` (ready queue and priority bitmap), `KernRings`
  (the same queue as list heads and links),
  `KernPlaces` and `KernThreads` (wait queues, mutexes, scheduler, creation, exit, reaper), `KernLock` (the
  counter of a mutex by itself), `KernTimer` (callouts). One CPU; a method is what runs with interrupts off up to the next switch, and a thread that
  was switched away in the middle of a call goes on where its `pc` says.
- **Page tables** (`hal/aarch64/kmap.c`, `hal/x64/kmap.c`): `KernPages`.
- **Storage**: `FsCache` (buffer cache and memory disk), `FsFiles` (block map, inodes and the bytes of files, as
  values), `FsInode` (block allocation and file input and output), `FsRuns` (runs that show what the code does
  not keep), `FsLayout` (the image that mkfs lays out).

`Lists` and `Options` hold what several of these share.

## How the parts fit together

The boundary tags of a heap are two maps, from chunk starts to head words and to foot words. `Tagged` is the
invariant that the allocator's own debug checks state: chunks tile the segment, neighbouring tags agree, and no
two free chunks touch. Each way the allocator changes tags is a function on these maps with a lemma that it
keeps `Tagged`, and an effect on the sets of free and used chunks. `Arena.Core` adds the bins, the designated
victim and the break of the kernel heap; every method of `Arena` keeps it. `Heap.Valid` adds the record of who
holds which block, and `DlHeap.Run` runs any list of calls.

In the kernel model `Placed` says that every queue lists exactly the threads at its place, each once, so that a
thread is in one place by construction of the map `at`; `Kernel.Inv` adds statuses, mutexes and the reaper, and
`KernThreads.Run` runs any list of operations and interrupts.

In the storage model the cache comes down to two things: the current content of each block, and the set of
blocks whose buffers are dirty. What becomes of a read or a write (`Fate`) is a function of these, of the list of
free blocks and of the places of the file; the methods are proved to come to exactly that. `WriteGoes` and
`ReadGoes` say in closed form when a call within the direct blocks goes through.

Some things in the code are different from what they look like, and the model follows the code.

- The field `owner` of a mutex is not always its holder: `mutex_release` clears it after its wakeup may have
  switched to the next holder. The model keeps a `holder` of its own; what is true of `owner` is part of the
  invariant (`AllOwnersOk`), and `OwnerLost` is a run that ends with a mutex that is held and has no owner.
- `mutex_release` counts down whoever calls it. `StrayRelease` says that a release by a thread that does not hold
  the mutex breaks the part of the invariant on mutexes and no other, `TwoHolders` is a run after which two
  threads have the mutex, and `HoldersBound` and `HoldersReach` give the exact number of holders. The buffer
  cache makes such releases: after a wait, `buffer_cache_blk_get` releases its mutex (dev/blkio.c:48), goes on in
  the inner loop and releases it again (dev/blkio.c:42, 65 or 70).
- `find_free_data_block` clears a new block in its buffer only. The block is cleared exactly when its buffer is
  dirty (`Clear`, `FindFree`); otherwise the next read fetches the old bytes from the disk again. With a new cache
  that is so for every block (`NewBlockKeepsBytes`, and `SevensStay` at an input). Within the direct blocks file
  contents do not depend on it.
- Behind the direct blocks `bmap` stores a new index block under the place of a direct block, and the words of
  the index block in its buffer only. So a write has all its bytes in the file exactly when it does not go on
  behind the direct blocks (`Write`), a read changes nothing exactly then (`Read`), and each such call replaces
  direct blocks of the file by blocks that were free. `ByteLost` is a run in which a byte is written there and
  read back as zero. Where the free block that becomes the index block has old bytes, the call takes a block
  number from them (`Astray`).
- `release_data_block` clears the bit at the absolute number of the block, while the map counts from the first data
  block. The files stay sound exactly when none has the block whose bit that is (`ReleaseBlock`);
  `WrongBlockFreed` is a run in which one has.
- Nothing ever clears the dirty mark of a buffer, so that a written buffer is lost to all other blocks
  (`FsCache.Run`); and a wait for a busy buffer resumes in the middle of the search, after which a block can have
  two buffers (`ReleaseThenResume` says exactly when, and `TwoBuffers` is a run).
- Printed text names symbols only, so that it tells expressions apart exactly when no two symbols have the same
  name (`TextsTell`).
- The second pass of `expr_eliminate_dups` loses `mod`; `KconfigDupsExact` says exactly when.
- The loop that raises an alignment to a power of two does not end for alignments above 2^63 (`LoopEnds`).

## Model

| member | source | states |
|---|---|---|
| `DlBits.HighBitIsHighest` | common/malloc.c:2878-2894 | the portable shift-and-subtract trick of compute_tree_index, wrap-around included, finds the highest set bit of every 16-bit value |
| `DlBits.TreeIndexSound` | common/malloc.c:2878-2910 | every 64-bit size from 256 on gets a bin whose open bits, prefix and smallest size fit it, and is smaller than the smallest size of the next bin |
| `DlBits.TreeIndexOrders` | common/malloc.c:2878-2894 | sizes in a lower bin are smaller than sizes in a higher one |
| `DlBitmap.LeastBitIsLowest` | common/malloc.c:2927-2980 | least_bit with the portable compute_bit2idx gives the lowest marked bin of every non-empty 32-bit map |
| `DlBitmap.LeftBitsAreAbove` | common/malloc.c:2930-2931 | left_bits of one bin's bit selects exactly the marked bins above it, in every map |
| `DlBitmap.MarkSetsOne` | common/malloc.c:2915-2922 | marking a bin changes that bin's bit only |
| `DlBitmap.ClearRemovesOne` | common/malloc.c:2919-2923 | clearing a bin changes that bin's bit only |
| `DlBitmap.ShiftedPair` | common/malloc.c:4577-4581 | the shifted map tells of a bin and its successor, and the sum with the inverted low bit picks the one of them that is marked |
| `DlBitmap.ShiftedAbove` | common/malloc.c:4597 | shifting the map down and up again before left_bits still selects exactly the marked bins above |
| `DlBitmap.LowestIs` | common/malloc.c:2927-2980 | the same as a bin number: the computed bin is marked and no lower bin is |
| `DlTrie.InsertOk` | common/malloc.c:3645-3694 | insert_large_chunk keeps every size on the path of its bits, sizes unique and rings free of repetition, and adds exactly the one chunk; DlLinks ties the tries to links |
| `DlTrie.RemoveOk` | common/malloc.c:3713-3782 | unlink_large_chunk, with its leaf replacement, keeps the trie invariant and removes exactly the one chunk |
| `DlTrie.OkOrder` | common/malloc.c:2355-2384 | in a trie that keeps the invariant all sizes of a left subtree are below all sizes of the right one |
| `DlTrie.OkHeight` | common/malloc.c:2386-2390 | a path has at most one node more than there are undetermined size bits |
| `DlLinks.OneParent` | common/malloc.c:3298-3347 | of the chunks of one size exactly one has a parent, and the parent of a child is its node |
| `DlLinks.TiedApart` | common/malloc.c:3298-3347 | no chunk is at two places of a tree |
| `DlLinks.JoinRingOk` | common/malloc.c:3679-3684 | the stores for a chunk of a size that is there make the ring of RingInsert, linked both ways |
| `DlLinks.InsertTied` | common/malloc.c:3645-3694 | for every tree the stores of insert_large_chunk turn its records into those of the tree with the chunk inserted, and change no other record |
| `DlLinks.HeadLeaves` | common/malloc.c:3716-3722 | the stores that take the linked chunk out of its ring leave the ring of RingRemove |
| `DlLinks.MemberLeaves` | common/malloc.c:3716-3722 | the same for a chunk that is not linked into the tree |
| `DlLinks.PopTied` | common/malloc.c:3731-3738 | clearing one child pointer detaches the leaf that PopLeaf detaches |
| `DlLinks.AdoptTied` | common/malloc.c:3756-3776 | the replacement takes over parent and children of the chunk it replaces |
| `DlLinks.UnlinkHere` | common/malloc.c:3713-3782 | for chained chunks, leaves and inner nodes alike the stores of unlink_large_chunk refine RemoveHere |
| `DlLinks.RemoveTied` | common/malloc.c:3713-3782 | for every tree they turn its records into those of the tree without the chunk |
| `DlLinks.TreeBin.FindPlace` | common/malloc.c:3661-3677 | the descent ends at the node of the size or above the free place |
| `DlTreeBins.BinsApart` | common/malloc.c:2355-2392 | no chunk is in two tree bins, as its record tells its size and the size its bin |
| `DlTreeBins.OtherTied` | common/malloc.c:3645-3782 | stores to the chunks of one bin, and to chunks of none, keep the links of every other bin |
| `DlTreeBins.TreeBins.constructor` | common/malloc.c:3908-3915 | all tree bins empty |
| `DlTreeBins.TreeBins.Insert` | common/malloc.c:3645-3694 | over the one memory of all bins: the bin of the size has exactly the one chunk more, and all others keep their trees and links |
| `DlTreeBins.TreeBins.Unlink` | common/malloc.c:3713-3782 | the bin of the size has exactly the one chunk less, and all others keep their trees and links |
| `DlLinks.TreeBin.Insert` | common/malloc.c:3645-3694 | the whole macro on memory: the tree is the one with the chunk inserted, and other records are untouched |
| `DlLinks.TreeBin.FindLeaf` | common/malloc.c:3727-3735 | the search down the right-hand children finds the leaf that PopLeaf detaches and the pointer to it |
| `DlLinks.TreeBin.Unlink` | common/malloc.c:3713-3782 | the whole macro on memory: the tree is the one without the chunk, and other records are untouched |
| `DlSmallLinks.SmallBin.Insert` | common/malloc.c:3567-3583 | the links list the new chunk first, also when the header of the empty bin held stale links |
| `DlSmallLinks.SmallBin.Unlink` | common/malloc.c:3586-3609 | exactly the one chunk leaves the circle, and the bin is unmarked exactly when it was the last |
| `DlSmallLinks.SmallBin.UnlinkFirst` | common/malloc.c:3612-3627 | the same for the first chunk, which is the one behind the header |
| `DlSearch.DescendTo` | common/malloc.c:4439-4460 | the bitwise descent of tmalloc_large leaves the best fit seen and one subtree such that nothing outside both is a better fit |
| `DlSearch.LeastInSubtree` | common/malloc.c:4471-4478 | the walk along leftmost children finds the least size of a whole subtree |
| `DlBins.Bins.constructor` | common/malloc.c:3908-3915 | new bins are consistent and hold nothing |
| `DlBins.Bins.InsertSmall` | common/malloc.c:3567-3583 | adds exactly one chunk to its small bin, and the 32-bit map marks exactly the non-empty bins |
| `DlBins.Bins.UnlinkSmall` | common/malloc.c:3586-3609 | removes exactly one chunk from its small bin and clears the mark of a bin that becomes empty |
| `DlBins.Bins.InsertLarge` | common/malloc.c:3645-3694 | the same for the tree bins |
| `DlBins.Bins.UnlinkLarge` | common/malloc.c:3713-3782 | the same for the tree bins |
| `DlBins.Bins.InsertChunk` | common/malloc.c:3786-3788 | adds exactly one chunk, whatever its size |
| `DlBins.Bins.UnlinkChunk` | common/malloc.c:3790-3792 | removes exactly one chunk, whatever its size |
| `DlBins.Bins.NextTreeBin` | common/malloc.c:4461-4469 | least_bit of left_bits of the map and compute_bit2idx give the lowest non-empty tree bin above a given one, or none only if there is none |
| `DlBins.Bins.ExactSmall` | common/malloc.c:4577-4585 | the test of two bits finds a chunk that fits without remainder, a smallest that fits, exactly if there is one in the small bins |
| `DlBins.Bins.NextSmall` | common/malloc.c:4593-4602 | the first chunk of the lowest non-empty small bin above the request's own, or none only if there is none |
| `DlBins.Bins.BestInOwnBin` | common/malloc.c:4436-4478 | the best fit in the bin of the request, if anything there fits |
| `DlBins.Bins.BestTreeFit` | common/malloc.c:4431-4478 | the search over maps and tries equals a scan of all tree-binned chunks: a smallest chunk that fits, or none only if none fits |
| `DlBins.Bins.SmallestTreeChunk` | common/malloc.c:4502-4519 | the search of tmalloc_small, from the lowest marked bin, gives a smallest chunk of all tree bins |
| `DlTags.TakeOk` | common/malloc.c:3056-3064 | taking a whole free chunk keeps the invariant of the tags |
| `DlTags.ReleaseOk` | common/malloc.c:2280-2289 | freeing a chunk between chunks in use keeps it |
| `DlTags.SplitOk` | common/malloc.c:3051-3054 | splitting a chunk in use keeps it |
| `DlTags.JoinOk` | common/malloc.c:4376-4416 | joining two neighbours, free or in use, keeps it |
| `DlTags.CutTopOk` | common/malloc.c:4655-4661 | cutting a chunk off the front of top keeps it |
| `DlTags.MeltIntoTopOk` | common/malloc.c:4394-4402 | merging the last chunk into top keeps it |
| `DlTags.GrowIntoTopOk` | common/malloc.c:4828-4838 | letting the last chunk grow into top keeps it |
| `DlTags.ResizeTopOk` | common/malloc.c:3893-3905 | resizing top keeps it |
| `DlChunks.TraverseAddsUp` | common/malloc.c:3421-3448 | the sizes met by walking the chunks from the base add up to the whole segment |
| `DlChunks.TraverseMeetsAll` | common/malloc.c:3421-3448 | that walk meets every chunk |
| `DlChunks.PayloadsApart` | common/malloc.c:3250-3258 | payloads of different used chunks are disjoint and aligned |
| `DlChunks.TagsOutside` | common/malloc.c:2184-2190 | no head word, and no foot word while it exists, lies inside a payload |
| `DlArena.Arena.constructor` | common/heap.c:27-39 | an arena over an untouched kernel heap satisfies the invariant, with no chunks |
| `DlArena.Arena.Sbrk` | common/heap.c:41-52 | the break moves by the increment exactly when it stays within the heap, and the old break is returned |
| `DlArena.AlignUp` | common/malloc.c:2669-2675 | rounding up to pages in machine words: the next multiple, or zero when the sum wraps around |
| `DlArena.Pad` | common/malloc.c:2228-2233 | a padded size is a multiple of 16, at least a minimal chunk, and holds the request and one word with the least such size |
| `DlArena.Wanted` | common/malloc.c:4572-4631 | exactly requests of MAX_REQUEST or more become one that nothing can satisfy; all others are padded |
| `DlArena.WantedIs` | common/malloc.c:4572-4631 | a padded request goes to the small bins exactly up to 232 bytes, as the code tests before padding |
| `DlArena.Arena.NoByteLost` | common/malloc.c:3421-3478 | conservation: used chunks, free chunks and top make up all memory obtained but the reserve behind top |
| `DlArena.Arena.UseWhole` | common/malloc.c:3056-3059 | exactly the one chunk moves from free to used |
| `DlArena.Arena.SplitUsed` | common/malloc.c:3051-3054 | exactly the one used chunk becomes two |
| `DlArena.Arena.FreeWhole` | common/malloc.c:2288-2289 | exactly the one chunk moves from used to free |
| `DlArena.Arena.JoinNext` | common/malloc.c:4376-4416 | two neighbours become one used chunk of their joint size |
| `DlArena.Arena.UseTop` | common/malloc.c:4655-4661 | a new used chunk of exactly the size asked, where top started |
| `DlArena.Arena.MeltTop` | common/malloc.c:4394-4402 | the last used chunk becomes part of top |
| `DlArena.Arena.GrowTop` | common/malloc.c:4828-4838 | the last used chunk has the new size |
| `DlArena.Arena.Carve` | common/malloc.c:4483-4491 | the chunk taken exceeds the size asked by less than a minimal chunk; any larger rest stays free |
| `DlArena.Arena.TakeAndBin` | common/malloc.c:4480-4494 | the invariant, exactly one more used chunk, and the free chunks with exactly the rest in place of the chunk taken; the rest is binned |
| `DlArena.Arena.TakeAndReplaceDv` | common/malloc.c:4520-4532 | the same, with exactly the rest as designated victim and the old victim in its small bin |
| `DlArena.Arena.TakeDv` | common/malloc.c:4634-4652 | the same, from the designated victim, which becomes exactly the rest or vanishes |
| `DlArena.Arena.ChooseSmall` | common/malloc.c:4592-4623 | a smallest binned chunk that fits; none only if no binned chunk fits |
| `DlArena.Arena.ChooseExact` | common/malloc.c:4577-4585 | a binned chunk without remainder, or none exactly if there is none |
| `DlArena.Arena.AllocSmall` | common/malloc.c:4572-4652 | a small request takes the designated victim exactly when it fits and no other free chunk fits without remainder, and otherwise a smallest other chunk that fits; the free chunks afterwards are stated; it takes none only if no free chunk fits |
| `DlArena.Arena.AllocLarge` | common/malloc.c:4431-4499 | a large request takes a best fit among all free chunks, and the designated victim exactly when nothing fits strictly better; the free chunks afterwards are stated; it takes none only if no free chunk fits |
| `DlArena.Arena.FirstTop` | common/malloc.c:4176-4191 | the first top chunk of a new segment |
| `DlArena.Arena.InitTop` | common/malloc.c:3893-3905 | top has the new size, and no other chunk changes |
| `DlArena.Arena.Extend` | common/malloc.c:4170-4208 | more memory arrives exactly when the heap has room, and only top changes |
| `DlArena.Arena.GrowHeap` | common/malloc.c:4050-4165 | memory is had exactly when the size does not wrap around and the heap has room for what is lacking; then top is larger than the request; a failed contiguous attempt ends contiguous growth |
| `DlArena.Arena.SysAlloc` | common/malloc.c:4034-4240 | exact failure condition, and no effect on chunks when it fails |
| `DlArena.Arena.AllocTop` | common/malloc.c:4655-4666 | the invariant, and exactly one more used chunk |
| `DlArena.Arena.AllocFree` | common/malloc.c:4572-4652 | dlmalloc up to the use of top: the chunk chosen exactly as above, or no change exactly when none fits |
| `DlArena.Arena.AllocFresh` | common/malloc.c:4655-4670 | the rest of dlmalloc: top if it is larger, else the system, with the exact failure condition |
| `DlArena.Arena.MallocChunk` | common/malloc.c:4541-4675 | where the chunk comes from, exactly: as above for small and for large requests, top only if nothing fits; less than a minimal chunk too large; the free chunks afterwards; and failure exactly when nothing fits, top is too small and the system refuses |
| `DlArena.Arena.AbsorbPrev` | common/malloc.c:4361-4385 | consolidates with the free chunk before, if there is one |
| `DlArena.Arena.AbsorbNext` | common/malloc.c:4404-4415 | consolidates with the free chunk behind |
| `DlArena.Arena.Settle` | common/malloc.c:4381-4419 | the chunk is free, as designated victim or in its bin as asked |
| `DlArena.Arena.SettleTop` | common/malloc.c:4394-4402 | the chunk is part of top, and a victim that was merged is forgotten |
| `DlArena.Arena.SettleMerged` | common/malloc.c:4386-4426 | the chunk merges with what is free behind it, or with top |
| `DlArena.Arena.Dispose` | common/malloc.c:4360-4426 | the freed chunk leaves the used chunks and appears merged with exactly its free neighbours, or in top; a designated victim that was merged is the merged chunk, or forgotten in top; nothing else changes |
| `DlArena.Arena.SysTrim` | common/malloc.c:4292-4355 | whole pages go back to the system, top keeps more than the pad and at most a page beyond it |
| `DlArena.Arena.FreeChunk` | common/malloc.c:4679-4786 | exactly one used chunk less, and the free chunks with exactly the merged chunk in place of its free neighbours; top is trimmed exactly when the chunk reached top and top exceeded the threshold |
| `DlArena.Arena.ShrinkChunk` | common/malloc.c:4818-4827 | exactly the one used chunk gets smaller |
| `DlArena.Arena.ExtendIntoNext` | common/malloc.c:4840-4880 | exactly the one used chunk gets larger, by less than a minimal chunk too much |
| `DlArena.Arena.TryRealloc` | common/malloc.c:4808-4885 | succeeds exactly when the chunk is large enough already or what is behind it suffices; otherwise nothing changes |
| `DlArena.Arena.AlignedSpot` | common/malloc.c:4908-4926 | the aligned place leaves a leader of at least a minimal chunk and is at most the alignment and 16 bytes in |
| `DlArena.Arena.TrimAligned` | common/malloc.c:4907-4950 | the leader and spare room are given back and an aligned chunk that is large enough remains |
| `DlArena.Arena.MemalignChunk` | common/malloc.c:4887-4959 | one more used chunk, aligned as asked and at most a minimal chunk too large, with the exact failure condition; failure changes nothing |
| `DlHeap.Heap.constructor` | common/heap.c:27-39 | nobody holds a block at the start |
| `DlHeap.Heap.BlocksApart` | common/malloc.c:3284-3295 | blocks held are 16-byte aligned, inside the kernel heap, hold the requested bytes and do not overlap |
| `DlHeap.Heap.TagsApart` | common/malloc.c:3250-3258 | no tag of any chunk lies inside a block that is held |
| `DlHeap.Heap.FreeApart` | common/malloc.c:3250-3347 | no part of a free chunk, links included, lies inside a block that is held |
| `DlHeap.Heap.Malloc` | common/malloc.c:4541-4675 | a new block that nobody holds, or no change exactly when nothing fits, top is too small and the system refuses |
| `DlHeap.Heap.Free` | common/malloc.c:4679-4786 | exactly the one block is given back; null is accepted |
| `DlHeap.Heap.Copy` | common/malloc.c:5214-5216 | memcpy between ranges that must not overlap |
| `DlHeap.Heap.Move` | common/malloc.c:5208-5219 | the block moves with its bytes, the ranges copied do not overlap, and no other block changes |
| `DlHeap.Heap.Realloc` | common/malloc.c:5182-5225 | the block keeps its first bytes wherever it ends up, stays in place exactly when it can, other blocks keep all of theirs, and failure, under its exact condition, changes nothing |
| `DlHeap.ArrayBytes` | common/malloc.c:4788-4796 | the overflow test of dlcalloc is exact for all pairs of machine words |
| `DlHeap.Heap.Calloc` | common/malloc.c:4788-4801 | a block of the true product, all zero; nothing exactly when dlmalloc would refuse that size |
| `DlHeap.Heap.InternalMemalign` | common/malloc.c:4887-4959 | a new block aligned to the power of two |
| `DlAlign.TurnIs` | common/malloc.c:4891-4895 | the doubled word runs through the powers of two from 32 to 2^63 and is zero ever after |
| `DlAlign.LoopEnds` | common/malloc.c:4891-4895 | the loop reaches an alignment if and only if the alignment is at most 2^63 |
| `DlAlign.LoopForEver` | common/malloc.c:4891-4895 | an alignment for which it does not end: 2^63 + 1 |
| `DlAlign.RaiseAlignment` | common/malloc.c:4889-4895 | for all others it yields the least power of two from 32 on that is not below the alignment |
| `DlHeap.Heap.Memalign` | common/malloc.c:5258-5263 | for every alignment with which the call returns (at most 2^63): a new block aligned to the least power of two from 32 on that is at least the alignment asked, with the exact failure condition |
| `DlHeap.Heap.PosixMemalign` | common/malloc.c:5265-5286 | EINVAL exactly for alignments that are no power of two times the word size; ENOMEM under its exact condition; otherwise an aligned new block |
| `DlHeap.Heap.Trim` | common/malloc.c:5331-5339 | blocks are untouched, and the result says whether the break moved down |
| `DlHeap.Run` | common/malloc.c:4541-4959 | after every run of calls from the start, the blocks held are aligned, inside the heap and pairwise disjoint |
| `KconfigExpr.LegalStatesExist` | tools/kconfig/symbol.c:626-660 | the assumptions about symbols can all be met at once |
| `KconfigExpr.EliminateYnValue` | tools/kconfig/expr.c:236-317 | removing yes and no keeps the value |
| `KconfigExpr.EliminateYnShape` | tools/kconfig/expr.c:236-317 | no yes or no is left below a node, and the expression gets smaller exactly when there was one |
| `KconfigEq.CancelSound` | tools/kconfig/expr.c:135-167 | pairwise cancellation relates the values before and after so that equal rests mean equal values |
| `KconfigEq.EliminateEqSound` | tools/kconfig/expr.c:169-189 | if the rests have the same value, so have the originals |
| `KconfigEq.ExprEqSound` | tools/kconfig/expr.c:194-234 | expressions that expr_eq calls equal have the same value under every legal valuation; the mutual recursion terminates |
| `KconfigEqExact.ExprEqReflexive` | tools/kconfig/expr.c:194-234 | every expression equals itself |
| `KconfigEqExact.CancelIsDifference` | tools/kconfig/expr.c:135-167 | on flat expressions cancellation is the difference of the multisets of operands |
| `KconfigEqExact.ExprEqExactOnFlat` | tools/kconfig/expr.c:194-234 | flat expressions are equal exactly when their operands agree as multisets |
| `KconfigTransform.TransformValue` | tools/kconfig/expr.c:641-776 | expr_transform, which re-enters itself on its own output, terminates and keeps the value |
| `KconfigTransform.TransformNormal` | tools/kconfig/expr.c:641-776 | the result is a normal form: negation only above symbols, no comparison of booleans with constants |
| `KconfigTransform.TransformFixedPoints` | tools/kconfig/expr.c:641-776 | exactly the normal forms are unchanged, and a second pass changes nothing |
| `KconfigTransform.TransformNegation` | tools/kconfig/expr.c:694-770 | the negation of a normal form becomes its De Morgan dual, and the dual of the dual is the original |
| `KconfigFactor.JoinValue` | tools/kconfig/expr.c:351-507 | an expression that replaces two operands has the value of both together |
| `KconfigFactor.FactorOutValue` | tools/kconfig/expr.c:831-880 | both expressions are the common part joined with their own rest |
| `KconfigDups.Dups1Value` | tools/kconfig/expr.c:509-559 | joining pairs of operands keeps the value under every legal valuation |
| `KconfigDups.Dups1Marks` | tools/kconfig/expr.c:509-559 | each counted change leaves a yes or no behind, and an uncounted pass changes nothing |
| `KconfigDups.Dups2Info` | tools/kconfig/expr.c:561-615 | the second pass changes the value only where it was mod |
| `KconfigDups.Dups2Marks` | tools/kconfig/expr.c:561-615 | as for the first pass, counted changes leave a constant behind |
| `KconfigDups.RefutedValue` | tools/kconfig/expr.c:561-615 | when the second pass refutes an operand, the whole is the absorbing constant exactly when its value is not mod |
| `KconfigDups.RoundMarks` | tools/kconfig/expr.c:617-639 | a counted round leaves something for the removal of constants, so that every round but the last shrinks the expression |
| `KconfigDups.EliminateDups` | tools/kconfig/expr.c:617-639 | the fixpoint loop terminates, ends where a round changes nothing, never grows the expression, and changes values from mod only; EliminatedExact says when |
| `KconfigDups.EliminatedTwoValued` | tools/kconfig/expr.c:617-639 | under every valuation with no symbol at mod the value is kept |
| `KconfigDups.EliminatedIdempotent` | tools/kconfig/expr.c:617-639 | a second call changes nothing |
| `KconfigDupsExact.VisitRefutes` | tools/kconfig/expr.c:575-612 | a step of the second pass that replaces an operand keeps the value exactly where it is not mod |
| `KconfigDupsExact.PassExact` | tools/kconfig/expr.c:561-615 | a whole second pass, nested passes included, keeps the value under a valuation exactly when every replacement happens while its own expression is not mod or is masked by the operands beside it |
| `KconfigDupsExact.EliminatedExact` | tools/kconfig/expr.c:617-639 | the same for a whole call with all its rounds |
| `KconfigDupsExact.CollapseExact` | tools/kconfig/expr.c:617-639 | a call in which some round refutes an operand of the root keeps the value exactly where it was not mod |
| `KconfigDupsExact.UnrefutedExact` | tools/kconfig/expr.c:617-639 | a call whose second passes count nothing keeps the value under every legal valuation |
| `KconfigClash.ClashLosesMod` | tools/kconfig/expr.c:561-615 | the value is not always kept: for every two tristate symbols, (f or b) and not f and not b becomes no, though it is mod when both are mod |
| `KconfigPrint.PrintReadsBack` | tools/kconfig/expr.c:1016-1086 | what expr_print writes, read with the precedences of the Kconfig grammar, has the value of the expression |
| `KconfigPrint.PrintUnambiguous` | tools/kconfig/expr.c:1016-1086 | expressions that give the callback the same pieces have the same value under every valuation |
| `KconfigPrint.TextsTell` | tools/kconfig/expr.c:1088-1096 | the written pieces tell the pieces given to the callback if and only if no two symbols have the same name |
| `KconfigPrint.ParenthesesExactly` | tools/kconfig/expr.c:984-1030 | parentheses appear exactly around a compound under a negation and an or under an and |
| `KernList.Link.constructor` | common/list.c:113-125 | a new node is linked to itself |
| `KernList.InsertAt` | common/list.c:46-53 | the links then list the nodes with the new one before the position |
| `KernList.Add` | common/list.c:24-31 | the new node is last; the head of an empty list may be added to it |
| `KernList.AddTop` | common/list.c:35-42 | the new node is first |
| `KernList.Delete` | common/list.c:14-20 | exactly the one node leaves and is linked to itself |
| `KernList.IsEmpty` | common/list.c:97-101 | true exactly for the empty list |
| `KernList.GetTop` | common/list.c:65-73 | the first node leaves; of an empty list it is the head |
| `KernList.Rotate` | common/list.c:105-109 | the first node becomes the last; on an empty list the two calls work on the head itself and leave the list empty |
| `KernReady.MarkOne` | kern/ready_queue.c:24-40 | setting and clearing a priority's bit changes that bit only |
| `KernReady.FindMsrBit` | common/bitops.c:18-43 | the highest bit that is set, or nothing exactly for zero |
| `KernReady.ReadyQueue.constructor` | kern/ready_queue.c:90-98 | sixteen empty queues and an empty bitmap |
| `KernReady.ReadyQueue.Add` | kern/ready_queue.c:17-27 | the thread is last in its queue and the bitmap marks exactly the non-empty queues |
| `KernReady.ReadyQueue.Remove` | kern/ready_queue.c:32-43 | exactly the one thread leaves and the bitmap stays exact |
| `KernReady.ReadyQueue.Rotate` | kern/ready_queue.c:47-55 | the round-robin queue is rotated by one |
| `KernReady.ReadyQueue.FindRunnable` | kern/ready_queue.c:62-85 | the first thread of the highest non-empty queue, or nothing exactly when all are empty |
| `KernReady.RoundRobin` | kern/timer.c:61-87 | whatever joins and leaves meanwhile, the thread at place i of the round-robin queue is first after at most i turns |
| `KernRings.LinkedQueues.constructor` | kern/ready_queue.c:90-98 | sixteen fresh heads, linked to themselves, are empty queues |
| `KernRings.LinkedQueues.Add` | kern/ready_queue.c:17-27 | on heads and links the call does to the queues what ReadyQueue.Add does |
| `KernRings.LinkedQueues.Remove` | kern/ready_queue.c:32-43 | the same for the removal, with the test of the emptied list |
| `KernRings.LinkedQueues.Rotate` | kern/ready_queue.c:47-55 | the same for the rotation |
| `KernRings.LinkedQueues.FindRunnable` | kern/ready_queue.c:62-85 | the link found is that of the first thread of the highest non-empty queue |
| `KernPlaces.LeaveReady` | kern/ready_queue.c:32-43 | a thread taken from the ready queue is nowhere, and all others stay where they are |
| `KernPlaces.JoinQueue` | kern/wqueue.c:17-30 | a thread entered in a wait queue is there only |
| `KernPlaces.LeaveQueue` | kern/wqueue.c:132-141 | the first waiter leaves, and all others stay where they are |
| `KernPlaces.JoinReady` | kern/sched.c:36-43 | a thread entered in the ready queue is there only |
| `KernPlaces.JoinReaper` | kern/reaper.c:46-59 | a thread entered in the reaper's queue is there only |
| `KernPlaces.LeaveReaper` | kern/thread.c:183-198 | the first thread to be reaped leaves |
| `KernThreads.Kernel.constructor` | kern/reaper.c:63-81 | the start satisfies the invariant, with the idle thread running and the reaper ready |
| `KernThreads.Kernel.Schedule` | kern/sched.c:16-96 | the thread switched to is the first of the highest priority, or idle exactly if nobody is ready |
| `KernThreads.Kernel.Sleep` | kern/wqueue.c:65-78 | the current thread moves from the ready queue to the wait queue, with its status |
| `KernThreads.Kernel.Drain` | kern/wqueue.c:132-141 | all waiters of the queue become ready and nobody else moves |
| `KernThreads.Kernel.WaitOnQueue` | kern/wqueue.c:65-86 | the invariant, exactly the caller moves, to the end of the queue, and it will go on after its wait |
| `KernThreads.Kernel.WakeupEvent` | kern/wqueue.c:124-146 | all waiters become ready and the reason is set; on an empty queue nothing changes, the reason included |
| `KernThreads.Kernel.Acquire` | kern/mutex.c:64-71 | a mutex is taken only when nobody holds it |
| `KernThreads.Kernel.Hold` | kern/mutex.c:50-72 | the mutex exactly when it is free, else a place in its queue |
| `KernThreads.Kernel.TryHold` | kern/mutex.c:33-49 | succeeds exactly when nobody holds the mutex |
| `KernThreads.Kernel.Unlock` | kern/mutex.c:73-79 | the mutex is free and nobody waits for it any more |
| `KernThreads.Kernel.Release` | kern/mutex.c:73-84 | the same for the whole call; with waiters the caller still has to finish it when it runs again, without it is complete |
| `KernThreads.Kernel.StrayRelease` | kern/mutex.c:73-84 | a release by a thread that does not hold the mutex keeps queues, threads, owners and the reaper in order, and always breaks what holds of mutexes |
| `KernThreads.Kernel.Take` | kern/mutex.c:38-48 | the counter alone decides, whoever may hold the mutex |
| `KernThreads.TwoHolders` | kern/mutex.c:33-84 | a run from the start after which two threads have the mutex |
| `KernLock.HoldersBound` | kern/mutex.c:33-84 | over every run of holds and releases the counter is the number of holders less the stray releases, and holders are at most one more than these |
| `KernLock.HoldersReach` | kern/mutex.c:33-84 | that many are reached: the mutex excludes exactly as long as there is no stray release |
| `KernThreads.Kernel.QueueAndUnlock` | kern/wqueue.c:93-108 | the caller is in the queue of the event when the mutex becomes free: no wakeup under the mutex misses it |
| `KernThreads.Kernel.WaitWithMutex` | kern/wqueue.c:93-118 | the same for the call up to its first switch; the caller will take the mutex again before it returns |
| `KernThreads.Kernel.Create` | kern/thread.c:249-332 | the new thread is ready with its priority, out of range meaning round robin, and nothing else changes |
| `KernThreads.Kernel.Bury` | kern/thread.c:342-356 | the current thread moves to the reaper's queue, dead |
| `KernThreads.Kernel.Exit` | kern/thread.c:337-363 | the thread is in the reaper's queue and the reaper is ready |
| `KernThreads.Kernel.DestroyFirst` | kern/thread.c:204-226 | a thread that is destroyed was dead and not destroyed before |
| `KernThreads.Kernel.DestroyAll` | kern/reaper.c:31-37 | exactly the threads in the queue are destroyed, each once |
| `KernThreads.Kernel.Reap` | kern/reaper.c:28-41 | the reaper sleeps only with an empty queue |
| `KernThreads.Kernel.SliceEnd` | kern/timer.c:61-87 | the round-robin queue turns and the first thread of the highest priority runs |
| `KernThreads.Kernel.Preempt` | kern/sched.c:99-122 | the first thread of the highest priority runs |
| `KernThreads.Kernel.EndRelease` | kern/mutex.c:80-84 | owner is cleared whoever holds the mutex by then, and the invariant is kept; the caller returns, or goes on to take the mutex again |
| `KernThreads.Kernel.Continue` | kern/wqueue.c:79-118 | a thread that goes on with its call does what is left of it, keeps the invariant, and takes no mutex but a free one |
| `KernThreads.Kernel.ExactlyOnePlace` | kern/wqueue.c:17-146 | every thread created is in exactly one place, the one its status names, or was destroyed |
| `KernThreads.Kernel.HighestRuns` | kern/sched.c:16-31 | the scheduler's choice is the one ready thread of the highest priority |
| `KernThreads.OwnerLost` | kern/mutex.c:73-84 | a run from the start that ends with a mutex held by one thread and with no owner |
| `KernThreads.Run` | kern/wqueue.c:65-146 | over every run of operations and interrupts: no thread lost (the threads known are exactly the reaper and those created), one place per thread, mutexes free or held once, owner nobody or the holder or a thread still in its release, no waiter for a free mutex, no sleeping reaper with work |
| `KernTimer.PlaceSorted` | kern/timer.c:100-146 | insertion keeps the list sorted, the last added first among equals |
| `KernTimer.SplitSorted` | kern/timer.c:15-37 | what expires is a prefix of the list, so that no order changes |
| `KernTimer.AddedOk` | kern/timer.c:100-146 | an accepted callout keeps the invariant |
| `KernTimer.TickedOk` | kern/timer.c:15-59 | a tick keeps the invariant: nothing pending is overdue, and everything fired in order of expiry and never before its time |
| `KernTimer.AfterOk` | kern/timer.c:15-146 | the invariant holds after every run of additions and ticks, and what fired stays fired |
| `KernTimer.FiresWhenDue` | kern/timer.c:15-146 | over every run a pending callout stays pending until its due tick, fires on that tick and is never pending again |
| `KernTimer.Callouts.Add` | kern/timer.c:100-146 | refused exactly without a handler or while in the list, else inserted in order |
| `KernTimer.Callouts.Insert` | kern/timer.c:114-136 | the search loop finds the place before the first that does not expire earlier |
| `KernTimer.Callouts.Tick` | kern/timer.c:15-59 | the two loops fire exactly what has expired, from the front |
| `KernPages.IndicesOfPage` | include/hal-aarch64/pgtbl.h:17-30 | the three indices are the digits of the page number |
| `KernPages.SamePage` | include/hal-x64/pgtbl.h:14-25 | two addresses are on one page exactly when all three indices agree |
| `KernPages.TableRoundTrip` | include/hal-aarch64/pgtbl.h:204-214 | the address in a table entry is read back, for both formats |
| `KernPages.BlockRoundTrip` | include/hal-aarch64/pgtbl.h:216-220 | frame and attributes in a block entry are read back, for both formats |
| `KernPages.LeafTells` | hal/aarch64/kmap.c:49-104 | addresses that reach the same last table agree in their first two indices |
| `KernPages.WalksKept` | hal/aarch64/kmap.c:49-72 | linking a cleared table changes no walk |
| `KernPages.BlockStored` | hal/aarch64/kmap.c:103-112 | storing a block entry changes exactly the walks that end there |
| `KernPages.PageTables.TableBelow` | hal/x64/kmap.c:61-81 | the next table, made from a page nothing else uses if there was none; no walk changes |
| `KernPages.PageTables.MapKernelPage` | hal/aarch64/kmap.c:26-119 | afterwards exactly the addresses of the page lead to the frame with its attributes, and all other addresses where they led before; the x64 twin as well |
| `FsCache.ReadSector` | dev/memide.c:19-43 | the copy loop yields exactly the bytes of the range |
| `FsCache.WriteSector` | dev/memide.c:45-69 | the copy loop replaces exactly the bytes of the range |
| `FsCache.Cache.constructor` | dev/blkio.c:141-160 | all buffers idle and clean, and the disk as it is |
| `FsCache.Cache.Search` | dev/blkio.c:31-53 | the buffer of the block, or nothing exactly if there is none |
| `FsCache.Cache.Victim` | dev/blkio.c:58-69 | of all idle and clean buffers the one released longest ago |
| `FsCache.Cache.Get` | dev/blkio.c:19-76 | the buffer of the block as it was, or of all idle and clean ones the one released longest ago; a wait exactly for a busy buffer of the block, and the panic exactly if the block has none and every buffer is busy or dirty; at most one buffer per block, no dirty buffer recycled, and no block's content changed |
| `FsCache.Cache.ReadWrite` | dev/memide.c:73-93 | buffer and disk agree afterwards and no block's content changes |
| `FsCache.Cache.Read` | dev/blkio.c:79-94 | the buffer has the current content of the block, and is dirty exactly if the block has a dirty buffer; it waits or stops under the same exact conditions |
| `FsCache.Cache.Write` | dev/blkio.c:97-110 | exactly the one block has new content |
| `FsCache.Cache.Release` | dev/blkio.c:113-138 | the buffer is idle and first in the list; contents are as before |
| `FsCache.Cache.Resume` | dev/blkio.c:46-71 | the search after a wait: behind the buffer waited for, then any idle and clean one, then all over again |
| `FsCache.Cache.ReleaseThenResume` | dev/blkio.c:19-138 | when a waiter goes on, the block keeps one buffer if and only if no other buffer is idle and clean; otherwise it has two |
| `FsCache.TwoBuffers` | dev/blkio.c:19-138 | a run in every new cache of two buffers or more that ends with two buffers of one block |
| `FsCache.DirtyCount` | dev/blkio.c:58-69 | blocks with dirty buffers are at most as many as buffers, and as many exactly if every buffer is dirty |
| `FsCache.Cache.RoomIs` | dev/blkio.c:27-72 | a block can be had exactly if it is among the blocks whose buffers are taken for good or these are fewer than the buffers |
| `FsCache.WrittenExhaust` | dev/blkio.c:58-69 | blocks with dirty buffers are at most as many as buffers, and as many only if every buffer is dirty and one of theirs |
| `FsCache.Run` | dev/blkio.c:19-138 | over every run of accesses a dirty buffer stays dirty and with its block; once as many blocks are written as there are buffers, no other block can be had |
| `FsFiles.UsedAfter` | fs/inode.c:80-92 | for the first 512 positions the word and bit computed mark exactly the one bit |
| `FsFiles.FreeAfter` | fs/inode.c:78-94 | the first position that is not marked is the first of the free blocks, and marking it leaves exactly the others |
| `FsFiles.MkfsLayoutFits` | tools/fs/mkfs.c:237-269 | every image that mkfs lays out with at most 512 data blocks is one the file system accepts, also one filled to its last block |
| `FsInode.FileSystem.TakeBit` | fs/inode.c:78-106 | a bit is taken exactly if it was free |
| `FsInode.FileSystem.Clear` | fs/inode.c:97-100 | the new block is zero exactly if its buffer was dirty, and otherwise keeps its bytes |
| `FsInode.FileSystem.FindFree` | fs/inode.c:65-108 | the first free block, which no file has, cleared if and only if its buffer was dirty; nothing exactly if no block is free or the map and the block need more buffers than there are |
| `FsInode.FileSystem.ReleaseBlock` | fs/inode.c:110-139 | the bit of another block is cleared, and the files stay sound if and only if none has that block |
| `FsInode.FileSystem.BmapDirect` | fs/inode.c:207-223 | the block of the place, the first free one only if there was none, and the kernel stops exactly if that cannot be had |
| `FsInode.FileSystem.BmapIndirect` | fs/inode.c:225-266 | the index block takes the place of a direct block, and the block found is one that no file has; it stops, or goes astray over old bytes, exactly as stated |
| `FsInode.FileSystem.Bmap` | fs/inode.c:199-267 | what bmap comes to is the function Mapping of the free blocks, the dirty blocks and the old bytes, and no other block changes |
| `FsInode.FileSystem.WriteAll` | fs/inode.c:617-637 | the loop over blocks stores the bytes given and keeps all others, except in lost places; its outcome and what it leaves are those of Fate and Rest |
| `FsInode.FileSystem.ReadAll` | fs/inode.c:578-598 | the loop over blocks yields the bytes of the range and keeps all bytes, except in lost places |
| `FsInode.FileSystem.Write` | fs/inode.c:603-647 | all bytes are in the file if and only if none lies behind the direct blocks, and then exactly these change and the size grows as needed; lost places get blocks that were free; refused exactly beyond the end or the maximum, and otherwise the outcome is FateOf |
| `FsInode.FileSystem.Read` | fs/inode.c:563-601 | the bytes of the range up to the end of the file; the inode changes if and only if the read goes on behind the direct blocks |
| `FsInode.FileSystem.WriteThenRead` | fs/inode.c:563-647 | what was written within the direct blocks is read back and the read cannot stop; behind them zeros come back where free blocks hold zeros |
| `FsInode.FileSystem.WriteGoes` | fs/inode.c:603-647 | a write within the direct blocks goes through if and only if enough blocks are free, and the blocks it needs together with the dirty ones are no more than the buffers |
| `FsInode.FileSystem.ReadGoes` | fs/inode.c:563-601 | a read within the direct blocks goes through if and only if each of its blocks can be had |
| `FsRuns.NewBlockKeepsBytes` | fs/inode.c:65-108 | over every disk and with a new cache the first free block is taken and keeps the bytes of the disk |
| `FsRuns.SevensStay` | fs/inode.c:97-100 | such a run at an input |
| `FsRuns.TailLost` | fs/inode.c:225-262 | whatever byte is written right behind the direct blocks, a zero is read there |
| `FsRuns.ByteLost` | fs/inode.c:225-262 | a run from a new cache that loses a byte |
| `FsRuns.WrongBlockFreed` | fs/inode.c:110-139 | a run in which the release of a block of a file frees another block of it |
| `FsLayout.TightSplit` | tools/fs/mkfs.c:250-267 | data blocks and their map use all remaining blocks but one at most, and all of them exactly when the remainder modulo 4097 is 2 |
| `FsLayout.RegionsTile` | tools/fs/mkfs.c:237-269 | for every size and number of files that leave a block the regions are disjoint and without gaps |
| `FsLayout.AtMostOneUnused` | tools/fs/mkfs.c:237-269 | the regions fit in the image and at most one block is unused |
| `FsLayout.AddressesLand` | fs/inode.c:41-161 | the kernel's address formulas land in the regions made for them |

## Left out

- Allocator paths outside the configuration: mmap, mspaces, footers, several segments (add_segment, prepend_alloc), locks, statistics, the release_checks counter, and the x86 variant of compute_tree_index, which narrows to 32 bits.
- Other users of kheap_sbrk after the first allocation: the model's break is moved by the allocator alone, so that a contiguous request, if it succeeds, always continues the segment.
- DlTrie.InsertOk: a trie is a value; that the links in memory follow it is what DlLinks and DlTreeBins prove.
- DlTrie.RemoveOk: the same.
- DlBins.Bins.InsertLarge: a bin is a trie or a list; its links are the subject of DlLinks and DlSmallLinks and are not fields of Bins. The same holds for UnlinkLarge, InsertSmall and UnlinkSmall.
- DlBins.Bins.UnlinkLarge: see InsertLarge.
- DlBins.Bins.InsertSmall: see InsertLarge.
- DlBins.Bins.UnlinkSmall: see InsertLarge.
- DlLinks.TreeBin.Insert: the index field of a chunk is not modelled, as the bin is known.
- DlArena.Arena.FirstTop: the heap starts on a page, as the linker scripts place it (hal/x64/kernel.lds.in:60-63), so that init_top has nothing to align.
- DlTags.SplitOk: the head words that stand between two stores of one call are not modelled; a neighbour that is being merged counts as in use until the call ends.
- DlHeap.Heap.Memalign: alignments above 2^63 are excluded, because the call does not return for them (DlAlign.LoopEnds).
- DlHeap.Heap.Free: callers free only blocks they hold; the checks for corrupted heaps and their error actions are not modelled.
- Expressions of types E_LIST, E_RANGE and E_NONE, null expressions, memory ownership and expr_free; expressions are values, so that rewriting through pointers becomes a result.
- KconfigEq.ExprEqSound: one direction only, as the test is not complete; for flat expressions ExprEqExactOnFlat gives the exact condition.
- KconfigDups.Dups2Info: says that only mod can be lost; PassExact and EliminatedExact say exactly when.
- Kconfig symbols: how symbol.c computes values and strings is not part of this model beyond the assumptions in Legal.
- mutex_destroy is not modelled.
- KernThreads.Kernel.Release: the caller holds the mutex; releases by others are StrayRelease.
- KernThreads.Run: threads release only mutexes they hold, because after any other release what it states of mutexes is false (StrayRelease, TwoHolders); waits happen in thread context and the idle thread does not block; memory for threads and stacks and the register switch are not modelled.
- KernThreads.Kernel.Schedule: delayed dispatch is left out: the model switches at once where the source may note a wish to.
- KernThreads.Kernel.Create: failure for lack of memory is left out.
- KernThreads.Kernel.Exit: the closing of file descriptors is left out.
- KernThreads.Kernel.SliceEnd: the counter of a time slice is left out; the slice may end at any time.
- KernThreads.Kernel.Preempt: the tests of counts and flags before a delayed dispatch are left out; it may happen at any time.
- KernTimer.Callouts.Tick: handlers do not add callouts from within a tick, and the uptime counter does not wrap around.
- KernPages.PageTables.MapKernelPage: the address is the one the tables are indexed with, on AArch64 after the base of the straight mapping is subtracted; that the page is not mapped yet is what the kernel asserts; running out of heap is a result instead of a panic.
- FsCache.Cache.Get: one device; a wait and running out of buffers are results; what happens after a wait is Resume.
- FsCache.Cache.ReleaseThenResume: as Resume.
- FsCache.Cache.Resume: the mutex of the cache is not part of the state (see StrayRelease for its second release), and no other thread acts between the steps of the search, although the source has released its mutex by then.
- FsInode.FileSystem.Write: a call that goes astray is not followed further; the copy of inodes on the disk (inode_update) is not modelled.
- FsInode.FileSystem.Read: the same.
- FsInode.FileSystem.BmapIndirect: block numbers up to the largest file that inode_write makes; the word of the index block is eight bytes, and only whether it is zero matters.
- FsFiles.UsedAfter: block maps of one block, and of its positions the first 512.
- inode_truncate and inode_put, which would add easy members only; what their releases do is ReleaseBlock.
- KconfigPrint.PrintUnambiguous: a piece carries its symbol, as the callback gets it; for the text alone see TextsTell.
- FsLayout.RegionsTile: the 32-bit width of the super block's fields is not modelled.
- Directories, path lookup, file descriptors, device switch, interrupt controllers, consoles, string and print routines, and the other Kconfig programs, which would add easy members only.
