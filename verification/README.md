# Verified model of the VMsvga2 driver

VMsvga2 is a display driver for the VMware SVGA II device. This project models, in Dafny, the parts of it
whose correctness rests on invariants that span many calls, and proves them.

- **VRAM allocator** (`BuddyAllocator`, on `BuddyModel`, `Coalescing`, `BuddySpec`, `BuddyRelease`, `ByteMap`,
  `BuddyPromise`, `PowersOfTwo`). A buddy system that keeps its lists, headers and trailers in the memory it manages and
  marks a live block only by one bit, on its last page. The class has the driver's fields: pool memory as
  an array of 32-bit words, thirteen list heads, the bit map in bytes, the free bytes. Its invariant ties
  all of them to one ghost map from pages to owners (unreleased, free block, live block). `BuddyRuns` lifts
  the contracts of the calls to whole histories and shows that a client can produce no other history, and that
  what it sees is a heap (`BuddyHeap`): pointers with bytes behind them that nobody else has.
- **Command FIFO and fences** (`SvgaDevice`, on `FifoRing` and `Fences`; `PresentThrottle`). One guest writes,
  the device reads and executes at its own pace. The device is part of the model: before each access to
  memory or registers that the device can change, the methods let it run for an arbitrary while. The ring
  is proved to be a queue of words under all three ways of committing; fence numbers wrap at 32 bits.
- **Guest memory regions** (`Gmr`). The writer of the chained descriptor table and, as an independent
  reference, the device's reading rules.
- **Ids and transfer buffers** (`IdMasks`, `Ids`, `TransferBuffers`). Bit masks with a search hint as sets of ids
  in use; the life of a buffer from `prepare` to `complete` with its id, its definition in the device, its
  wired memory and its fence.
- **Clip and blit** (`Clipping`, `Blit`). 16-bit rectangles and row copies, down to the bytes.

Values that come from outside (whether memory can be mapped, wired or allocated, whether the device takes a
GMR, how far the device has read, where the helper pages lie) are parameters or arbitrary choices, so the
theorems hold for all of them.

## Where the code does not keep what its comments say

- The allocator's header says that a failure means no block can be placed. That is true of orders 0 to 12 as
  long as no two free buddies of equal order stand apart, and it stays true under every further sequence
  of calls with clean releases if and only if that is so (`PromiseForever`). Two buddies apart need not break
  it at once, but a client that uses up the larger blocks gets there (`AskUntilRefused`). `Release` does not
  merge with its neighbours: it leaves no pair apart if and only if there was none and both its ends are
  clean (`ReleaseCoalesced`), and those of `setupAllocator` are. `AdjacentReleasesBreakTheGuarantee` is an
  example. Above 16 MB the promise fails (`OversizeNeverFits`). The multiples that the header speaks of are
  counted from the start of the pool.
- `memAll` and `memAny` look only at the count that `repe scasb` leaves, so the last byte scanned goes unseen.
  The model does the same. `Release` can therefore miss that a range was released before, and the caller
  must not pass one, except where the test does see it.
- `FIFOReserve` lets a request for the whole ring pass its size check; it would wait for ever.
- `createGMR2` says it assumes a start offset of zero. What it needs is that the bytes and the waste
  of the segments it visits fit the pages of all (`ListFits`): less than a page wasted, where it visits all. For the
  list to say where the bytes are, segments have to begin and end on page boundaries (`PageListExact`). The loop
  stops at a segment on address 0 or above 16 TB (`UnvisitedWasteIsHarmless`).
- `clipRegionToBuffer` keeps pixels that should be cut off when a 16-bit store wraps (`FarLeftWraps`); exactly
  when, `ClipRectExact` says.
- The row loop of `genericBlitCopy` skips a row outside the windows without moving on, so no row after it is
  copied either. It misses a row that it should copy exactly if the first row is outside and some row is
  not (`RowLoopExact`); a rectangle that sticks out to the left is such a one (`LeftOverhangCopiesNothing`).
  The row offset is an unsigned 32-bit product, so the offset of a rectangle that begins above the image
  comes out too large by a multiple of 4 GB: its rows are lost (`TopOverhangWraps`) or copied to the wrong
  place (`FarAboveIsMisplaced`). When exactly the right rows are copied to the right places, `RowsRightExact` says.
- The fence comparison is sound within 2^31 draws of the fence in the register, and the ring keeps it there
  (`WindowHolds`) unless very many calls of `InsertFence` fail in between; the calls of the driver do not fail, and
  every call that is modelled keeps it so (`FewFailed`). `PassedExact` says exactly when it errs, in either
  direction; `LostDrawsBreakTheTest` and `VeryOldFenceForgotten` are examples.

## Model

| member | source | states |
|---|---|---|
| `BuddyAllocator.VMsvga2Allocator.constructor` | kexts/VMsvga2/AC/VMsvga2Allocator.cpp:468-472 | A new allocator has no bit map yet and thirteen list heads of its own. |
| `BuddyAllocator.VMsvga2Allocator.Init` | kexts/VMsvga2/AC/VMsvga2Allocator.cpp:497-535 | Exactly which arguments are refused, and that a refusal changes nothing. On success the whole pool is unreleased, the invariant holds, no free block could be merged and no byte is free. |
| `BuddyAllocator.VMsvga2Allocator.Rebase` | kexts/VMsvga2/AC/VMsvga2Allocator.cpp:537-543 | An aligned new address moves the pool and nothing else; an unaligned one is refused. |
| `BuddyAllocator.VMsvga2Allocator.Release` | kexts/VMsvga2/AC/VMsvga2Allocator.cpp:545-574 | Exactly which ranges are refused. A refusal changes nothing. Otherwise the pages become free blocks, cut canonically, the free bytes grow by the size of the range, and no byte of a live or unreleased page changes. |
| `BuddyAllocator.VMsvga2Allocator.Malloc` | kexts/VMsvga2/AC/VMsvga2Allocator.cpp:576-591 | Succeeds if and only if some free block is large enough; while free blocks are coalesced, if and only if an aligned run of that many free pages exists. The code of each failure is stated, and a failure changes nothing. A success returns the address of the front of a smallest sufficient block, inside the pool with all its bytes, cuts the rest canonically, and touches no byte that was not free. |
| `BuddyAllocator.VMsvga2Allocator.Realloc` | kexts/VMsvga2/AC/VMsvga2Allocator.cpp:593-639 | Size 0 frees; null allocates; a size that fits shrinks in place, exactly to the order needed; a larger one moves, to the address returned. The data of the old block is kept, all other live blocks keep theirs, each failure has its code and changes nothing, and coalesced free blocks stay coalesced. |
| `BuddyAllocator.VMsvga2Allocator.Free` | kexts/VMsvga2/AC/VMsvga2Allocator.cpp:641-771 | Gives the live block at that address back: it ends in a free block whose other pages were free before and which has no free buddy. The free bytes grow by exactly the size of the block. No error return is taken. Pointers that are no page of the pool are refused and change nothing; null is accepted and changes nothing. |
| `BuddyAllocator.VMsvga2Allocator.Available` | kexts/VMsvga2/AC/VMsvga2Allocator.cpp:773-779 | The answer is the number of bytes on free pages. |
| `BuddyAllocator.VMsvga2Allocator.Check` | kexts/VMsvga2/AC/VMsvga2Allocator.cpp:781-826 | On every state that the invariant allows it succeeds and counts exactly the blocks of each list. |
| `BuddyAllocator.VMsvga2Allocator.MakeFree` | kexts/VMsvga2/AC/VMsvga2Allocator.cpp:231-274 | A loose aligned range becomes one free block at the front of the list of its order, with its header and trailer, and the invariant is kept. |
| `BuddyAllocator.VMsvga2Allocator.ToFree` | kexts/VMsvga2/AC/VMsvga2Allocator.cpp:280-341 | A loose range becomes free blocks none of which could be doubled inside the range; nothing outside changes; the two inner loops together take at most 24 steps over the whole call. |
| `BuddyAllocator.VMsvga2Allocator.BuddyMalloc` | kexts/VMsvga2/AC/VMsvga2Allocator.cpp:347-417 | Fails if and only if every list from that order up is empty; the check on the free bytes never changes the outcome. Otherwise the address it returns is that of the new block, which lies in the pool. Neither corruption error can occur. |
| `BuddyAllocator.VMsvga2Allocator.BuddyAllocSize` | kexts/VMsvga2/AC/VMsvga2Allocator.cpp:423-450 | Reads off the bit map the first aligned order at which a block ends, and reports an error exactly if there is none. |
| `BuddyAllocator.VMsvga2Allocator.PageAt` | kexts/VMsvga2/AC/VMsvga2Allocator.cpp:432-440 | A pointer names page o if and only if it is the address of the o-th page and the pool has that many. |
| `BuddyAllocator.VMsvga2Allocator.MergeBuddies` | kexts/VMsvga2/AC/VMsvga2Allocator.cpp:670-747 | The merging loop of `Free`: it takes in free buddies only, keeps the invariant throughout, meets no corruption error, and stops at a block with no mergeable buddy. |
| `BuddyAllocator.VMsvga2Allocator.ClientWrite` | kexts/VMsvga2/AC/VMsvga2Allocator.h:35-37 | A client may write any word of any page that is not free; the invariant stays. |
| `ByteMap.TestAll` | kexts/VMsvga2/AC/VMsvga2Allocator.cpp:123-146 | True if and only if all bits of the range are set, the last whole byte apart, which the scan does not see. |
| `ByteMap.ClearAll` | kexts/VMsvga2/AC/VMsvga2Allocator.cpp:152-171 | Clears exactly the bits of the range, for every alignment, and for empty and inverted ranges. |
| `ByteMap.TestAny` | kexts/VMsvga2/AC/VMsvga2Allocator.cpp:202-225 | True if and only if some bit of the range is set, the last whole byte apart. |
| `ByteMap.MemAll` | kexts/VMsvga2/AC/VMsvga2Allocator.cpp:110-117 | True if and only if all bytes but the last are 0xFF. |
| `ByteMap.MemAny` | kexts/VMsvga2/AC/VMsvga2Allocator.cpp:189-196 | True if and only if some byte but the last is not 0. |
| `ByteMap.LastByteGoesUnseen` | kexts/VMsvga2/AC/VMsvga2Allocator.cpp:110-117 | A concrete map in which a clear last byte goes unnoticed. |
| `BuddyModel.PushKeepsLists` | kexts/VMsvga2/AC/VMsvga2Allocator.cpp:231-274 | Putting a block at the front of one doubly linked list keeps all thirteen lists, their links, headers and trailers intact. |
| `BuddyModel.UnlinkKeepsLists` | kexts/VMsvga2/AC/VMsvga2Allocator.cpp:698-746 | Taking a block out of any place of one list keeps all thirteen lists intact. |
| `Coalescing.TrailerIsGenuine` | kexts/VMsvga2/AC/VMsvga2Allocator.cpp:670-697 | When the bit of the last page of the buddy is clear, the word before the end of the buddy is the trailer of a free block that ends there, and it names the order being merged if and only if the whole buddy is one free block. |
| `Coalescing.FailureIsFinal` | kexts/VMsvga2/AC/VMsvga2Allocator.h:45-47 | If free blocks are coalesced, all lists from order b up are empty if and only if no aligned run of 2^b free pages exists. |
| `Coalescing.RunInsideBlock` | kexts/VMsvga2/AC/VMsvga2Allocator.h:45-47 | An aligned run of free pages lies inside a single free block. |
| `Coalescing.CanonicalBlocks` | kexts/VMsvga2/AC/VMsvga2Allocator.h:34-38 | Which pages are free decides how they are cut into free blocks. |
| `Coalescing.CanonicalUnique` | kexts/VMsvga2/AC/VMsvga2Allocator.cpp:280-341 | A range has only one cut in which no block could be doubled. |
| `Coalescing.PickOrder` | kexts/VMsvga2/AC/VMsvga2Allocator.cpp:306-337 | From any starting order the two inner loops of `toFree` find the largest aligned order that fits; the exit on a negative order is never taken. |
| `Coalescing.RiseThenFall` | kexts/VMsvga2/AC/VMsvga2Allocator.cpp:285-305 | Once the order had to be lowered it never rises again. |
| `BuddySpec.LiveSize` | kexts/VMsvga2/AC/VMsvga2Allocator.cpp:423-450 | For a live block the probe finds exactly the order it was given. |
| `BuddySpec.OrderForFits` | kexts/VMsvga2/AC/VMsvga2Allocator.cpp:582-589 | The order computed for a size is the least whose block holds it. |
| `BuddySpec.EmptyListsMeanNoBlock` | kexts/VMsvga2/AC/VMsvga2Allocator.cpp:353-362 | Empty lists, no sufficient block, and (when coalesced) no place for one are the same thing. |
| `BuddySpec.AllocatedFrame` | kexts/VMsvga2/AC/VMsvga2Allocator.cpp:347-417 | An allocation makes exactly the pages of the new block stop being free, and every page that was not free keeps its owner. |
| `BuddySpec.FreedFrame` | kexts/VMsvga2/AC/VMsvga2Allocator.cpp:641-771 | A free makes exactly the pages of the block free, and every other page that was not free keeps its owner. |
| `BuddySpec.ClientWritesConsistent` | kexts/VMsvga2/AC/VMsvga2Allocator.cpp:641-697 | Writes that stay off free pages leave every list, header, trailer and bit as they are. |
| `BuddySpec.AllocatedKeepsCoalesced` | kexts/VMsvga2/AC/VMsvga2Allocator.cpp:347-417 | An allocation leaves coalesced free blocks coalesced: the rest of the block it splits meets no free buddy. |
| `BuddySpec.FreedKeepsCoalesced` | kexts/VMsvga2/AC/VMsvga2Allocator.cpp:641-771 | So does a free: the merged block has no free buddy and is the buddy of none. |
| `BuddySpec.ShrunkKeepsCoalesced` | kexts/VMsvga2/AC/VMsvga2Allocator.cpp:593-639 | So does shrinking a block. |
| `BuddyRelease.ReleaseCoalesced` | kexts/VMsvga2/AC/VMsvga2Allocator.cpp:545-574 | After a release the free blocks are coalesced if and only if they were before and no free block beside the range is the buddy of a block at its end. |
| `BuddyRelease.LargestBlockSeams` | kexts/VMsvga2/AC/VMsvga2Accel.cpp:452-471 | Ranges between multiples of the largest block have no such buddies. |
| `BuddyRelease.SixteenMegabytes` | kexts/VMsvga2/AC/VMsvga2Accel.cpp:452-471 | The limit at which `setupAllocator` splits its releases is such a multiple. |
| `BuddyRelease.AdjacentReleasesBreakTheGuarantee` | kexts/VMsvga2/AC/VMsvga2Allocator.h:45-47 | Two releases that meet elsewhere: a block of two pages could be placed, and no free block is large enough. |
| `BuddyRelease.OversizeNeverFits` | kexts/VMsvga2/AC/VMsvga2Allocator.h:45-47 | Above the largest order the promise fails: 32 MB free and aligned, and no block of that size. |
| `BuddyRelease.MallocThenFree` | kexts/VMsvga2/AC/VMsvga2Allocator.cpp:347-417 | Allocating a block and freeing it restores the owner of every page. |
| `BuddyRuns.RunStaysCoalesced` | kexts/VMsvga2/AC/VMsvga2Allocator.cpp:347-771 | After any sequence of calls whose releases are clean no two free buddies of equal order exist below the top order. |
| `BuddyRuns.FailureIsFinalInEveryRun` | kexts/VMsvga2/AC/VMsvga2Allocator.h:45-47 | The promise of the header for every reachable state: a sufficient block exists if and only if a block can be placed. |
| `BuddyRuns.StepKeepsCoalesced` | kexts/VMsvga2/AC/VMsvga2Allocator.cpp:347-771 | No call but a release with an unclean end can leave two free buddies apart, and that one always does. |
| `BuddyRuns.PromiseForever` | kexts/VMsvga2/AC/VMsvga2Allocator.h:45-47 | The promise of the header survives every further sequence of calls with clean releases if and only if the free blocks are coalesced. |
| `BuddyRuns.BreakingCalls` | kexts/VMsvga2/AC/VMsvga2Allocator.h:45-47 | From two free buddies that stand apart, some sequence of allocations ends in a state that breaks the promise. |
| `BuddyRuns.Session.AskUntilRefused` | kexts/VMsvga2/AC/VMsvga2Allocator.h:45-47 | The allocator itself gets there: a client that keeps asking for blocks of twice the size of the pair is refused in the end, although such a block could be placed. |
| `BuddyPromise.CoalescedIsPromised` | kexts/VMsvga2/AC/VMsvga2Allocator.h:45-47 | Coalesced free blocks keep the promise for every order. |
| `BuddyPromise.PairBreaksPromise` | kexts/VMsvga2/AC/VMsvga2Allocator.h:45-47 | Two free buddies that stand apart break it once no larger block is free. |
| `BuddyRuns.HistoryDoesNotMatter` | kexts/VMsvga2/AC/VMsvga2Allocator.h:34-38 | Two histories that leave the same pages in use leave the same owner for every page. |
| `BuddyRuns.StepFrame` | kexts/VMsvga2/AC/VMsvga2Allocator.cpp:545-771 | One call releases exactly the pages it names and leaves every live block alone that it does not name. |
| `BuddyRuns.PagesAccountedFor` | kexts/VMsvga2/AC/VMsvga2Allocator.cpp:545-771 | In every reachable state a page is unreleased if and only if no call released it, and otherwise free or in a live block. |
| `BuddyRuns.LiveBlockStays` | kexts/VMsvga2/AC/VMsvga2Allocator.cpp:576-771 | A live block keeps its place and size through any number of calls that do not name it. |
| `BuddyRuns.LiveBlocksDisjoint` | kexts/VMsvga2/AC/VMsvga2Allocator.cpp:576-591 | Two blocks that are live at the same time share no page. |
| `BuddyRuns.Session.Serve` | kexts/VMsvga2/AC/VMsvga2Allocator.cpp:545-771 | The allocator is a heap: whatever a client asks, the pointers held change exactly as of a heap (a new one is not held yet, one given back is gone), `Realloc` brings along the bytes that fit, and every byte behind every other pointer stays. The call is recorded as the step of a run that it was. |
| `BuddyRuns.Session.NoOverlap` | kexts/VMsvga2/AC/VMsvga2Allocator.h:34-38 | In every state what clients hold lies inside the pool with all its bytes, and no two of them share a byte. |
| `BuddyRuns.Session.ReturnableIsFreeable` | kexts/VMsvga2/AC/VMsvga2Allocator.cpp:593-650 | What `Free` and `Realloc` ask of a pointer is that it is held, null, or no page of the pool; every live block is held by someone. |
| `BuddyHeap.HeldApart` | kexts/VMsvga2/AC/VMsvga2Allocator.h:34-38 | Pointers backed by different live blocks are at least their sizes apart. |
| `BuddyHeap.MovedWords` | kexts/VMsvga2/AC/VMsvga2Allocator.cpp:613-623 | A move brings the bytes of its block to the new address and leaves those of every other block alone. |
| `BuddyHeap.ReallocServed` | kexts/VMsvga2/AC/VMsvga2Allocator.cpp:593-639 | In all its cases `Realloc` of a pointer that is held acts on the heap as it should. |
| `BuddyHeap.HeldFreed` | kexts/VMsvga2/AC/VMsvga2Allocator.cpp:641-771 | Freeing a block takes exactly its pointer from those that are held. |
| `BuddyRuns.SetupAllocator` | kexts/VMsvga2/AC/VMsvga2Accel.cpp:423-478 | Which result is returned when. On success the pool is the mapping, from its address on; the invariant holds, free blocks are coalesced, nobody holds a pointer, and exactly the pages it meant to release are free. |
| `BuddyRuns.PlaceableFrom` | kexts/VMsvga2/AC/VMsvga2Accel.cpp:452-471 | When the pages from some page on are released, a block can be placed if and only if it fits between that page and the last multiple of its size. |
| `BuddyRuns.FirstMalloc` | kexts/VMsvga2/AC/VMsvga2Accel.cpp:423-478 | Exactly when the first allocation after the set-up succeeds; its block lies inside the mapping, on a page boundary. |
| `SvgaDevice.SVGADevice.constructor` | kexts/VMsvga2/FB/SVGADevice.cpp:316-351 | MIN, NEXT_CMD and STOP are 291 words, MAX is the size, the first fence is 1. The FIFO is empty, and from here on the words before MIN, where the registers are, and those from MAX on never change. |
| `SvgaDevice.SVGADevice.FIFOReserve` | kexts/VMsvga2/FB/SVGADevice.cpp:353-412 | Exactly which requests are refused. Any other request ends with room for it in a ring that is still not full, in the ring itself if and only if it fits before the end and the device allows it, which is then told of it in RESERVED. The wait ends because the pending words decrease. |
| `SvgaDevice.SVGADevice.FindRoom` | kexts/VMsvga2/FB/SVGADevice.cpp:377-395 | The tests on NEXT_CMD and STOP grant only what fits, choose the ring or the bounce buffer by the end of the ring, and otherwise make the device take something. |
| `SvgaDevice.SVGADevice.FIFOFull` | kexts/VMsvga2/FB/SVGADevice.cpp:88-92 | Reading BUSY makes the device take at least one word if there is any. |
| `SvgaDevice.SVGADevice.FIFOCommit` | kexts/VMsvga2/FB/SVGADevice.cpp:435-481 | By any of its three ways, and with the device reading at any moment between, exactly the words the client wrote are appended to the stream of commands, and no word outside the ring changes. RESERVED, where the device has it, ends at 0. A misaligned size, or no reservation, changes nothing. |
| `SvgaDevice.SVGADevice.CommitDwords` | kexts/VMsvga2/FB/SVGADevice.cpp:461-471 | After every turn of the dword loop the ring holds exactly the unread part of the stream so far. |
| `SvgaDevice.SVGADevice.CopyWrapped` | kexts/VMsvga2/FB/SVGADevice.cpp:454-460 | The two chunks store the words around the end of the ring, within what RESERVED says, and touch no unread word. |
| `SvgaDevice.SVGADevice.Publish` | kexts/VMsvga2/FB/SVGADevice.cpp:473-478 | Moving NEXT_CMD over stored words appends exactly them, and completes a fence if they end one. |
| `SvgaDevice.SVGADevice.FIFOCommitAll` | kexts/VMsvga2/FB/SVGADevice.cpp:483-487 | The whole reservation is appended. |
| `SvgaDevice.SVGADevice.WriteReserved` | kexts/VMsvga2/FB/SVGADevice.cpp:396-410 | A store into a reservation changes that one word, in the bounce buffer or behind NEXT_CMD, and no word that the device may read. |
| `SvgaDevice.SVGADevice.InsertFence` | kexts/VMsvga2/FB/SVGADevice.cpp:493-510 | Exactly when it returns 0 or 1; otherwise the stream ends in a fence command with the returned number, which is never 0. |
| `SvgaDevice.SVGADevice.HasFencePassed` | kexts/VMsvga2/FB/SVGADevice.cpp:512-519 | Of every fence of the stream it says exactly what the draws between that fence and the one in the register say (`Shown`). Within the window it never says yes of one that was not executed. |
| `SvgaDevice.SVGADevice.SyncToFence` | kexts/VMsvga2/FB/SVGADevice.cpp:521-542 | It returns. Any fence with that number which it leaves unexecuted is one that looks passed; within the window there is none, and every such fence was executed. Without the capability the FIFO is drained. |
| `SvgaDevice.SVGADevice.WindowHolds` | kexts/VMsvga2/FB/SVGADevice.cpp:493-542 | At most 2^31 numbers were drawn since the fence in the register, as long as fewer than 3/4 of 2^31 calls of `InsertFence` failed since: the ring is too small for more fences. |
| `SvgaDevice.SVGADevice.ReadBusy` | kexts/VMsvga2/vminclude/svga_reg.h:664-672 | BUSY reads as false exactly when nothing is left, and reading it makes progress. |
| `FifoRing.QueueConsume` | kexts/VMsvga2/FB/SVGADevice.cpp:353-412 | Advancing STOP takes the oldest words off the queue in the ring. |
| `FifoRing.QueuePublish` | kexts/VMsvga2/FB/SVGADevice.cpp:473-478 | Advancing NEXT_CMD appends the words stored behind the queue. |
| `FifoRing.QueueFrame` | kexts/VMsvga2/FB/SVGADevice.cpp:452-472 | Stores into the space behind the queue leave the queue as it is. |
| `FifoRing.ReserveTestMeaning` | kexts/VMsvga2/FB/SVGADevice.cpp:380-395 | The tests grant a request if and only if used space and request together stay below the size of the ring, and in place if and only if it also fits before the end. |
| `FifoRing.WholeRingNeverGranted` | kexts/VMsvga2/FB/SVGADevice.cpp:361-395 | A request for the whole ring passes the size check and is never granted. |
| `Fences.CounterStep` | kexts/VMsvga2/FB/SVGADevice.cpp:500-502 | The counter that wraps and skips 0 yields the numbers 1 to 2^32 - 1 in turn. |
| `Fences.PassedAhead` | kexts/VMsvga2/FB/SVGADevice.cpp:68 | Exactly when the comparison says that a later draw has passed: 2^31 draws ahead or more, one less across the wrap, or a whole round. |
| `Fences.PassedBehind` | kexts/VMsvga2/FB/SVGADevice.cpp:68 | Exactly when the comparison still says that an earlier draw has passed: less than 2^31 draws ago, one less across the wrap, counted without whole rounds. |
| `Fences.PassedNear` | kexts/VMsvga2/FB/SVGADevice.cpp:68 | For numbers drawn less than 2^31 - 1 apart the signed comparison orders them as they were drawn, across the wrap and the skipped 0. |
| `Fences.PassedExact` | kexts/VMsvga2/FB/SVGADevice.cpp:68 | Exactly what the comparison says of any fence of the stream, also before the first was executed: when it says yes of one that was not executed, and when it says no of one that was. |
| `Fences.PassedIsExecuted` | kexts/VMsvga2/FB/SVGADevice.cpp:68 | With at most 2^31 draws since the fence in the register, a fence that shows as passed was executed. |
| `Fences.RingKeepsWindow` | kexts/VMsvga2/FB/SVGADevice.cpp:353-412 | Fences that are not executed lie in the ring, so there are at most 2^31 draws since the fence in the register unless very many failed since. |
| `Fences.FailedKept` | kexts/VMsvga2/FB/SVGADevice.cpp:493-510 | What the device executes never raises the number of failed insertions since the fence in the register. |
| `Fences.FailedAppended` | kexts/VMsvga2/FB/SVGADevice.cpp:493-510 | Nor does a fence that reaches the stream. |
| `Fences.WindowKept` | kexts/VMsvga2/FB/SVGADevice.cpp:521-542 | What the device executes only narrows the window. |
| `Fences.ExecutedIsPassed` | kexts/VMsvga2/FB/SVGADevice.cpp:68 | An executed fence shows as passed for the next 2^31 - 1 draws. |
| `Fences.VeryOldFenceForgotten` | kexts/VMsvga2/FB/SVGADevice.cpp:68 | A fence 2^31 draws older no longer shows as passed. |
| `Fences.LostDrawsBreakTheTest` | kexts/VMsvga2/FB/SVGADevice.cpp:503-505 | One draw beyond the window, after 2^31 - 1 failed insertions, the younger of two fences shows as passed unexecuted. |
| `PresentThrottle.FenceTracker.constructor` | kexts/VMsvga2/AC/FenceTracker.h:38-42 | No fence is recorded. |
| `PresentThrottle.FenceTracker.Before` | kexts/VMsvga2/AC/FenceTracker.h:44-47 | The oldest of the last N fences. |
| `PresentThrottle.FenceTracker.After` | kexts/VMsvga2/AC/FenceTracker.h:49-55 | The oldest fence is dropped and the new one comes last. |
| `PresentThrottle.OutstandingAtMost` | kexts/VMsvga2/AC/FenceTracker.h:32-56 | If all presents but the last N are executed, at most N are outstanding. |
| `PresentThrottle.SyncedTo` | kexts/VMsvga2/AC/VMsvga2Accel.cpp:1214-1216 | Waiting for the oldest recorded fence leaves room for one more present. |
| `PresentThrottle.Accel.WaitForOldest` | kexts/VMsvga2/AC/VMsvga2Accel.cpp:1214-1216 | After the wait all presents but the last N - 1 are executed. |
| `PresentThrottle.Accel.BoundWithOneMore` | kexts/VMsvga2/AC/VMsvga2Accel.cpp:1216-1230 | The bound also holds between the present and its fence. |
| `PresentThrottle.Accel.OtherFence` | kexts/VMsvga2/FB/SVGADevice.cpp:493-510 | A fence that others insert is the next number, at the end of the stream, and does not disturb the bound. |
| `PresentThrottle.Accel.SurfacePresentAutoSync` | kexts/VMsvga2/AC/VMsvga2Accel.cpp:1199-1234 | Exactly when a present is sent; the present is in the stream and recorded with its fence, and the bound is kept. |
| `PresentThrottle.Accel.PresentAll` | kexts/VMsvga2/AC/VMsvga2Accel.cpp:1199-1234 | For any number of presents with any number of other fences between them, and nothing asked but that the FIFO answers each request: every call can be made in the state the one before it left, and at most N presents are outstanding. |
| `PresentThrottle.Accel.AtMostNOutstanding` | kexts/VMsvga2/AC/VMsvga2Accel.cpp:1199-1234 | In every reachable state at most N presents are outstanding. |
| `Gmr.CountRanges` | kexts/VMsvga2/AC/VMsvga2Accel.cpp:2150-2159 | The first pass counts the segments, or reports one that lies too high. |
| `Gmr.NextHelperPage` | kexts/VMsvga2/AC/VMsvga2Accel.cpp:2194-2205 | Across any physical pieces of the helper, the link gets the number of the page that comes next, and the last page gets none. |
| `Gmr.WriteTable` | kexts/VMsvga2/AC/VMsvga2Accel.cpp:2177-2206 | Every entry of every page is the right range, link or zero. |
| `Gmr.RoundTrip` | kexts/VMsvga2/vminclude/svga_reg.h:240-258 | Read by the rules of the device, a table yields exactly its ranges in order, for any number of them; the device reads exactly one entry per range and per page. |
| `Gmr.ReadsBack` | kexts/VMsvga2/vminclude/svga_reg.h:240-258 | The device reads the whole buffer back if and only if no segment begins on physical page 0 and none is too long for the 32-bit field of a descriptor. |
| `Gmr.CreateGMR` | kexts/VMsvga2/AC/VMsvga2Accel.cpp:2131-2213 | When it succeeds, and which error is returned when, condition by condition on its arguments; on success the device, with the number of reads that was checked, reads back exactly the segments, if and only if they fit the fields of a descriptor. |
| `Gmr.CreateSucceeds` | kexts/VMsvga2/AC/VMsvga2Accel.cpp:2145-2213 | The condition for success on its own, for `prepare`. |
| `Gmr.CreateGMR2` | kexts/VMsvga2/AC/VMsvga2Accel.cpp:2216-2270 | Exactly which result is returned when; on success the list is the pages of the buffer in order, cut to 32 bits. |
| `Gmr.EncodersAgree` | kexts/VMsvga2/AC/VMsvga2Accel.cpp:2185-2189 | The ranges of one encoder, page by page, are the list of the other. |
| `Gmr.PagesOfBytes` | kexts/VMsvga2/AC/VMsvga2Accel.cpp:2185-2189 | The pages listed for a segment are those that some byte of it lies on. |
| `Gmr.ListFits` | kexts/VMsvga2/AC/VMsvga2Accel.cpp:2230-2259 | The loop stays within the allocated list if and only if the bytes and the waste of the segments it visits fit the pages allocated for all; where it visits all, if and only if less than a page is wasted. |
| `Gmr.ListFull` | kexts/VMsvga2/AC/VMsvga2Accel.cpp:2230-2259 | A buffer has never fewer pages than entries are allocated for it, and exactly as many if and only if less than a page is wasted. |
| `Gmr.PageListExact` | kexts/VMsvga2/AC/VMsvga2Accel.cpp:2230-2259 | The list has one entry a page and puts every byte of the buffer where it is, if and only if all segments begin on page boundaries and all but the last end on one. |
| `Gmr.UnvisitedWasteIsHarmless` | kexts/VMsvga2/AC/VMsvga2Accel.cpp:2230-2259 | A buffer that wastes a page on a segment the loop does not reach. |
| `Gmr.AlignedWastesLittle` | kexts/VMsvga2/AC/VMsvga2Accel.cpp:2230-2259 | Page-aligned buffers waste less than a page. |
| `Gmr.FragmentsOverrun` | kexts/VMsvga2/AC/VMsvga2Accel.cpp:2230-2259 | Two half pages in different places, both visited, need two entries where one is allocated. |
| `IdMasks.LowestClear` | kexts/VMsvga2/AC/VMsvga2Accel.cpp:136 | `~x & (x + 1)` is the lowest clear bit alone, and 0 exactly for a full word. |
| `IdMasks.IncIsPlusOne` | kexts/VMsvga2/AC/VMsvga2Accel.cpp:136 | The carry of the modelled increment adds 1 and wraps. |
| `IdMasks.Log2of32` | kexts/VMsvga2/AC/VMsvga2Accel.cpp:80-92 | The number of the highest set bit, -1 for 0. |
| `IdMasks.Log2of64` | kexts/VMsvga2/AC/VMsvga2Accel.cpp:94-102 | The number of the highest set bit, -1 for 0. |
| `IdMasks.FindBit` | kexts/VMsvga2/AC/VMsvga2Accel.cpp:128-144 | Takes the lowest clear bit of the words searched and changes no other; -1 if and only if there is none. |
| `IdMasks.MaskRange` | kexts/VMsvga2/AC/VMsvga2Accel.cpp:146-165 | Sets exactly the bits of the range, for every alignment, and for empty and inverted ranges. |
| `Ids.IdPool.Alloc` | kexts/VMsvga2/AC/VMsvga2Accel.cpp:2037-2044 | The lowest free id of the whole mask although the search starts at the hint: all words before the hint are full. |
| `Ids.IdPool.Free` | kexts/VMsvga2/AC/VMsvga2Accel.cpp:2054-2060 | Frees exactly that id and keeps the hint sound; ids beyond the mask are ignored. |
| `Ids.GMRIds.constructor` | kexts/VMsvga2/AC/VMsvga2Accel.cpp:592 | No id is in use and those the device lacks are never handed out. |
| `Ids.GMRIds.AllocGMRID` | kexts/VMsvga2/AC/VMsvga2Accel.cpp:2031-2047 | The lowest id not in use, below 128 and below what the device has; -1 if and only if there is none. |
| `Ids.GMRIds.FreeGMRID` | kexts/VMsvga2/AC/VMsvga2Accel.cpp:2050-2062 | Exactly that id is no longer in use, and it is harmless for an id that is not. |
| `Ids.UnmanagedIds.Surfaces` | kexts/VMsvga2/AC/VMsvga2Accel.cpp:1952-1969 | Four words of ids, none of them in use. |
| `Ids.UnmanagedIds.Contexts` | kexts/VMsvga2/AC/VMsvga2Accel.cpp:1987-1997 | One word of ids, none of them in use. |
| `Ids.UnmanagedIds.AllocID` | kexts/VMsvga2/AC/VMsvga2Accel.cpp:1952-1969 | The lowest free id of the mask, or one counted up; with a full mask it is new if and only if the 32-bit counter has not come around, and its top bit is clear while fewer than 2^31 were counted up. |
| `Ids.UnmanagedIds.FreeID` | kexts/VMsvga2/AC/VMsvga2Accel.cpp:1972-1984 | An id of the mask is free again; one that was counted up stays in use for good. |
| `TransferBuffers.TransferBuffers.constructor` | kexts/VMsvga2/AC/VendorTransferBuffer.cpp:52-55 | No buffer has an id and the device has no definition. |
| `TransferBuffers.TransferBuffers.Prepare` | kexts/VMsvga2/AC/VendorTransferBuffer.cpp:58-89 | When it succeeds, condition by condition on its arguments, and which code it returns otherwise. On success the buffer has the lowest id that was not in use, defined in the device, and its memory wired, and nothing else about it changes; after any failure everything is as before. |
| `TransferBuffers.TransferBuffers.DefineGMR` | kexts/VMsvga2/AC/VendorTransferBuffer.cpp:78 | The device's definition of the new id is what it reads from the table: the segments of the buffer, exactly if they fit the descriptors. |
| `TransferBuffers.TransferBuffers.DefinitionOfHolder` | kexts/VMsvga2/AC/VendorTransferBuffer.cpp:57-111 | In every reachable state each definition in the device belongs to exactly one buffer and is that buffer's memory, segment by segment, exactly if the segments fit the descriptors. |
| `TransferBuffers.TransferBuffers.Sync` | kexts/VMsvga2/AC/VendorTransferBuffer.cpp:92-98 | Afterwards the device has executed everything that uses the buffer. |
| `TransferBuffers.TransferBuffers.Complete` | kexts/VMsvga2/AC/VendorTransferBuffer.cpp:101-111 | The definition is removed only after the device executed everything that uses the buffer; then id and definition are given up together, and the memory, if it is still attached, is no longer wired. |
| `TransferBuffers.TransferBuffers.Discard` | kexts/VMsvga2/AC/VendorTransferBuffer.cpp:114-120 | The buffer loses its memory and nothing else changes: memory that is wired stays so. |
| `TransferBuffers.TransferBuffers.Use` | kexts/VMsvga2/AC/VMsvga2Accel.cpp:1110-1111 | The fence recorded for a buffer lies behind all commands that use it. The buffer keeps its id and its memory, and no reservation stays open, so that any order of further calls is possible. |
| `TransferBuffers.OwnedTaken` | kexts/VMsvga2/AC/VendorTransferBuffer.cpp:67-81 | Taking a free id for a buffer keeps each id with one buffer and none without. |
| `TransferBuffers.OwnedDropped` | kexts/VMsvga2/AC/VendorTransferBuffer.cpp:106-110 | So does giving it up. |
| `Clipping.ClipRegionToBuffer` | kexts/VMsvga2/AC/UC/VMsvga2Surface.cpp:421-452 | Every rectangle is clipped on both axes, 16-bit stores included. No size is negative, a corner moves only to where the buffer begins, and an axis on which the stores lose nothing is as long as the part of it that falls into the buffer. |
| `Clipping.ClipAxisExact` | kexts/VMsvga2/AC/UC/VMsvga2Surface.cpp:431-450 | On one axis exactly the pixels whose moved position lies in the buffer are kept, if and only if the stores lose nothing. |
| `Clipping.ClippedLength` | kexts/VMsvga2/AC/UC/VMsvga2Surface.cpp:431-450 | A clipped span is never of negative length; where the stores lose nothing its length is the number of pixels that fall into the buffer, and so 0 where none do. |
| `Clipping.ClipRectExact` | kexts/VMsvga2/AC/UC/VMsvga2Surface.cpp:421-452 | A rectangle keeps exactly its pixels that fall into the buffer, if and only if both axes fit or one fits and leaves nothing. |
| `Clipping.SmallNumbersFit` | kexts/VMsvga2/AC/UC/VMsvga2Surface.cpp:431-450 | Plain bounds under which nothing is lost. |
| `Clipping.FarLeftWraps` | kexts/VMsvga2/AC/UC/VMsvga2Surface.cpp:431-435 | A span far to the left of the buffer comes out with 25636 pixels where none should be left. |
| `Blit.LeadingRows` | kexts/VMsvga2/AC/VMsvga2Accel.cpp:1883-1886 | The rows before the first one that is not wholly in both windows. |
| `Blit.CopyRect` | kexts/VMsvga2/AC/VMsvga2Accel.cpp:1880-1892 | The row loop copies exactly those rows: after the first row outside it never moves on. |
| `Blit.GenericBlitCopy` | kexts/VMsvga2/AC/VMsvga2Accel.cpp:1854-1895 | All rectangles in turn, empty ones skipped. |
| `Blit.BlitStaysInside` | kexts/VMsvga2/AC/VMsvga2Accel.cpp:1883-1892 | No byte outside the destination window changes, whatever the rectangles and strides. |
| `Blit.RowLoopExact` | kexts/VMsvga2/AC/VMsvga2Accel.cpp:1883-1892 | The loop misses no row that lies in both windows if and only if the first row does, or no row does. |
| `Blit.LeftOverhangCopiesNothing` | kexts/VMsvga2/AC/VMsvga2Accel.cpp:1883-1892 | A rectangle one pixel to the left: only its first row sticks out, and none is copied. |
| `Blit.RowsRightExact` | kexts/VMsvga2/AC/VMsvga2Accel.cpp:1880-1892 | Every row that belongs into both images is copied, and every copied row is copied from and to where it belongs, if and only if neither row offset wraps and the first row belongs into both, or no row belongs there and the first is not taken to. |
| `Blit.TopOverhangWraps` | kexts/VMsvga2/AC/VMsvga2Accel.cpp:1880-1881 | A rectangle that begins one row above the destination: its offset wraps, and the two rows that belong there are not copied. |
| `Blit.FarAboveIsMisplaced` | kexts/VMsvga2/AC/VMsvga2Accel.cpp:1880-1881 | A rectangle 4 GB above the destination: its offset wraps to 0, and three rows that do not belong there are copied. |
| `Blit.BlitBytes` | kexts/VMsvga2/AC/VMsvga2Accel.cpp:1854-1895 | For all rectangles, strides and deltas every byte ends as the last copied row that covers it brought it from the original source. |
| `Blit.BlitPixels` | kexts/VMsvga2/AC/VMsvga2Accel.cpp:1854-1895 | Every byte of a copied pixel comes from the same byte of the same pixel in the source, every other byte stays; overlaps and order make no difference. |
| `Blit.ClipThenBlit` | kexts/VMsvga2/AC/UC/VMsvga2Surface.cpp:1935-1968 | Clipping and then blitting copies exactly the pixels of the region that fall into the buffer. |
| `Blit.CopyRegion` | kexts/VMsvga2/AC/UC/VMsvga2Surface.cpp:1935-1968 | The two calls together, on memory. |

## Left out

- Free: pointers to the inside of a live block, and stale pointers, are excluded; the driver cannot tell them from live ones in every case.
- Realloc: the same pointers are excluded. The path that frees the new block again because freeing the old one failed is shown to be dead and is not written out.
- Serve: `Rebase` is not among the requests; it moves the pool away from under the pointers that are held.
- Release: a range that was released before is excluded where the bit test does not notice it.
- FIFOReserve: a request of exactly the size of the ring that gets past the other refusals is excluded, because it never returns. The source writes the reserved size before the wait; the model does so when the request is granted, which nobody can observe in between.
- OtherFence: an open reservation is allowed only while fewer than 3/4 of 2^31 insertions failed since the fence in the register; the driver inserts fences only after a commit, and with none open nothing is asked. The constructors of `Accel` and `TransferBuffers` ask the same of the device they are given, which a fresh one meets.
- SurfacePresentAutoSync: requests of exactly the size of the ring that would wait for ever are excluded. The rectangles of the present are words of the command here; how they are computed is not modelled.
- FIFOCommit: commits larger than the reservation are excluded. The modelled device learns of a fence from the `fence` flag of the commit; only `InsertFence` emits the command, so other commits do not contain it.
- CreateGMR2: buffers for which the loop would write past the end of its list are excluded; `ListFits` says which these are.
- FreeGMRID: ids below 128 that the device lacks are excluded; freeing one would hand it out.
- Use: an open reservation is excluded; the driver holds its lock from reservation to commit.
- ClipRegionToBuffer: sums of a coordinate and a delta are whole numbers; the source adds in a 32-bit `int`, where overflow is undefined.
- CopyRegion: rectangles that clip wrongly, source rows outside the source, and overlapping images are excluded.
- BlitBytes: images that share bytes are excluded; `CopyRect` and `GenericBlitCopy` cover those whose single rows do not overlap.
- RowsRightExact: addresses are 64 bits wide or more. Where `IOVirtualAddress` has 32 bits the sum wraps back, and a row offset that wrapped does no harm.
- BlitPixels: copied rectangles whose rows run past the end of an image row, or whose row offset wraps, have no meaning as pixels; `BlitBytes` covers them.
- GenericBlitCopy: rows whose source and destination overlap are excluded (`memcpy` is undefined there). Addresses are whole numbers; a sum that leaves the 64-bit address space is not modelled.
- The build without FRAGILE: zeroing of released and reallocated memory and the extra bit checks are not modelled.
- Null checks of out-pointers, descriptors and providers: the model has no null there.
- HostRuns: the device moves STOP only past words it has executed, and shows in FENCE the last fence it executed.
- Store order between guest and device: the device sees the guest's stores in the order they are written.
- Locks, port I/O, memory maps, logging, IOKit object life cycles: environment only.
- Stream ids: the same search on one 32-bit word, without a hint or counted-up ids.
- `detectBlitBug`, `VMsvga2Surface::allocBacking` and the fallback to `bounds` for a region without rectangles: they step outside the parts modelled here.
- The SVGA3D and screen command packers, the user clients, the GA and GLD plug-ins, QEMU helpers: forwarding and fixed tables that would only add easy members.
