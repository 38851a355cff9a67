# A verified model of Vortex

This project models parts of the Vortex GPGPU (its device memory allocator, the SimX simulator and
the kernel library) in Dafny and proves what they are for. `dafny verify dfyconfig.toml` checks it.

| modules | what they model |
|---|---|
| `Tiles`, `MemBlocks`, `MemSpec`, `MemLive`, `MemCapacity`, `MemAlloc` | the device memory allocator: linked blocks and pages refine tilings of address ranges |
| `SimtMachine`, `SimtKernel`, `SimtWarp` | SPLIT, JOIN and branches of a warp; structured kernels against one thread at a time |
| `CacheAddr`, `CacheBank`, `CacheTraffic`, `CacheSim`, `CacheDrain` | the non-blocking cache: address slicing, MSHR, fills and replays, what is sent to memory, a whole tick, and running empty |
| `LaneTable`, `Coalescer`, `Lsu`, `Demux`, `Adapter` | coalescing of lane requests, the load/store unit, the split between local memory and data cache, the port adapter |
| `Switches`, `Dispatch` | the tagging round-robin switch; splitting warp traces into packets |
| `Barrier` | warp scheduling, local barriers, wspawn fork and join |
| `Spawn` | how `vx_spawn_threads` shares out a grid |
| `Acl` | the access control map of the simulated memory |
| `Raster`, `TileBuffer` | the rasterizer's quad-tree descent; binning into tiles and reading the tiles back |
| `Printf`, `Layout`, `Format`, `Directives` | the kernel's printf: integer and text output, its layout, parsing of the format, and what each directive writes |
| `Arith`, `SeqEdits`, `Wrappers` | division, powers of two, bits, insertion and removal in sequences, optional values |

Objects that the simulator updates in place are classes with the same fields; linked lists are
linked objects. Each method is proved against a function or relation on values, and the theorems
are lemmas about those. The environment is left open: memory answers every read once, in any order,
with any delay; ports are queues; a method takes the answer at hand as a parameter.

Where the code does not do what one would expect, the exact condition is proved and a witness given:

- The first page of the allocator may exceed the capacity (`MemLive.CapacityKept`,
  `MemLive.FirstPageTooLarge`), and with a base address past the capacity a second page may too
  (`MemCapacity.PassesExactly`, `MemCapacity.SecondPasses`).
- A split looks at the low bit of the predicate, the branch behind it at the whole register
  (`SimtKernel.SplitBranchExact`, `SimtKernel.SplitThenAborts`).
- `ACLManager::check` with size 0 can refuse (`Acl.NoDenialOfNothing`, `Acl.EmptyRangeRefused`).
- The packed pixel position is right for even tile origins below 2^15 only (`Raster.PosMaskExact`,
  `Raster.OddOriginIsMisplaced`).
- Work is lost between cores when more than one item is left over (`Spawn.SharesTile`,
  `Spawn.ItemIsLost`).
- A tag comes back from stacked switches only if it fits beside all slots (`Switches.TagSurvives`,
  `Switches.TagLost`).
- A switch serves only its first num_outputs * R inputs, where R is the number of slots an output
  has (`Switches.GrantedWithinRing`, `Switches.FifthInputStarves`).
- A sign is dropped when the digits, or the zeros a precision or a zero-padded field asks for, fill
  the 32-character digit buffer (`Printf.SignKept`, `Printf.SignLost`).
- The prefix of a number takes the place of its first digits when the number fills its field
  (`Layout.PrefixCost`, `Directives.PrefixedDirective`, `Directives.PrefixTakesDigits`).

The kernel library's documentation of printf says nothing about the last two cases, the switch's about
the one before them, and the comment in `reserve` about capacity does not cover pages placed by
`allocate`; the model follows the code.

## Model

| member | source | states |
|---|---|---|
| `Tiles.TilingPartitions` | `sim/common/mem_alloc.h:232-309` | in a tiled page every address lies in exactly one block, used or free |
| `Tiles.AllocTiling` | `sim/common/mem_alloc.h:232-255` | splitting a free block, or handing it out whole, leaves the page exactly tiled |
| `Tiles.AllocSpans` | `sim/common/mem_alloc.h:232-255` | an allocation takes one free span away and puts back only what is left over behind it |
| `Tiles.AllocUsed` | `sim/common/mem_alloc.h:232-255` | an allocation adds one used span of the size given out, and its bytes, and touches no other |
| `Tiles.AllocCoalesced` | `sim/common/mem_alloc.h:232-255` | no two free blocks touch after an allocation if none did before |
| `Tiles.FreeTiling` | `sim/common/mem_alloc.h:257-309` | joining a released block with its neighbours leaves the page exactly tiled |
| `Tiles.FreeCoalesced` | `sim/common/mem_alloc.h:257-309` | after a release no two free blocks touch, whichever neighbours were joined |
| `Tiles.FreeUsed` | `sim/common/mem_alloc.h:257-309` | a release removes exactly the released block from the used blocks, and its bytes |
| `Tiles.FreeNeighbours` | `sim/common/mem_alloc.h:264-305` | the neighbours in the address-ordered free list touch the released block exactly when the adjacent tiles are free, so looking at the list alone finds both merges |
| `Tiles.FreeCoalesces` | `sim/common/mem_alloc.h:264-305` | merging with list neighbours first left, then right, gives the free list of the page with that tile freed |
| `Tiles.EmptyPageIsOneTile` | `sim/common/mem_alloc.h:219-226` | a coalesced page without used blocks is one free block that spans the page |
| `Tiles.AllocThenFree` | `sim/common/mem_alloc.h:232-309` | freeing a block that was just carved out of a free one gives back the page as it was |
| `MemBlocks.Page.InsertFreeMList` | `sim/common/mem_alloc.h:363-380` | the block goes into the address-ordered doubly linked list at the first place whose block is not below it; all links stay consistent |
| `MemBlocks.Page.RemoveFreeMList` | `sim/common/mem_alloc.h:382-393` | exactly this block leaves the list; forward and back pointers around it agree |
| `MemBlocks.Page.InsertFreeSList` | `sim/common/mem_alloc.h:395-412` | the block goes into the list by decreasing size, which stays sorted and linked both ways |
| `MemBlocks.Page.RemoveFreeSList` | `sim/common/mem_alloc.h:414-425` | exactly this block leaves the size list; links stay consistent |
| `MemBlocks.Page.InsertUsedList` | `sim/common/mem_alloc.h:342-348` | the block becomes the head of the used list, linked both ways |
| `MemBlocks.Page.RemoveUsedList` | `sim/common/mem_alloc.h:350-361` | exactly this block leaves the used list; links stay consistent |
| `MemBlocks.Page.Carve` | `sim/common/mem_alloc.h:232-251` | the block leaves both free lists; a remainder of at least blockAlign becomes a new block in both, a smaller one stays with the block |
| `MemBlocks.Page.Allocate` | `sim/common/mem_alloc.h:232-255` | over linked blocks: the page stays valid, its tiling changes by this one allocation, and the block heads the used list |
| `MemBlocks.Page.CoalesceLeft` | `sim/common/mem_alloc.h:265-285` | the released block is merged into the free block before it when they touch, on both lists, and never otherwise |
| `MemBlocks.Page.CoalesceRight` | `sim/common/mem_alloc.h:288-305` | the free block after the released one is merged into it when they touch, on both lists, and never otherwise |
| `MemBlocks.Page.Release` | `sim/common/mem_alloc.h:257-309` | over linked blocks: the page stays valid and its tiling is the old one with exactly this block freed and coalesced |
| `MemBlocks.Page.FindFreeBlock` | `sim/common/mem_alloc.h:311-326` | null exactly when nothing fits; otherwise a free block that fits and no smaller fitting one exists |
| `MemBlocks.Page.FindUsedBlock` | `sim/common/mem_alloc.h:328-338` | finds a used block exactly when one starts at the address |
| `MemBlocks.Page.Destroy` | `sim/common/mem_alloc.h:219-226` | both assertions of the page destructor hold whenever no block is used: the list is one block, and it spans the page |
| `MemSpec.AlignSize` | `sim/common/mem_alloc.h:529-532` | the smallest multiple of the alignment that is not below the size |
| `MemSpec.GapIsFree` | `sim/common/mem_alloc.h:482-511` | the address found for a new page overlaps no page |
| `MemSpec.NextAddressIsFree` | `sim/common/mem_alloc.h:482-511` | findNextAddress gives a place where a page of that size overlaps none that exists |
| `MemSpec.ReserveKeeps` | `sim/common/mem_alloc.h:63-96` | reserve, accepted or refused, keeps the allocator invariant |
| `MemSpec.AllocateKeeps` | `sim/common/mem_alloc.h:98-143` | allocate, from an old page or a new one, keeps the allocator invariant |
| `MemSpec.ReleaseKeeps` | `sim/common/mem_alloc.h:145-176` | release, with or without deleting the page, keeps the allocator invariant |
| `MemSpec.RunKeeps` | `sim/common/mem_alloc.h:63-176` | in every state of every run of reserve, allocate and release, pages are sorted and apart, each is tiled by coalesced blocks with one used among them, and allocated_ is the sum of the used sizes |
| `MemLive.TilesDisjoint` | `sim/common/mem_alloc.h:63-176` | blocks of the same or different pages never overlap and are not empty |
| `MemLive.LiveDisjoint` | `sim/common/mem_alloc.h:63-176` | two live allocations never share an address |
| `MemLive.AllocateLive` | `sim/common/mem_alloc.h:98-143` | a successful allocation adds exactly one live span, at least as large as asked and apart from all others |
| `MemLive.ReserveLive` | `sim/common/mem_alloc.h:63-96` | a successful reservation adds exactly its own range to the live spans |
| `MemLive.ReleaseLive` | `sim/common/mem_alloc.h:145-176` | release succeeds exactly on the start of a live span and removes that span alone; otherwise nothing changes |
| `MemLive.AllocateThenRelease` | `sim/common/mem_alloc.h:98-176` | releasing what was just allocated restores pages, blocks and the byte count exactly |
| `MemLive.CapacityKept` | `sim/common/mem_alloc.h:117-143` | allocations stay below the capacity exactly when a page exists or the new page fits at the base address: the first page is placed unchecked |
| `MemLive.FirstPageTooLarge` | `sim/common/mem_alloc.h:117-143` | witness: with a capacity of 4096 bytes the first allocation, of 5000, succeeds and its page ends at 8192 |
| `MemLive.NoAddressMeans` | `sim/common/mem_alloc.h:482-511` | a new page is refused exactly when there is a page, no gap is large enough and the space after the last page is too small |
| `MemCapacity.AllocateRefuses` | `sim/common/mem_alloc.h:98-143` | an allocation fails exactly when it asks for nothing or has no place for the address, or there is a page, no free block fits and no gap or end space is large enough; then nothing changes |
| `MemCapacity.AllocateTakes` | `sim/common/mem_alloc.h:98-143` | while a free block fits, the address is that of a smallest fitting block in the first page that has one |
| `MemCapacity.AllocatePlaces` | `sim/common/mem_alloc.h:117-143` | otherwise a new page of the rounded size lies at the base address, in the first gap that is large enough, or behind the last page within the capacity |
| `MemCapacity.PageOrigin` | `sim/common/mem_alloc.h:63-176` | a page after a step was there before with the same place and size, or a reservation within the capacity or an allocation placed it |
| `MemCapacity.CapacityStays` | `sim/common/mem_alloc.h:63-176` | reserve and release keep all pages below the capacity, and so does an allocation while there is a page |
| `MemCapacity.PassesExactly` | `sim/common/mem_alloc.h:63-176` | only pages that were placed while there was no page pass the capacity in every run, exactly when the base address lies within the capacity, no page fits below it, or the base leaves no room for two pages below itself |
| `MemCapacity.SecondPasses` | `sim/common/mem_alloc.h:482-511` | otherwise three operations place a second page past the capacity: the gap in front of a page that lies past it is not checked |
| `MemAlloc.MemoryAllocator.HasPageOverlap` | `sim/common/mem_alloc.h:513-527` | true exactly when some page touches or overlaps the range |
| `MemAlloc.MemoryAllocator.FindNextAddress` | `sim/common/mem_alloc.h:482-511` | the walk over the linked pages finds the first gap, or the end, or nothing, as specified on the page list |
| `MemAlloc.MemoryAllocator.CreatePage` | `sim/common/mem_alloc.h:442-460` | the new page is linked in at its place in address order; all other pages stay |
| `MemAlloc.MemoryAllocator.DeletePage` | `sim/common/mem_alloc.h:462-480` | exactly this page is unlinked |
| `MemAlloc.MemoryAllocator.Reserve` | `sim/common/mem_alloc.h:63-96` | over linked pages and blocks, reserve returns 0 exactly when the size is positive, the rounded range ends within the capacity and every page ends before it or begins behind it; the state changes as specified and the invariant is kept |
| `MemAlloc.MemoryAllocator.Allocate` | `sim/common/mem_alloc.h:98-143` | over linked pages and blocks, allocate does exactly the specified step: first page with a fitting block, best fit in it, else a new page |
| `MemAlloc.MemoryAllocator.Release` | `sim/common/mem_alloc.h:145-176` | over linked pages and blocks, release does exactly the specified step, deleting the page when it becomes empty |
| `SimtMachine.NestedDepth` | `sim/simx/execute.cpp:1329-1354` | with masks nested strictly, stack depth plus active threads never exceeds the number of threads |
| `SimtMachine.NestedKept` | `sim/simx/execute.cpp:1322-1383` | every instruction keeps each stacked mask strictly above the one over it and above the current mask, and never aborts with a full stack |
| `SimtMachine.RunNeverFull` | `sim/simx/execute.cpp:1339-1354` | in every run of every program the stack stays at most num_threads - 1 deep and the 'stack is full' abort is never reached |
| `SimtMachine.BranchOrder` | `sim/simx/execute.cpp:582-630` | the laws of the six comparisons: BLTU is a strict total order with w below w + 1, BLT is that order with the top bits turned over, BGEU, BGE and BNE are the opposites of BLTU, BLT and equality |
| `SimtMachine.LargerSideFirst` | `sim/simx/execute.cpp:1333-1354` | a divergent split goes on with the larger set of threads, the set bits first when the sets are equal, and saves the other with the mask and the next instruction |
| `SimtKernel.Correct` | `sim/simx/execute.cpp:571-644` | any structured statement, nested to any depth, runs to its end and leaves mask, stack and every thread as its meaning says |
| `SimtKernel.DivergentRun` | `sim/simx/execute.cpp:1339-1383` | a split with threads on both sides runs both bodies, one after the other, and reconverges on the full mask |
| `SimtKernel.KernelMeansThreads` | `sim/simx/execute.cpp:1322-1383` | a structured kernel, whose conditions are values or any of the six comparisons of two registers, ends with the original mask and stack, leaves inactive threads alone, and gives each active thread the registers it would have got alone |
| `SimtKernel.TakenMeans` | `sim/simx/execute.cpp:582-630` | the machine branches as the comparison of words, unsigned or as two's complement numbers, says |
| `SimtKernel.NoAbortBefore` | `sim/simx/execute.cpp:633-641` | a run that gets to its end met no divergent branch and no full or empty stack on the way |
| `SimtKernel.SplitBranchExact` | `sim/simx/execute.cpp:1334-1336` | the branch after a split is uniform on both sides exactly when no active thread holds 0 while another holds an even number that is not 0: the split reads one bit, the branch the whole register |
| `SimtKernel.SplitThenAborts` | `sim/simx/execute.cpp:1334-1336` | witness: with predicates 0 and 2 the split keeps both threads together and the branch behind it is the divergent one that aborts |
| `SimtWarp.Warp.ExecuteBranch` | `sim/simx/execute.cpp:571-644` | the loop over the threads aborts exactly when two active threads disagree, else moves the program counter as the machine does, whose comparisons have the laws of BranchOrder |
| `SimtWarp.Warp.ExecuteSplit` | `sim/simx/execute.cpp:1322-1360` | masks, stack and result register after the loops equal those of the machine |
| `SimtWarp.Warp.ExecuteJoin` | `sim/simx/execute.cpp:1361-1383` | the two visits to a stack entry, and the empty-stack abort, are those of the machine |
| `SimtWarp.Warp.Execute` | `sim/simx/execute.cpp:1549-1562` | committing program counter and mask after any instruction equals one step of the machine |
| `CacheAddr.GetWMeans` | `sim/common/bitmanip.h:100-105` | the 64-bit double shift reads exactly the bits from start to end |
| `CacheAddr.ClrWMeans` | `sim/common/bitmanip.h:84-90` | clearing with the complement of the shifted mask takes away exactly the bits from start to end |
| `CacheAddr.MemAddrMeans` | `sim/simx/cache_sim.cpp:96-105` | three writes by mask, shift and or put bank, set and tag side by side above the line bits |
| `CacheAddr.AddressRoundTrip` | `sim/simx/cache_sim.cpp:75-105` | taking an address apart and putting it together clears its line bits and nothing else, for every geometry |
| `CacheAddr.FieldsRoundTrip` | `sim/simx/cache_sim.cpp:75-105` | every bank, set and tag that fit are read back from the address made of them |
| `CacheAddr.LineIdentity` | `sim/simx/cache_sim.cpp:75-94` | two addresses agree on bank, set and tag exactly when they are in the same line |
| `CacheBank.ReplayKeeps` | `sim/simx/cache_sim.cpp:262-272` | popping a replay keeps the bank invariant |
| `CacheBank.FillRootWaits` | `sim/simx/cache_sim.cpp:248-260` | the assertion in replay holds: the entry an outstanding fill names is a waiting miss, and its line exists |
| `CacheBank.FillKeeps` | `sim/simx/cache_sim.cpp:590-599` | a fill keeps the bank invariant: one outstanding fill per missing line, none for a resident line, no tag twice in a set |
| `CacheBank.AcceptedHasSlot` | `sim/simx/cache_sim.cpp:506-511` | an accepted request that may miss always finds a free MSHR entry |
| `CacheBank.CoreKeeps` | `sim/simx/cache_sim.cpp:612-728` | a core request, hit or miss, keeps the bank invariant and asks memory only for lines with no fill outstanding |
| `CacheBank.ReplayConserves` | `sim/simx/cache_sim.cpp:600-611` | a replay answers exactly what its entry owed |
| `CacheBank.FillConserves` | `sim/simx/cache_sim.cpp:590-599` | a fill answers nothing and loses nothing |
| `CacheBank.CoreConserves` | `sim/simx/cache_sim.cpp:612-728` | a core request is answered at once or owed by its entry: never both, never neither |
| `CacheBank.NeverStuck` | `sim/simx/cache_sim.cpp:451-511` | while the MSHR holds anything, a replay is ready or a fill is outstanding |
| `CacheBank.DrainAnswersAll` | `sim/simx/cache_sim.cpp:451-475` | in whatever order memory answers, every owed response is given exactly once |
| `CacheTraffic.FieldsByAddress` | `sim/simx/cache_sim.cpp:75-105` | bank, set and tag of an address are its bits above the line, above the bank and above the set, and together they stand for the address without the line bits |
| `CacheTraffic.CoreServes` | `sim/simx/cache_sim.cpp:612-728` | by the address of the request its bank takes: a write-through goes to its line once; a hit sends nothing; a miss waits in a free entry, reads its own line unless an entry waits for it, and writes a dirty victim back to the victim's own line |
| `CacheTraffic.ReplaySettles` | `sim/simx/cache_sim.cpp:262-272` | a replay frees the first entry to be replayed and nothing else |
| `CacheTraffic.FillSettles` | `sim/simx/cache_sim.cpp:590-599` | a fill gives the line its tag and turns exactly the entries waiting for that line into replays |
| `CacheTraffic.AsksFor` | `sim/simx/cache_sim.cpp:600-611` | a request asks for one response with its own tag on its own port, unless it is a write and writes are not answered |
| `CacheSim.MshrPop` | `sim/simx/cache_sim.cpp:262-272` | the loop frees the first replay entry and gives its request, or changes nothing |
| `CacheSim.MshrLookup` | `sim/simx/cache_sim.cpp:224-233` | true exactly when an occupied entry is for the same set and tag |
| `CacheSim.MshrAllocate` | `sim/simx/cache_sim.cpp:235-246` | the loop takes the first free entry, or reports -1 and changes nothing |
| `CacheSim.MshrReplay` | `sim/simx/cache_sim.cpp:248-260` | the loop turns every waiting entry of the root's line into a replay and no other |
| `CacheSim.TagLookup` | `sim/simx/cache_sim.cpp:613-637` | one pass finds the hit line, a free line, the first line with the largest counter, and ages the lines |
| `CacheSim.ProcessKeeps` | `sim/simx/cache_sim.cpp:582-731` | whatever work the bank was given, its invariant holds afterwards with the fills it asked for added |
| `CacheSim.ProcessBank` | `sim/simx/cache_sim.cpp:582-731` | the code for fill, replay and core requests computes exactly the specified bank step |
| `CacheSim.ScheduleReplays` | `sim/simx/cache_sim.cpp:451-456` | every bank with a replay ready is given its first one |
| `CacheSim.ScheduleFills` | `sim/simx/cache_sim.cpp:458-475` | a bank without a replay is given the first memory answer queued for it |
| `CacheSim.ScheduleCore` | `sim/simx/cache_sim.cpp:477-547` | ports are served in order: a request leaves its port exactly when its bank is idle and has room, and each bank takes at most one |
| `CacheSim.TickBanks` | `sim/simx/cache_sim.cpp:446-551` | a tick over all banks keeps every bank's invariant and balances requests taken, responses given and responses owed |
| `CacheSim.Cache.Tick` | `sim/simx/cache_sim.cpp:446-551` | every tick keeps accepted requests equal to responses sent plus responses held; each bank serves the front request of one port, sending memory just the line reads, write-throughs and write-backs that the request's address says, or sends nothing and replays, fills or rests |
| `CacheSim.Cache.AllAnswered` | `sim/simx/cache_sim.cpp:600-611` | once the MSHRs are empty every accepted request was answered exactly once on its own port |
| `CacheDrain.TickProgress` | `sim/simx/cache_sim.cpp:446-551` | while a request waits or a bank holds one, a tick takes a request or leaves the banks with less to do, as long as memory answers what it owes |
| `CacheDrain.Drain` | `sim/simx/cache_sim.cpp:446-551` | from any state the whole cache runs empty: every request taken or still queued has been answered exactly once on its own port, whichever owed fill memory answers next |
| `Acl.AtIndex` | `sim/common/mem.cpp:193-242` | the flags of an address are those of the one range that has it, and 0 where there is none |
| `Acl.Canonical` | `sim/common/mem.cpp:225-240` | maps that mean the same function are the same map |
| `Acl.AclManager.FirstCandidate` | `sim/common/mem.cpp:199-203` | stepping back from the lower bound skips no range that reaches the address |
| `Acl.AclManager.Cut` | `sim/common/mem.cpp:205-223` | the editing loop removes exactly the addresses of the new range from every range and keeps the map ordered and merged |
| `Acl.AclManager.MergeAround` | `sim/common/mem.cpp:228-240` | merging with the neighbour before and the neighbour after makes the map maximally merged without changing its meaning |
| `Acl.AclManager.Set` | `sim/common/mem.cpp:193-242` | the map means the old function overridden on the range, nothing else changes, and it stays ordered, not empty anywhere, and maximally merged; size 0 changes nothing |
| `Acl.AclManager.Check` | `sim/common/mem.cpp:244-264` | for size > 0 the answer is true exactly when every mapped address of the range carries all requested flags |
| `Acl.CarriesMeans` | `sim/common/mem.cpp:254-258` | flags are carried when those asked for add nothing to those held |
| `Acl.NoDenialMeans` | `sim/common/mem.cpp:252-261` | scanning ranges decides the question about addresses |
| `Acl.NoDenialOfNothing` | `sim/common/mem.cpp:244-264` | for size 0 the scan still refuses exactly when the address lies inside, and not at the start of, a range that lacks a flag |
| `Acl.EmptyRangeRefused` | `sim/common/mem.cpp:244-264` | witness: asking for flag 2 on no byte at address 1 of a range 0 to 4 that has flag 1 is refused |
| `Raster.StepEval` | `sim/common/graphics.cpp:640-642` | adding increments equals evaluating the edges further on |
| `Raster.ExtentBounds` | `sim/common/graphics.cpp:644-647` | over a tile of size s an edge value grows by at most s times its extent |
| `Raster.RejectSound` | `sim/common/graphics.cpp:749-753` | a rejected tile or quad contains no covered pixel |
| `Raster.RejectExact` | `sim/common/graphics.cpp:644-753` | a tile or quad is rejected exactly when one of its three edges is negative on the whole square of the tile |
| `Raster.QuadPixels` | `sim/common/graphics.cpp:799-843` | a quad reports each of its covered pixels once, in its own mask bit, and no other pixel |
| `Raster.TilePixels` | `sim/common/graphics.cpp:743-797` | the quad-tree descent reports each covered pixel of the tile once and nothing else |
| `Raster.TileStamps` | `sim/common/graphics.cpp:755-797` | the edge values handed down the descent are those of direct evaluation at each pixel |
| `Raster.PrimitiveMeansPixels` | `sim/common/graphics.cpp:715-843` | rasterising equals brute force: for every tile size, origin, edges and scissor a pixel is reported once when it lies in the tile and the scissor and none of the three polynomials e.x * px + e.y * py + e.z is negative there, and never otherwise |
| `Raster.PrimitiveMeansValues` | `sim/common/graphics.cpp:715-843` | every report lies in the tile, names the primitive, holds the values of the three edge polynomials at each of its pixels, and has a pixel's mask bit set exactly when the pixel is to be drawn |
| `Raster.PosMaskExact` | `sim/common/graphics.cpp:832-841` | the packed word gives back the quad's origin and mask exactly when the origin is even and below 2^15 in both coordinates |
| `Raster.OddOriginIsMisplaced` | `sim/common/graphics.cpp:832-841` | witness: rasterising from x = 1 draws pixel (1, 0) alone, and the shader is told of (0, 0) |
| `Raster.ShaderSeesPixels` | `tests/regression/raster/kernel.cpp:18-26` | unpacking the words as the shader does, each pixel of an even tile that is in the scissor and inside the three edge polynomials is seen once, and no other |
| `LaneTable.HashTable.Allocate` | `sim/simx/types.h:422-434` | with room left the loop always finds a free entry, takes the first, and adds exactly its lanes to those waited for |
| `LaneTable.HashTable.Release` | `sim/simx/types.h:436-441` | exactly this entry becomes free and the count stays that of the used entries |
| `LaneTable.HashTable.Answer` | `sim/simx/mem_coalescer.cpp:70-76` | answered lanes leave the entry, which is released with its last lane; exactly those lanes are no longer waited for |
| `Coalescer.CoalesceBlock` | `sim/simx/mem_coalescer.cpp:103-127` | for one output: the first lane still to send fixes the line, and all lanes left on that line go with it |
| `Coalescer.FindBatch` | `sim/simx/mem_coalescer.cpp:98-129` | what one cycle sends: every output with lanes left sends the line of its first one, for exactly the lanes left on it |
| `Coalescer.BatchSharesLine` | `sim/simx/mem_coalescer.cpp:112-121` | two lanes left at the same output go together exactly when their addresses are in the same line |
| `Coalescer.BatchMeans` | `sim/simx/mem_coalescer.cpp:83-155` | an output with lanes left sends the line of its first one, that is its address without the line bits, and exactly the lanes left with addresses in that line go along |
| `Coalescer.BatchesPartition` | `sim/simx/mem_coalescer.cpp:150-154` | the batches of a request are disjoint, cover only its mask, number at most output_ratio, and after output_ratio of them the mask is used up |
| `Coalescer.MemCoalescer.Submit` | `sim/simx/mem_coalescer.cpp:82-88` | a request is queued and its read lanes are owed from then on |
| `Coalescer.MemCoalescer.LanesOf` | `sim/simx/mem_coalescer.cpp:51-60` | the loops find exactly the lanes of the entry whose output was answered |
| `Coalescer.MemCoalescer.HandleResponse` | `sim/simx/mem_coalescer.cpp:44-81` | an answer goes to exactly the waiting lanes of its lines, under the requester's own tag; the entry's assertion holds |
| `Coalescer.MemCoalescer.SendRequest` | `sim/simx/mem_coalescer.cpp:83-155` | nothing is sent when no request waits or the table is full; otherwise the next batch, and the request leaves with its last lane |
| `Coalescer.MemCoalescer.Tick` | `sim/simx/mem_coalescer.cpp:44-155` | every cycle takes the answer at hand and then, with the table that answer leaves, sends the next batch unless no request waits or the table is full; lane reads taken in equal lanes answered plus lanes in the table plus lanes still to send |
| `Coalescer.SentInTime` | `sim/simx/mem_coalescer.cpp:83-155` | in every run of cycles the request in front has been sent whole and left the queue after at most output_ratio cycles that were not blocked |
| `Coalescer.MemCoalescer.AllAnswered` | `sim/simx/mem_coalescer.cpp:44-155` | when memory owes nothing and no request waits, every lane read was answered exactly once |
| `Lsu.TakeBalances` | `sim/simx/func_unit.cpp:116-136` | the oldest answer is for lanes the unit waits for, and taking it keeps the books |
| `Lsu.LoadBalances` | `sim/simx/func_unit.cpp:180-203` | booking a load and passing it on keeps the books |
| `Lsu.LsuUnit.MemoryTick` | `sim/simx/mem_coalescer.cpp:44-155` | lanes the coalescer answers are no longer owed but on their way, no others are, and the request in front moves on unless no request waits or the table is full |
| `Lsu.LsuUnit.TakeResponse` | `sim/simx/func_unit.cpp:116-136` | the assertion on the entry holds, pending_loads_ drops by the lanes answered, and the load is handed on exactly with its last lane |
| `Lsu.LsuUnit.TakeRequest` | `sim/simx/func_unit.cpp:138-221` | an instruction is taken exactly when no fence waits for loads and, for a load, an entry is free; a load or store is then in the coalescer's queue with its lanes, a load under its entry; a fence is handed on only when no load is pending |
| `Lsu.LsuUnit.AllReleased` | `sim/simx/func_unit.cpp:116-136` | when nothing is under way every load was handed on exactly once and pending_loads_ is 0 |
| `Demux.Split` | `sim/simx/types.cpp:53-71` | the loop gives each side exactly the lanes whose address lies there, with their addresses: local memory has the addresses in its window that are no device registers, while it is enabled |
| `Demux.SidesShareReads` | `sim/simx/types.cpp:53-71` | the two sides share no lane and together hold the request's lanes, so their reads add up to its reads |
| `Demux.LocalMemDemux.Submit` | `sim/simx/types.cpp:49-51` | a request is queued and its lane reads are counted as taken in |
| `Demux.LocalMemDemux.SendParts` | `sim/simx/types.cpp:50-84` | each side gets its lanes, or nothing when it has none, and owes exactly the reads sent to it |
| `Demux.LocalMemDemux.Tick` | `sim/simx/types.cpp:34-85` | every cycle keeps: lane reads taken in equal those waiting, owed by a side, on the way back and answered; one answer of each side passes unchanged, local memory first |
| `Demux.LocalMemDemux.AllAnswered` | `sim/simx/types.cpp:34-85` | once no request waits and both sides have answered, every lane read was answered exactly once |
| `Adapter.PopTokens` | `sim/simx/types.cpp:121-137` | taking the front answer of a port takes exactly its lane |
| `Adapter.LsuMemAdapter.TickResponses` | `sim/simx/types.cpp:104-138` | one answer joins every front answer with the first port's tag; no answer is lost or made up |
| `Adapter.LsuMemAdapter.TickRequests` | `sim/simx/types.cpp:140-163` | each lane of the request, and no other, sends its own address on its own port |
| `Spawn.EncodeDecode` | `kernel/src/vx_spawn.c:76-78` | every task number below the size of the grid names one point of it |
| `Spawn.DecodeEncode` | `kernel/src/vx_spawn.c:76-78` | every point of the grid is named by its number |
| `Spawn.SharesAddUp` | `kernel/src/vx_spawn.c:206-210` | the shares of the active cores sum to the total |
| `Spawn.SharesTile` | `kernel/src/vx_spawn.c:224-224` | the shares lie end to end exactly when at most one item is left over |
| `Spawn.ItemHasOneCore` | `kernel/src/vx_spawn.c:206-224` | with at most one item left over every item belongs to exactly one core |
| `Spawn.ItemIsLost` | `kernel/src/vx_spawn.c:224-224` | with more left over the item after the first core's share belongs to no core |
| `Spawn.RunsGroupMeans` | `kernel/src/vx_spawn.c:103-155` | a pass of a switched-on thread is made exactly for the groups of the core's share and the threads of the group |
| `Spawn.GroupsRunOnce` | `kernel/src/vx_spawn.c:103-155` | on one core every block of its share and every thread of the block runs exactly once, for every share and offset a launch gives out |
| `Spawn.GridRunsOnce` | `kernel/src/vx_spawn.c:103-237` | when at most one group is left over, every block of the grid and every thread of the block runs exactly once over all active cores together |
| `Spawn.TasksInRange` | `kernel/src/vx_spawn.c:54-81` | no full-warp task outside the core's full warps is run |
| `Spawn.TasksRunOnce` | `kernel/src/vx_spawn.c:54-81` | every full-warp task of the core's share is run exactly once |
| `Spawn.ProcessThreadGroups` | `kernel/src/vx_spawn.c:103-137` | the loop of one thread makes exactly its passes, with the block and thread index of each |
| `Spawn.ProcessThreads` | `kernel/src/vx_spawn.c:54-81` | the loop of one thread runs exactly its tasks, with the block index of each |
| `Spawn.VxSpawnThreads` | `kernel/src/vx_spawn.c:157-289` | the grid and block have the sides given, and 1 from the dimension on; a launch is refused, idle, or planned so that the plan satisfies what the run-once theorems ask of it |
| `Spawn.ActiveCoresMean` | `kernel/src/vx_spawn.c:187-253` | the active cores are all cores, or the fewest whose warps have room for all groups, or whose threads have room for all tasks |
| `Spawn.LaunchRunsOnce` | `kernel/src/vx_spawn.c:157-289` | over the plans that a launch gives the cores, with at most one group left over, every block below the grid sides given and every thread below the block sides given runs exactly once |
| `Spawn.LaunchTasksOnce` | `kernel/src/vx_spawn.c:234-289` | over the plans of a launch of single tasks every block belongs to one core and runs there exactly once when it is among the core's full warps |
| `Spawn.SpawnGroups` | `kernel/src/vx_spawn.c:187-237` | the plan for groups larger than one: whole warps per group, as many groups at a time as fit, batches and remainder |
| `Spawn.TaskBatches` | `kernel/src/vx_spawn.c:259-278` | the plan for single tasks: full warps, batches, remainder and the rest |
| `Barrier.ArriveKeeps` | `sim/simx/emulator.cpp:260-291` | coming to a barrier fills it exactly when all other warps of a full group wait, and either way warps stay stalled for one reason and groups in step |
| `Barrier.Scheduler.BarrierSafe` | `kernel/include/vx_spawn.h:48-49` | a warp past its n-th barrier knows every warp of its group has reached its n-th; a warp is one ahead exactly while it waits |
| `Barrier.Scheduler.ArriveAt` | `sim/simx/emulator.cpp:260-291` | below two warps nothing happens; otherwise the warp waits, or the last one releases exactly the waiting warps |
| `Barrier.Scheduler.GroupBarrierDone` | `sim/simx/func_unit.cpp:285-291` | the last warp of the group to come releases exactly the warps of its group, each past one barrier more; any other is left waiting |
| `Barrier.Scheduler.SingleBarrierDone` | `sim/simx/func_unit.cpp:285-291` | a barrier for one warp lets it go on |
| `Barrier.Scheduler.SpawnDone` | `sim/simx/func_unit.cpp:269-275` | after a spawn warp 0 goes on exactly when it is alone and asked for no other warp; otherwise it waits and the spawn is pending for as many warps as were asked for and exist |
| `Barrier.Scheduler.Fork` | `sim/simx/emulator.cpp:151-162` | a pending spawn starts its warps and lets warp 0 go on exactly when warp 0 is alone |
| `Barrier.Scheduler.Schedule` | `sim/simx/emulator.cpp:164-174` | the warp scheduled is the first that is active and not stalled; none only if all are stalled |
| `Barrier.Scheduler.Issue` | `sim/simx/core.cpp:205-206` | a scheduled warp is stalled until its trace is back; suspending never hits its assertion |
| `Barrier.Scheduler.PlainDone` | `sim/simx/func_unit.cpp:309-311` | a trace that comes back resumes a warp that is stalled, as the assertion asks, and no other |
| `Switches.TagRoundTrip` | `sim/simx/types.h:604-626` | the slot always comes back; of a 32-bit tag, the bits that fitted beside it |
| `Switches.StackRoundTrip` | `sim/simx/types.h:601-632` | through any stack of switches a response finds the input of every stage; the tag comes back modulo the room left |
| `Switches.TagSurvives` | `sim/simx/types.h:601-632` | the original tag comes back exactly when it fits beside the slots of all stages |
| `Switches.TagLost` | `sim/simx/types.h:601-632` | witness: the tag 2^31 comes back as 0 through one stage of two inputs |
| `Switches.Nearer` | `sim/simx/types.h:615-641` | after a grant every other waiting input is strictly nearer the cursor |
| `Switches.GrantedWithinRing` | `sim/simx/types.h:614-641` | under round robin, in every run of ticks with requests arriving in between, an input that has a request waiting is granted within R ticks exactly when it is below num_outputs * R |
| `Switches.NeverServed` | `sim/simx/types.h:614-633` | an input from num_outputs * R on is never served: in every run its queue only grows |
| `Switches.FifthInputStarves` | `sim/simx/types.h:568-619` | witness: five inputs on four outputs, which the assertions of the constructor allow, leave the fifth waiting for ever |
| `Switches.AllHome` | `sim/simx/types.h:599-632` | over any history of requests, answers and returns: when memory has answered all and none is on the way, every request issued has exactly one answer, at the input that made it, with its own tag as far as it fitted |
| `Switches.Switch.Push` | `sim/simx/types.h:575-581` | with as many outputs as inputs a request is at its output at once and counts as issued; otherwise it waits at its input |
| `Switches.Switch.TakeResponse` | `sim/simx/types.h:600-612` | the answer in front of an output belongs to a request that was issued there, and arrives at the input that issued it with that request's own tag as far as it fitted; nothing else arrives |
| `Switches.Switch.TakeRequest` | `sim/simx/types.h:614-633` | the scan grants the waiting input nearest the cursor, tags and moves its request, and moves the cursor past it |
| `Switches.Switch.Tick` | `sim/simx/types.h:590-635` | in one tick every output grants its nearest waiting input and returns its front answer to the input named in it, and no input of another output is touched; with equal counts nothing is left to do |
| `Dispatch.NextPacket` | `sim/simx/dispatcher.h:77-102` | the next packet, with the first lanes left, either completes a whole trace or leaves lanes for a later packet |
| `Dispatch.TurnKeeps` | `sim/simx/dispatcher.h:71-109` | a turn keeps the books of its port: the output is the whole splits of the first traces accepted, in order, and then what has left of the next one |
| `Dispatch.Dispatcher.LeavesWhole` | `sim/simx/dispatcher.h:61-116` | in every run a port whose queue is empty has put out exactly the whole splits of all traces it accepted, in order |
| `Dispatch.WholePartitions` | `sim/simx/dispatcher.h:77-102` | every lane of a trace leaves in exactly one packet, and no other lane leaves |
| `Dispatch.WholeLength` | `sim/simx/dispatcher.h:77-102` | a trace leaves in at most as many packets as the warp has lane groups |
| `Dispatch.Dispatcher.FindSpan` | `sim/simx/dispatcher.h:77-86` | the loop finds the outermost lanes that are on from the next packet on |
| `Dispatch.Dispatcher.SplitFront` | `sim/simx/dispatcher.h:71-109` | a turn appends to the output exactly the next packet of the trace in front, which leaves the queue with its last packet; no other port changes |
| `Dispatch.Dispatcher.TickBlock` | `sim/simx/dispatcher.h:61-110` | one block has its turn and what leaves appears on its own output; it is done exactly when no trace of its port has left in part |
| `Dispatch.Dispatcher.Tick` | `sim/simx/dispatcher.h:60-116` | every block of the batch has one turn and no other port changes; the next batch gets its turn exactly when all are done, and until then the turns left grow fewer |
| `TileBuffer.AddPid` | `sim/common/gfxutil.cpp:244-246` | the primitive is appended to the list of this tile, which is made in key order if new; no other list changes |
| `TileBuffer.TileRanges` | `sim/common/gfxutil.cpp:238-242` | the tile bounds computed by shifts are exactly the tiles that share a pixel with the box |
| `TileBuffer.PixelTouches` | `sim/common/gfxutil.cpp:236-242` | a box that is not empty touches a tile exactly when one of its pixels lies in it |
| `TileBuffer.PidsMean` | `sim/common/gfxutil.cpp:189-250` | the list of a tile is, in ascending order, just the numbers of the boxes with a pixel in it, where a box without any pixel gets no number |
| `TileBuffer.AddBox` | `sim/common/gfxutil.cpp:236-248` | the primitive is listed once with exactly the tiles its box touches |
| `TileBuffer.Bin` | `sim/common/gfxutil.cpp:136-250` | every tile lists exactly the primitives that touch it, each once and in order; empty boxes take no number |
| `TileBuffer.WriteTiles` | `sim/common/gfxutil.cpp:257-271` | headers and lists lie where the offsets say, and no list overwrites another |
| `TileBuffer.HeaderAt` | `sim/simx/raster_unit.cpp:152-164` | coordinates, offset and count that fit 16 bits are read back from the header |
| `TileBuffer.RasterUnit.ReadHeader` | `sim/simx/raster_unit.cpp:144-169` | the address walked by steps of a header is that of the current tile's header, and the count read is not 0 |
| `TileBuffer.RasterUnit.RenderNextPrimitive` | `sim/simx/raster_unit.cpp:141-229` | each call hands over exactly the next primitive of the unit's tiles |
| `TileBuffer.RasterUnit.Run` | `sim/simx/raster_unit.cpp:141-229` | a unit hands over exactly the lists of every raster_count-th tile, in order, and stops |
| `TileBuffer.UnitsShareJobs` | `sim/simx/raster_unit.cpp:101-114` | the units together hand over every (tile, primitive) pair once |
| `Printf.Output.Put` | `kernel/src/tinyprintf.c:132-138` | a character past the bound is counted but not stored |
| `Printf.Output.Terminate` | `kernel/src/tinyprintf.c:851-856` | the buffer holds the first min(total, n - 1) characters and a zero, and the total is returned; a bound of 0 writes nothing |
| `Printf.Output.OutRev` | `kernel/src/tinyprintf.c:198-223` | digits come out last first, padded with spaces on the side the flags ask for |
| `Printf.DigitsDenote` | `kernel/src/tinyprintf.c:291-298` | the digits produced denote the value modulo base^32 |
| `Printf.PutDigits` | `kernel/src/tinyprintf.c:291-298` | the loop leaves exactly those digits in the buffer |
| `Printf.NtoaFormat` | `kernel/src/tinyprintf.c:226-277` | padding, prefix and sign are applied in the buffer and written out as specified |
| `Printf.NtoaLong` | `kernel/src/tinyprintf.c:280-301` | an integer conversion writes exactly the specified text |
| `Printf.PrintedNumber` | `kernel/src/tinyprintf.c:226-301` | for every precision, width and flags without a prefix, the text is spaces, sign, digits, spaces; the digits denote the value when it is below base^32, and the sign is left out only when there are 32 of them |
| `Printf.SignKept` | `kernel/src/tinyprintf.c:229-274` | for every precision, width and flags: '-' or '+' is in the text exactly when it should be, the digits number fewer than 32 and, unless left-aligned, so do the precision and a zero-padded field |
| `Printf.SignLost` | `kernel/src/tinyprintf.c:229-274` | witness: -5 zero-padded to 33 places, and -5 with a precision of 32, are written without a sign |
| `Printf.Atoi` | `kernel/src/tinyprintf.c:187-195` | the loop reads digits in 32-bit arithmetic up to the first other character |
| `Printf.AtoiReads` | `kernel/src/tinyprintf.c:187-195` | reading digits written in reverse gives the number they denote and stops behind them |
| `Printf.PrintThenRead` | `kernel/src/tinyprintf.c:187-301` | any 32-bit value printed in decimal, with any precision, zeros, spaces before or spaces behind, is read back unchanged |
| `Printf.PutText` | `kernel/src/tinyprintf.c:795-819` | a text is cut to its precision and padded to its width |
| `Printf.PutChar` | `kernel/src/tinyprintf.c:775-793` | a character is padded to its width |
| `Format.ReadFlags` | `kernel/src/tinyprintf.c:600-611` | the loop gathers the flags up to the first character that is none |
| `Format.ReadWidth` | `kernel/src/tinyprintf.c:613-628` | a number, a star or nothing, and where it ends |
| `Format.ReadPrecision` | `kernel/src/tinyprintf.c:630-643` | a dot with a number, a star or nothing behind it, and where it ends |
| `Format.ReadLength` | `kernel/src/tinyprintf.c:645-679` | one of the length modifiers or none, and where it ends |
| `Format.ConvRoundTrip` | `kernel/src/tinyprintf.c:600-682` | a directive written down, with any flags, width, precision, length and specifier, is read back as itself wherever it stands |
| `Format.FormatRoundTrip` | `kernel/src/tinyprintf.c:586-845` | a format put together from characters and directives asks for exactly these, in order, with the arguments fetched left to right, whatever the arguments |
| `Format.PutNext` | `kernel/src/tinyprintf.c:586-845` | one pass of the loop writes exactly the next character or directive of the format |
| `Format.Snprintf` | `kernel/src/tinyprintf.c:577-856` | for any format and arguments: what is stored is the unbounded output cut to n - 1 characters plus a zero, nothing past n is touched, and the full length is returned, as in section 7.21.6.5 of ISO/IEC 9899:2011; what the directives in that output write is stated by Directives |
| `Layout.DigitsNumeral` | `kernel/src/tinyprintf.c:285-292` | the digits produced are the numeral of the value in its base and case, without a needless zero, or its last 32 digits |
| `Layout.NtoaLaid` | `kernel/src/tinyprintf.c:224-266` | a conversion writes the numeral behind zeros up to the precision or the zero-padded field, the prefix, the sign and spaces up to the width, as far as 32 characters go |
| `Layout.PrefixCost` | `kernel/src/tinyprintf.c:242-262` | the digits behind a prefix stand for the value exactly when the value would not fill its field without the prefix |
| `Directives.IntegerDirective` | `kernel/src/tinyprintf.c:681-766` | d, i, u, x, X, o and b write the C value of the argument for the length in base 10, 16, 8 or 2, capitals for X, sign for d and i only, no prefix for decimals, no zero padding with a precision |
| `Directives.PointerDirective` | `kernel/src/tinyprintf.c:821-838` | p writes the address in base 16 with capitals, zero-padded to two digits a byte |
| `Directives.TextDirective` | `kernel/src/tinyprintf.c:775-820` | c writes the argument modulo 256 and s the text cut to its precision, in a field of the width on the side the flag says |
| `Directives.OtherDirective` | `kernel/src/tinyprintf.c:839-848` | any other character behind a percent sign stands for itself |
| `Directives.PlainDecimal` | `kernel/src/tinyprintf.c:710-750` | plain d, i and u write a minus sign exactly for a negative C value of the length, and digits that the library's own atoi reads back as its absolute value |
| `Directives.StarWidth` | `kernel/src/tinyprintf.c:618-629` | a star takes the width from an int argument, left-aligned when it is negative, as if written down |
| `Directives.StarPrecision` | `kernel/src/tinyprintf.c:637-641` | a star takes the precision from an int argument, 0 when it is negative, as if written down |
| `Directives.LoneDot` | `kernel/src/tinyprintf.c:630-643` | a dot with nothing behind it is a precision of 0 |
| `Directives.DirectiveThenRest` | `kernel/src/tinyprintf.c:577-848` | a format goes on behind a directive with the arguments left after one for each star and one for the value |
| `Directives.PrefixedDirective` | `kernel/src/tinyprintf.c:242-262` | with the prefix flag and no precision, the digits written stand for the value exactly when it does not fill its field |
| `Directives.PrefixTakesDigits` | `kernel/src/tinyprintf.c:242-250` | witness: the format %#4x writes 0x34 for 0x1234 |

## Left out

Integer widths and assumptions

- The allocator, ACL map, rasterizer and work distribution use unbounded integers: 64-bit and 32-bit wrap-around is not modelled there. Cache addresses (64 bits), switch tags (32 bits), warp registers and the shader word (32 bits) are modelled at their width.
- `pageAlign` is a multiple of `blockAlign`, as at every call site. `alignSize` is rounding up to a multiple; its assertion that alignments are powers of two is not needed.
- Addresses in the allocator may lie below the base address, since `reserve` allows it; no lower bound is claimed.
- The coalescer's input size is a multiple of its output size; other sizes would leave lanes that no output serves.

Memory allocator

- Error messages, the overlap addresses they print, and freeing of C++ objects are not modelled; a deleted block or page simply leaves all lists.

SIMT control

- Only integer operations of one thread on its own registers, branches, JAL, SPLIT and JOIN; memory operations, floating point, TMC and PRED are not in the kernels. The program counter counts instructions.
- SimtKernel.KernelMeansThreads: compares registers outside those that hold stack pointers for open splits, because a warp and a lone thread reach different stack depths.

Cache

- The bypass path for I/O addresses, latencies and performance counters, cid and uuid fields.
- CacheBank.CoreKeeps: says nothing about dirty lines being written back at the right time, because a fill never clears `dirty` and a replayed write never sets it.
- Merging of a second port into a request of the same line: the busy test before it makes it unreachable, so each bank request carries one port.
- CacheDrain.Drain: models a memory that answers a fill in every tick in which it owes one, in an order of its own; pauses of memory are covered by `CacheSim.Cache.Tick`, not by this run.

Memory-system protocols

- `Mux` and the bank switches. The load/store unit is connected to the coalescer directly; the local-memory demultiplexer between them is modelled on its own.
- Lsu.LsuUnit.TakeRequest: models one issue slot per block, so a fence leaves by the port it came from.
- Queue capacities and delays of ports; a full output port does not stall a tick in the source either.
- Instruction decode, operand collection and issue.

Barriers and spawning

- Global barriers across cores, whose core numbering is applied twice across sockets.
- Barrier.Scheduler.BarrierSafe: is stated for barrier requests made by `__syncthreads`, that is with the local group as identifier and the warps per group as count.
- `process_remaining_threads`, which runs the last partial warp without assigning a block index.

Graphics

- The floating-point half of binning (clipping, edge setup, bounding boxes); boxes come in already clamped. The scissor register layout, depth, stencil and blending.
- TileBuffer.Bin: tile coordinates are not cut to 16 bits in the keys, because frames are far smaller; the 16-bit header fields are modelled and must fit.
- Reading the primitive's edges from the primitive buffer, and the queue of stamps.

printf

- Format.Snprintf: takes the text of a floating-point conversion as its argument, because the conversion itself is left out, and is stated for formats whose arguments match; pointers, ptrdiff_t and size_t have the size of long, and intmax_t has 64 bits.

Other

- The page cache of the simulated RAM, translation look-aside buffers, drivers, waveform dumping, the RTL and its scripts: they would add easy members or depend on code outside the repository.
