# pmOS kernel: verified models

A Dafny model of the hard parts of the pmOS microkernel, with proofs of what they promise.  `dafny verify dfyconfig.toml`
checks everything.  Integers are unbounded in Dafny; 64-bit wrap-around is written out wherever the source can reach it.

**Kernel heap** (`Words` to `Malloc`).  The allocator of `dlmalloc.c` as configured for a 64-bit pmOS kernel: chunks with boundary
tags in memory, small bins, tree bins, the designated victim `dv`, `top`, segments and direct mappings.  `TreeBins`, `Bins` and
`Malloc.Heap` are classes that update links, tags and maps step by step as the source does.  `HeapShape.Inv` is the invariant that
every `Malloc`, `Free` and `Realloc` keeps: chunks tile the segments, tags are right, no two free chunks touch, every free chunk
is in the bin of its size or is `dv` or `top`, and every chunk in use is a live payload or a segment record.  The proof goes
through state-to-state steps (`HeapSteps`, `HeapFree`, `HeapAlloc`, `HeapGrow`, `HeapSys`, `HeapResize`) that the methods refine.
`HeapPolicy` says, by chunks, `dv` and `top` alone, which free memory serves a request and what becomes of the rest; the
answers of `Malloc`, `Free` and `Realloc` are stated with it.
Small bins are circular lists of links through a header (`SmallRings`, `Bins`).  Tree bins are tries over size bits: `Tries` has
them as values, `TreeRep` and `TreeSurgery` relate them to the linked chunks.

**Firmware memory map** (`FirmwareMap`, `MapSteps`, `MapMerge`, `MapReserve`, `MemoryMap`).  An arbitrary overlapping map becomes a sorted,
disjoint one in place, then boot reservations are carved out.  The meaning of a map is the most restrictive kind per address, and
the main results say which that is by the codes of the firmware entries.

**Memory objects and regions** (`MemObject`, `MemRegions`, `AddressSpace`, `PageFault`).  An object is a zero-initialised byte
array behind a list of pages; a region denotes, per address, a zero, an object byte or a physical byte.  Trimming, hole punching,
releasing and page faults are judged against that meaning.

**Physical memory bootstrap** (`InitPmm`, `PageArray`), **devicetree parser** (`DeviceTree`, `DtbParser`; section 5.4 of the
Devicetree Specification v0.4), **ordered multi-locking** (`LockCarousel`, `LockProtocol`), **lazy floating point**
(`FpuSwitch`), **interrupt service and slot assignment** (`InterruptService`, `PicAllocation`), **time conversion**
(`FreqFraction`), **loader bitmap** (`LoaderBitmap`).

Concurrent protocols are state machines and the theorems are about every run.  A step of `LockProtocol` is one atomic load,
exchange or store.  A step of `FpuSwitch` is one access of a CPU to its registers, its enable bit or its tasks, so a switch is seven
steps that other CPUs' steps may come between.  A step of `InterruptService` is one whole delivery, completion, destruction, creation or
queue change.

## Where the code differs from what one would expect

The model follows the code.  Each point names the members that state it: the exact condition, and a concrete input where the code
does something one would not want.

- Trimming the front of a region moves its bytes when a page or more of zeros precedes the window (`MemRegions.TrimExact`,
  `MemRegions.TrimShiftsExample`); what this means for holes and releases is `MemRegions.PunchExact` and `AddressSpace.Outcome`.
- Releasing a range skips regions that start inside it (`AddressSpace.ReleaseExact`, `AddressSpace.ReleaseSkipsExample`).
- A zero-length reservation at a page boundary inside a usable region leaves an empty region.  `MemoryMap.Map.MemoryMapReserve` says
  when: no region becomes empty exactly if the length is positive or the start is not on a page boundary.
  `MapReserve.EmptyReservationExample` is such a map.
- A memory-map entry or reservation that reaches into the last page of the address space wraps around: `FirmwareMap.AlignExact` and
  `MemoryMap.TestExact` say exactly which do, `FirmwareMap.AlignWrapsExample` and `MemoryMap.TestWrapsExample` give one each.
- The devicetree allocators leave one pre-counted slot unused, so a block needs a spare token-like cell (`DtbParser.BlockParsed`,
  `DtbParser.NoSpareExample`).  After a root node the scan skips one cell, so a root that follows directly is lost
  (`DtbParser.AdjacentLost`).
- Two touching regions of one kind may stay apart in the built memory map, but only where aligned entries of two kinds start together,
  because a region that takes the place of another one is not compared with the region before it (`MemoryMap.Map.BuildMemoryMap`).
- A fault in a copy-on-write window of length zero strictly inside a page asks for the object's page, and is refused if the object
  has none there, although every byte is zero (`PageFault.RefusedExact`, `PageFault.EmptyWindowExample`, `PageFault.EmptyWindowFault`).
- A read or write of an object whose end wraps around 64 bits copies nothing and reports success (`MemObject.Object.ReadToKernel`,
  `MemObject.ReadWrapsExample`).
- `IntNotificationRight::sent` is consulted but nothing in the interrupt code sets it; the model lets it change at any time.  A
  delivery that finds every right sent leaves the line masked (`InterruptService.DeliveryExact`, `InterruptService.StuckExample`), and
  no later completion, destruction or creation releases it (`InterruptService.StuckForGood`).
- The loader's page allocator returns page 0 when nothing is free (`LoaderBitmap.Bitmap.AllocPage`, `LoaderBitmap.NoneFreeExample`).
- A freed direct mapping stays mapped, because the kernel's `munmap` always fails: `Malloc.Heap.Free` has no right to change `direct`.
- The helper `reading` in `mem_regions.cc` tests for write access; this is a matter of its name only, and the model's parameter is
  called `write`.

## Model

| member | source | states |
|---|---|---|
| `Malloc.Heap.Malloc` | kernel/generic/memory/dlmalloc.c:4569-4703 | keeps the whole heap invariant; a result is a 16-aligned address that was not live and is now live with the requested size, all other payloads stay live, contents are untouched, and less than 32 bytes are wasted on the padded size (less than two pages for a direct mapping). The answer is determined: dv serves exactly if it is large enough and, for a small request, no binned chunk has the size or 8 bytes more, for a large one, no binned chunk that fits is smaller than dv; else a smallest binned chunk that fits; else top; else the system, whose answer is null only if it gives nothing or the size wraps around. What becomes of the rest is determined too |
| `Malloc.Heap.Free` | kernel/generic/memory/dlmalloc.c:4707-4814 | keeps the invariant and takes exactly the given payload out of the live set; null is ignored; its chunk and the free chunks on both sides become one free chunk, which is top if top was one of them, dv if dv was (and top was not) and binned otherwise; a direct mapping stays; says exactly when the segments are checked for release |
| `Malloc.Heap.Realloc` | kernel/generic/memory/dlmalloc.c:5210-5253 | keeps the invariant; the payload stays where it is exactly if its chunk, or its chunk with the free chunk behind it, holds the new size (top is never used up), or the size of its direct mapping suits; otherwise it moves to what malloc gives and the old payload is freed; contents are kept up to the smaller size, every other payload keeps its bytes; null only for a size out of range or when malloc gives null, and then nothing changes |
| `Malloc.Heap.MovePayload` | kernel/generic/memory/dlmalloc.c:5244-5248 | the copy of the usable bytes never overlaps and never touches a third live payload |
| `Malloc.Heap.constructor` | kernel/generic/memory/dlmalloc.c:2660-2662 | an empty heap satisfies the invariant |
| `HeapTheorems.Tiled` | kernel/generic/memory/dlmalloc.c:3448-3476 | in every invariant state each byte of a segment before its fence or top trailer lies in exactly one chunk |
| `HeapTheorems.PayloadsDisjoint` | kernel/generic/memory/dlmalloc.c:3278-3286 | in every invariant state live payloads do not overlap, not even with each other's tags |
| `HeapTheorems.UsableDisjoint` | kernel/generic/memory/dlmalloc.c:2320-2321 | the same for all usable bytes of a chunk, not only the requested ones |
| `HeapTheorems.PayloadsBacked` | kernel/generic/memory/dlmalloc.c:3244-3247 | every live payload is aligned and lies inside memory obtained from the system |
| `HeapTheorems.PayloadsPlain` | kernel/generic/memory/dlmalloc.c:2228-2249 | no byte of a live payload is a tag, part of a free chunk, of a segment record, or of a segment or mapping trailer |
| `HeapTheorems.FreeIsFindable` | kernel/generic/memory/dlmalloc.c:3464-3467 | every free chunk is top, dv or in a bin with its own size, and both its neighbours are in use (eager coalescing) |
| `Malloc.Heap.DisposeChunk` | kernel/generic/memory/dlmalloc.c:4388-4454 | turns the chunk and its free neighbours into one free chunk that is binned, dv or top, and says which; keeps the invariant and nothing else becomes unowned |
| `Malloc.Heap.Coalesce` | kernel/generic/memory/dlmalloc.c:4388-4454 | the in-place tag updates of coalescing in all four cases are the abstract step Freed |
| `HeapFree.FreedInv` | kernel/generic/memory/dlmalloc.c:4388-4454 | merging a chunk with the free chunks on either side keeps tiling, tags, calmness, bins and ownership |
| `HeapPolicy.FreedMeans` | kernel/generic/memory/dlmalloc.c:4388-4454 | coalescing by its four tag cases gives exactly one free chunk over the stretch of the chunk and its free neighbours, in the role of top, dv or a binned chunk, and changes no other chunk |
| `Malloc.Heap.TakeSmall` | kernel/generic/memory/dlmalloc.c:4600-4652 | a small request takes a smallest binned chunk that fits, the rest becomes dv; nothing is taken, and nothing changes, only if dv serves as described for Malloc or neither the bins nor dv fit |
| `Malloc.Heap.TakeLarge` | kernel/generic/memory/dlmalloc.c:4459-4527 | the chunk taken is a smallest binned chunk that fits (best fit) and the rest goes to its bin; nothing is taken, and nothing changes, only if dv fits and no binned chunk that fits is smaller, or neither the bins nor dv fit |
| `Malloc.Heap.TakeFree` | kernel/generic/memory/dlmalloc.c:4600-4693 | the victim, a best-fitting binned chunk or top, in the order described for Malloc, cut to within 32 bytes of the request; nothing if and only if none of them fits |
| `Malloc.Heap.UseVictim` | kernel/generic/memory/dlmalloc.c:4663-4681 | the designated victim is handed out; the rest is the new victim unless it is below the least chunk size |
| `Malloc.Heap.SplitTop` | kernel/generic/memory/dlmalloc.c:4683-4693 | the front of top is handed out and the rest is the new top |
| `HeapAlloc.TakenWholeInv` | kernel/generic/memory/dlmalloc.c:4607-4618 | handing out a whole free chunk keeps the invariant with that one chunk newly owned |
| `HeapAlloc.TakenPartInv` | kernel/generic/memory/dlmalloc.c:4512-4522 | splitting a free chunk keeps the invariant, whether the rest goes to dv, a bin or top |
| `HeapAlloc.VictimBinnedInv` | kernel/generic/memory/dlmalloc.c:3659-3668 | binning the old designated victim keeps the invariant |
| `HeapPolicy.HandedPart` | kernel/generic/memory/dlmalloc.c:4512-4522 | splitting a chunk gives the one answer that handing out nb bytes of it may give: where the rest goes depends only on whether the chunk was top or dv and whether the request is small |
| `Malloc.Heap.ReplaceDv` | kernel/generic/memory/dlmalloc.c:3659-3668 | the old victim is in its small bin and the new one is in place |
| `Malloc.Heap.SysAlloc` | kernel/generic/memory/dlmalloc.c:4062-4268 | a direct mapping for a large request if the system gives one; else a segment, which extends top, goes in front of the first segment it touches or stands alone, and from which the request is cut; failure only if the system gives nothing or the size wraps around, and changes nothing |
| `Malloc.Heap.MmapAlloc` | kernel/generic/memory/dlmalloc.c:3851-3880 | exactly one direct mapping is added: aligned, disjoint from all segments and mappings, and large enough |
| `HeapGrow.MappedInv` | kernel/generic/memory/dlmalloc.c:3851-3880 | adding a direct mapping keeps the invariant and clashes with no chunk or payload |
| `Malloc.Heap.InitSegment` | kernel/generic/memory/dlmalloc.c:3921-3933 | the first segment is all top and nothing else changes |
| `HeapGrow.WithTopInv` | kernel/generic/memory/dlmalloc.c:3921-3933 | a new segment that is all top keeps the invariant |
| `Malloc.Heap.AppendToTop` | kernel/generic/memory/dlmalloc.c:4226-4234 | memory right after the top segment extends top by exactly its size |
| `HeapGrow.ExtendedUpInv` | kernel/generic/memory/dlmalloc.c:4226-4234 | growing the top segment upwards keeps the invariant |
| `Malloc.Heap.AddSegment` | kernel/generic/memory/dlmalloc.c:4007-4056 | the old top becomes an ordinary free chunk before the record and fence posts of its segment, the new segment is all top, nothing else changes |
| `HeapGrow.RetiredInv` | kernel/generic/memory/dlmalloc.c:4026-4054 | retiring top behind a segment record keeps the invariant |
| `HeapPolicy.NewEnlarged` | kernel/generic/memory/dlmalloc.c:4007-4056 | retiring top and adding a segment is: the new memory is all top, the old top is an ordinary free chunk before the record, nothing else changes |
| `Malloc.Heap.PrependAlloc` | kernel/generic/memory/dlmalloc.c:3965-4004 | memory right before a segment becomes the requested chunk followed by a rest that is one free chunk together with the old first chunk if that was free: top, dv or binned accordingly |
| `HeapSys.PrependedInv` | kernel/generic/memory/dlmalloc.c:3965-3975 | extending a segment downwards and cutting the new part in two keeps the invariant |
| `HeapPolicy.FrontMeans` | kernel/generic/memory/dlmalloc.c:3965-4004 | prepending and then coalescing is: the new memory begins with the requested chunk, and the rest is one free chunk with the old first chunk if that was free |
| `Malloc.Heap.SegmentHolding` | kernel/generic/memory/dlmalloc.c:2726-2735 | the first segment of the list that contains the address, or past the end if none does |
| `Malloc.Heap.ReleaseUnusedSegments` | kernel/generic/memory/dlmalloc.c:4273-4318 | with unmapping always refused the heap is left as it was, except that dv goes to its bin exactly if it fills a segment other than the first; the counter until the next check is set exactly |
| `Malloc.OfferStep` | kernel/generic/memory/dlmalloc.c:4280-4306 | one segment of the walk: dv is moved to its bin exactly if it is the segment |
| `Malloc.Heap.TryRealloc` | kernel/generic/memory/dlmalloc.c:4836-4913 | the chunk gets its new size in place if and only if it, or it and the free chunk behind it, are large enough (top is never used up); what is left is one free chunk in the role of the one behind, unless it is too small to be a chunk; on refusal nothing changes |
| `HeapPolicy.ResizedDisposed` | kernel/generic/memory/dlmalloc.c:4847-4898 | cutting off a chunk and freeing the rest is the one answer that a resize in place may give, whether the rest joins a free chunk behind it or not |
| `HeapPolicy.ResizedCut` | kernel/generic/memory/dlmalloc.c:4857-4880 | the same for taking part of top or dv |
| `HeapPolicy.ResizedWide` | kernel/generic/memory/dlmalloc.c:4870-4898 | the same for swallowing the free chunk behind |
| `HeapResize.WidenedInv` | kernel/generic/memory/dlmalloc.c:4881-4898 | swallowing the free neighbour whole keeps the invariant |
| `HeapResize.RecutInv` | kernel/generic/memory/dlmalloc.c:4847-4880 | cutting the (widened) chunk at the new size keeps the invariant |
| `Malloc.Heap.ResizeInPlace` | kernel/generic/memory/dlmalloc.c:4836-4913 | the same for payloads, including direct mappings: the payload has its new size at its old address if and only if it fits there, and otherwise nothing changed |
| `Malloc.ChunkSizeFacts` | kernel/generic/memory/dlmalloc.c:2252-2261 | the padded size is aligned, holds the request and its tags and wastes at most 32 bytes; small exactly for small requests |
| `Malloc.SystemSizeExact` | kernel/generic/memory/dlmalloc.c:4077-4079 | the rounded size for a segment is larger than the request exactly when the sum does not wrap around 64 bits |
| `Malloc.DirectSizeExact` | kernel/generic/memory/dlmalloc.c:3852-3860 | the same for a direct mapping |
| `TreeSizes.HighBitIsLog` | kernel/generic/memory/dlmalloc.c:2914-2919 | the shift-and-mask scan finds the position of the highest bit |
| `TreeSizes.SizeWithinBin` | kernel/generic/memory/dlmalloc.c:2906-2937 | every size lies between the minimum of its tree bin and that of the next |
| `TreeSizes.SpanAligned` | kernel/generic/memory/dlmalloc.c:2930-2937 | the sizes of a bin are one block aligned to its power of two, so the left shift brings its first deciding bit to the top |
| `TreeSizes.BinsOrdered` | kernel/generic/memory/dlmalloc.c:2906-2937 | a smaller bin index means a smaller size |
| `Words.Turn` | kernel/generic/memory/dlmalloc.c:3688-3692 | the top bit of the shifted size says which half of the block the size is in, and doubling it moves on to the next bit |
| `Tries.InsertHas` | kernel/generic/memory/dlmalloc.c:3673-3722 | trie insertion adds exactly one chunk |
| `Tries.InsertWF` | kernel/generic/memory/dlmalloc.c:3673-3722 | trie insertion keeps the bit-prefix order and the rings duplicate-free |
| `Tries.RemoveHas` | kernel/generic/memory/dlmalloc.c:3741-3810 | trie removal takes out exactly one chunk |
| `Tries.RemoveWF` | kernel/generic/memory/dlmalloc.c:3741-3810 | replacing a node by a descendant leaf keeps the bit-prefix order |
| `Tries.LeastIsLeast` | kernel/generic/memory/dlmalloc.c:4498-4505 | the leftmost walk meets the smallest chunk of a subtree although nodes are unordered against their children |
| `TreeBins.TreeBins.InsertLargeChunk` | kernel/generic/memory/dlmalloc.c:3673-3722 | in-place insertion: tree links still represent well-formed tries, the map bits are set exactly for non-empty bins, and the stored chunks grow by exactly the given one |
| `TreeBins.TreeBins.FindSlot` | kernel/generic/memory/dlmalloc.c:3687-3700 | the descent ends at the node of the size or at the empty slot where trie insertion puts the chunk; it uses up one bit of the size per level |
| `TreeBins.TreeBins.UnlinkLargeChunk` | kernel/generic/memory/dlmalloc.c:3741-3810 | in-place removal, through its ring or by a replacement leaf: still well-formed tries, and the stored chunks shrink by exactly the given one |
| `TreeBins.TreeBins.DetachReplacement` | kernel/generic/memory/dlmalloc.c:3755-3770 | the rightmost-leaf search with its double pointer detaches a leaf and nothing else |
| `TreeBins.TreeBins.Replant` | kernel/generic/memory/dlmalloc.c:3771-3809 | linking the replacement into the parent, bin slot and children represents the trie without the chunk |
| `TreeBins.TreeBins.SmallestFit` | kernel/generic/memory/dlmalloc.c:4459-4505 | best fit: the smallest stored chunk that is large enough, or none if and only if no stored chunk is |
| `TreeBins.TreeBins.SmallestChunk` | kernel/generic/memory/dlmalloc.c:4530-4546 | the smallest stored chunk of all tree bins |
| `Bins.Bins.InsertChunk` | kernel/generic/memory/dlmalloc.c:3814-3816 | the free map gains exactly the chunk, and every chunk is in the bin of its size with the map bits set exactly for non-empty bins |
| `Bins.Bins.UnlinkChunk` | kernel/generic/memory/dlmalloc.c:3818-3820 | the free map loses exactly the chunk; bins and map bits still agree |
| `Bins.Bins.InsertSmallChunk` | kernel/generic/memory/dlmalloc.c:3595-3611 | the four link writes put the chunk in front of the ring of its size, or start a ring over stale header links, and mark the bin |
| `Bins.Bins.UnlinkSmallChunk` | kernel/generic/memory/dlmalloc.c:3614-3637 | joining its two neighbours takes the chunk out of its ring from anywhere; the bin is unmarked exactly when it was alone |
| `Bins.Bins.UnlinkFirstSmallChunk` | kernel/generic/memory/dlmalloc.c:3640-3655 | the chunk after the header of a marked bin has exactly the size of that bin and is taken out |
| `Bins.Bins.LinkTestsPass` | kernel/generic/memory/dlmalloc.c:3618-3626 | in every valid state the run-time tests of the links succeed: no chunk is its own neighbour and its neighbours point back at it |
| `SmallRings.RingInserted` | kernel/generic/memory/dlmalloc.c:3607-3610 | the link writes of an insertion make a ring with the chunk in front |
| `SmallRings.RingRemoved` | kernel/generic/memory/dlmalloc.c:3627-3628 | the two link writes of a removal make a ring without the chunk |
| `MemoryMap.Map.BuildMemoryMap` | kernel/generic/init/multiboot.cc:173-321 | for every firmware map the result is sorted, disjoint, page-aligned; each address has the kind that the codes of the entries give it: bad memory if an entry of code 5 touches its page, else non-volatile for code 4, else reserved for code 2 or an unknown one, else reclaimable for code 3, else usable if an entry of code 1 contains the page, else none; touching regions have different kinds except where aligned entries of two kinds start together; failure only if the temporary area cannot hold three regions per entry |
| `MemoryMap.Map.ResolveOverlaps` | kernel/generic/init/multiboot.cc:238-321 | the loop that splits, joins and moves regions terminates, keeps the kind of every address and ends with no overlap, and with no touching regions of one kind except where regions of two kinds started together; the number of regions stays below three times the input |
| `MemoryMap.Map.JoinNext` | kernel/generic/init/multiboot.cc:249-263 | joining regions of one kind keeps the kind of every address and what is known of the starts |
| `MemoryMap.Map.ResolveSameStart` | kernel/generic/init/multiboot.cc:266-285 | two regions with one start: kinds are kept and the total length shrinks |
| `MemoryMap.Map.ResolveNextWins` | kernel/generic/init/multiboot.cc:287-301 | the next region is more restrictive: region i is cut or split; kinds are kept, the total shrinks |
| `MemoryMap.Map.ResolveRegionWins` | kernel/generic/init/multiboot.cc:302-318 | region i is more restrictive: the next is swallowed or beheaded; kinds are kept, the total shrinks |
| `MapSteps.SplitKept` | kernel/generic/init/multiboot.cc:288-301 | splitting region i around a more restrictive one keeps order, kinds and settled prefix |
| `MapSteps.StickOutKept` | kernel/generic/init/multiboot.cc:270-282 | only the part that sticks out of a more restrictive region stays |
| `MapSteps.BeheadKept` | kernel/generic/init/multiboot.cc:303-314 | moving the rest of a beheaded region behind later starts keeps order and kinds |
| `MemoryMap.SettledFew` | kernel/generic/init/multiboot.cc:238-321 | settled regions start at distinct entry bounds, so there are at most two per entry |
| `MapMerge.TurnParted` | kernel/generic/init/multiboot.cc:266-285 | when a region gives way to another with the same start, two touching regions of one kind can only result where regions of two kinds started together |
| `MapMerge.TailEases` | kernel/generic/init/multiboot.cc:271-314 | what is cut off from a region behind a more restrictive one never has the kind of what precedes it |
| `MemoryMap.BuiltJoined` | kernel/generic/init/multiboot.cc:238-321 | the result of the loop in terms of firmware entries |
| `MemoryMap.Map.SortRegions` | kernel/generic/init/multiboot.cc:229-230 | a permutation, sorted by start, with the kind of every address unchanged |
| `MemoryMap.Map.AddEntries` | kernel/generic/init/multiboot.cc:173-227 | every stored region is an aligned non-empty entry, and every address has the most restrictive kind of the aligned entries, aligned in 64-bit words; fails exactly if they do not fit |
| `FirmwareMap.AlignMeans` | kernel/generic/init/multiboot.cc:193-227 | usable entries shrink to the pages they contain, all others grow to the pages they touch |
| `FirmwareMap.AlignExact` | kernel/generic/init/multiboot.cc:203-223 | aligning in 64-bit words is right, and the result ends below 2^64, if and only if the entry does not reach the last page of the address space (a usable one, its last byte) |
| `FirmwareMap.AlignWrapsExample` | kernel/generic/init/multiboot.cc:214-223 | a reserved byte in the last page, whose aligned end is 2^64 |
| `FirmwareMap.LevelMeans` | kernel/generic/init/multiboot.cc:140-163 | the level of an address is the most restrictive kind that covers it, and absent exactly if nothing does |
| `FirmwareMap.RestrictiveOrder` | kernel/generic/init/multiboot.cc:140-163 | the order of restriction, from usable over reserved on boot, reclaimable, reserved, non-volatile and framebuffer to bad memory |
| `MemoryMap.EntryKind` | kernel/generic/init/multiboot.cc:122-227 | the most restrictive kind of the aligned entries, by the codes of the firmware and the pages they touch or contain |
| `MemoryMap.BuiltShows` | kernel/generic/init/multiboot.cc:173-321 | in a built map the region that covers an address is the only one and has that kind |
| `MemoryMap.Map.TempRegionsReserve` | kernel/generic/init/multiboot.cc:103-120 | grows exactly when the fixed temporary area has room, without losing regions |
| `MemoryMap.Map.InsertRegion` | kernel/generic/init/multiboot.cc:165-171 | inserts one region in place; fails exactly when the area is full |
| `MemoryMap.Map.MemoryMapReserve` | kernel/generic/init/multiboot.cc:333-404 | succeeds or runs out of room exactly if some usable region contains the page range, and then carves exactly that range out; no region becomes empty exactly if the length is positive or the start is not on a page boundary |
| `MemoryMap.RangeMeans` | kernel/generic/init/multiboot.cc:339-342 | the reserved pages are those the range touches, and there are none exactly for length zero at a page start |
| `MemoryMap.TestExact` | kernel/generic/init/multiboot.cc:339-355 | the containment test in 64-bit words is right for every region if and only if the page range ends below 2^64 |
| `MemoryMap.TestWrapsExample` | kernel/generic/init/multiboot.cc:339-355 | a range to the end of the address space that passes for a region of two pages |
| `MapReserve.FitsMeans` | kernel/generic/init/multiboot.cc:344-358 | a non-empty range is accepted exactly if one usable region contains it |
| `MapReserve.CarvedLevel` | kernel/generic/init/multiboot.cc:360-403 | a reservation is a pointwise update: the range becomes reserved on boot, every other address keeps its kind |
| `MapReserve.CarvedTotal` | kernel/generic/init/multiboot.cc:360-403 | a reservation keeps the total length |
| `MapReserve.CarvedTidy` | kernel/generic/init/multiboot.cc:360-403 | a reservation keeps order, disjointness and page alignment |
| `MapReserve.CarvedNoneEmpty` | kernel/generic/init/multiboot.cc:360-403 | no region becomes empty if and only if the reserved range is not empty |
| `MapReserve.EmptyReservationExample` | kernel/generic/init/multiboot.cc:379-403 | nothing reserved in the middle of the only usable region leaves an empty region |
| `MapReserve.CarvedEmpty` | kernel/generic/init/multiboot.cc:360-403 | only reservations can be empty |
| `MemoryMap.Map.InitMemory` | kernel/generic/init/multiboot.cc:436-463 | normalisation followed by any list of reservations: each address is reserved on boot if a reservation covers it, and otherwise has the kind that the codes of the entries give it as for BuildMemoryMap; only reservations are empty |
| `MemoryMap.UsableAfterBoot` | kernel/generic/init/multiboot.cc:436-463 | an address is left usable if and only if an available entry contains its page, no other entry touches it and no reservation covers it |
| `MemoryMap.BootShows` | kernel/generic/init/multiboot.cc:436-463 | the same after reservations |
| `MemObject.Object.RequestPage` | kernel/generic/memory/mem_object.cc:236-268 | finds the page or adds exactly one zeroed page without changing the meaning of any byte; page offsets stay unique and pages are conserved; out of range exactly beyond the object; out of memory exactly if the page is missing and none is free |
| `MemObject.Object.RequestPageCow` | kernel/generic/memory/mem_object.cc:221-268 | for a copy-on-write region an anonymous object answers with a private page of zeros whatever the offset; any other object as above; out of memory exactly if a page is needed and none is free |
| `MemObject.Object.ReadToKernel` | kernel/generic/memory/mem_object.cc:360-389 | the bytes read are those of the zero-initialised array, across any number of pages; the object gains exactly the missing pages of the range read; failure is at the first page that is beyond the object or missing with no page free, and says exactly how many bytes were read; a range which wraps around is not read at all |
| `MemObject.ReadWrapsExample` | kernel/generic/memory/mem_object.cc:360-389 | sixteen bytes across 2^64: success with the buffer untouched |
| `MemObject.Object.WriteFromKernel` | kernel/generic/memory/mem_object.cc:391-420 | exactly the written range of the byte array changes, to the given data, and the object gains exactly the missing pages of that range; failure as for reading; nothing for a range that wraps around |
| `MemRegions.TrimKeeps` | kernel/generic/memory/mem_regions.cc:182-220 | a page-aligned trim of a region whose start offset is below a page keeps what every remaining address denotes, and the region well-formed |
| `MemRegions.TrimExact` | kernel/generic/memory/mem_regions.cc:193-220 | for any start offset, trim keeps the meaning if and only if the front stays, the start offset is below a page, or no window byte remains |
| `MemRegions.TrimDenotes` | kernel/generic/memory/mem_regions.cc:182-220 | what every byte left by a trim stands for, for any start offset, in closed form; copy-on-write stays |
| `MemRegions.TrimShiftsExample` | kernel/generic/memory/mem_regions.cc:205-213 | a region with one page of leading zeros whose bytes move by a page when the front is trimmed |
| `MemRegions.PunchKeeps` | kernel/generic/memory/mem_regions.cc:222-257 | the two parts around a hole denote what the region did if its start offset is below a page, and cover exactly the rest |
| `MemRegions.PunchExact` | kernel/generic/memory/mem_regions.cc:222-257 | for any start offset, the part before a hole keeps its meaning, and the part after it if and only if the start offset is below a page or no window byte remains |
| `AddressSpace.Space.ReleaseInRange` | kernel/generic/memory/paging.cc:109-156 | for regions with any start offset: they stay ordered and disjoint, and for every address the result says what it shows and whether copy-on-write: only the region that holds the start of the range changes, from there on the range is unmapped, and what lies behind shows the bytes that trimming the front leaves; all other addresses denote what they did if and only if what remains behind the range has a safe front; refused if and only if the range divides a region and there is no memory, and then nothing changes |
| `AddressSpace.ReleaseExact` | kernel/generic/memory/paging.cc:126-148 | after a release the whole range is unmapped if and only if no region starts inside it after its first address |
| `AddressSpace.ReleaseSkipsExample` | kernel/generic/memory/paging.cc:131-135 | two adjacent regions, released together, of which the second stays |
| `AddressSpace.Space.PunchHole` | kernel/generic/memory/paging.cc:113-124 | the same for a hole in the middle of a region |
| `AddressSpace.Space.GetSmallerOrEqual` | kernel/generic/memory/paging.cc:113-113 | the last region that starts at or before the address |
| `PageFault.AllocPage` | kernel/generic/memory/mem_regions.cc:286-385 | every page a successful fault installs shows exactly the bytes the region denotes there, including partial first and last pages and anonymous objects; it is the object's own page, at its exact offset, if and only if the region is not copy-on-write, or the fault is a read of a page inside the window of an object that is not anonymous; a fault is refused if and only if it asks the object for a page beyond its size, and out of memory if and only if fewer pages are free than it needs; exactly those pages are taken, and the object gains exactly the missing page it was asked for |
| `PageFault.RefusedExact` | kernel/generic/memory/mem_regions.cc:286-367 | a fault is refused if and only if some byte of the page is missing from the object, or an empty window lies strictly inside the page and its place in the object is missing |
| `PageFault.ZerosRefused` | kernel/generic/memory/mem_regions.cc:286-367 | a page of zeros is refused exactly in the case of the empty window |
| `PageFault.EmptyWindowExample` | kernel/generic/memory/mem_regions.cc:286-367 | such a region: every byte is zero and the object's page is asked for |
| `PageFault.EmptyWindowFault` | kernel/generic/memory/mem_regions.cc:286-367 | the fault in that region is refused with memory at hand |
| `PageFault.AllocPhysPage` | kernel/generic/memory/mem_regions.cc:128-141 | the physical page of a fault shows the bytes of the region |
| `PageFault.MapCopy` | kernel/generic/memory/mem_regions.cc:329-367 | a private copy with the bytes outside the window cleared shows the region's bytes |
| `PageFault.RequestAnonymousPage` | kernel/generic/memory/mem_object.cc:180-219 | a zeroed page (always for an anonymous object) or a copy of the object's page, with the bytes of the object unchanged; refused exactly beyond the object; out of memory exactly if fewer pages are free than needed; exactly those are taken |
| `DeviceTree.RoundTrip` | kernel/smoldtb/smoldtb.c:334-382 | parsing the encoding of any tree, with any cells that are no tokens between its items, gives the same tree with children and properties in reverse order, and fails exactly when the slots run out |
| `DeviceTree.BodyRound` | kernel/smoldtb/smoldtb.c:345-381 | the same for the items of a node |
| `DeviceTree.NodeParsed` | kernel/smoldtb/smoldtb.c:334-382 | if the cells hold a node, described by a relation without reference to the parser, then parsing gives that node, mirrored, exactly if there is room |
| `DeviceTree.ParsedMeans` | kernel/smoldtb/smoldtb.c:334-382 | conversely, whatever the parser accepts is such a node |
| `DeviceTree.PackByte` | kernel/smoldtb/smoldtb.c:317-332 | bytes packed into big-endian cells read back in order |
| `DeviceTree.NodePaid` | kernel/smoldtb/smoldtb.c:334-382 | whatever the input, a parse uses no more node and property slots than there are such tokens in the cells it consumed |
| `DtbParser.Parser.AllocBuffers` | kernel/smoldtb/smoldtb.c:230-266 | the pre-count is the number of node and property tokens of the whole block |
| `DtbParser.Parser.ParseNodeAt` | kernel/smoldtb/smoldtb.c:334-382 | the recursive in-place parser computes ParseNode for every input, including malformed ones, and accounts for its allocations |
| `DtbParser.Parser.ParseProp` | kernel/smoldtb/smoldtb.c:317-332 | the property read and the offset it advances to; no slot and cut short are told apart exactly |
| `DtbParser.Parser.DtbInit` | kernel/smoldtb/smoldtb.c:384-423 | the top-level scan parses every root in order |
| `DtbParser.BlockParsed` | kernel/smoldtb/smoldtb.c:185-203 | a block of any number of root nodes, with any other cells before, between (at least one) and after them, parses to the reversed trees if and only if some cell outside the trees' own tokens pays for the slot that each allocator leaves unused |
| `DtbParser.ForestScan` | kernel/smoldtb/smoldtb.c:405-423 | the top-level scan over any number of roots, from any offset |
| `DtbParser.AdjacentLost` | kernel/smoldtb/smoldtb.c:405-423 | a root that directly follows another one is not found, because the scan skips a cell after each root |
| `DtbParser.NodeStays` | kernel/smoldtb/smoldtb.c:334-382 | on any block whose last cell starts with a zero byte and is no node token, and whose last two cells are no property tokens, nothing beyond the block is read |
| `DtbParser.NoSpareExample` | kernel/smoldtb/smoldtb.c:185-203 | the smallest tree has no spare slot and is not parsed |
| `LockCarousel.Carousel.Insert` | kernel/generic/types.hh:182-218 | the array stays strictly ascending, so free of duplicates, and gains exactly the lock |
| `LockProtocol.StepInv` | kernel/arch/riscv64/spinlock.cc:34-64 | every atomic load, exchange or store of any CPU, in a blocking or a trying acquisition or a release, keeps each lock word equal to whether someone holds it |
| `LockProtocol.TryEnds` | kernel/arch/riscv64/spinlock.cc:53-64 | trying a lock ends within 32 rounds whatever the others do, with the lock if its word was exchanged and without it otherwise |
| `LockProtocol.MutualExclusion` | kernel/arch/riscv64/spinlock.cc:34-64 | in every state of every run at most one CPU holds a lock |
| `LockProtocol.NoCircularWait` | kernel/generic/types.hh:182-218 | no chain of CPUs waiting for each other closes |
| `LockProtocol.NoDeadlock` | kernel/generic/types.hh:182-218 | in every state of every run in which some CPU is not idle, some CPU has a step of the protocol that leaves it strictly less to do |
| `LockProtocol.CanFinish` | kernel/generic/types.hh:182-218 | every run can be continued until all CPUs are idle and all locks are free |
| `LockProtocol.Acquires` | kernel/arch/riscv64/spinlock.cc:34-47 | a CPU that begins to take locks which nobody else holds is inside with exactly these locks after two steps of its own for each, whatever others do in between |
| `LockProtocol.TryTakes` | kernel/arch/riscv64/spinlock.cc:53-64 | trying a free lock takes it in two steps |
| `LockProtocol.GivesUpLate` | kernel/arch/riscv64/spinlock.cc:53-64 | trying ends without the lock only after it was found taken 32 times |
| `FpuSwitch.SwitchAgrees` | kernel/arch/loongarch64/floating_point.cc:128-174 | each single access of a switch (save, disable, change of task, enable, restore) and of the fault handler keeps every task's own register values, whatever other CPUs do in between |
| `FpuSwitch.TasksSeeTheirOwn` | kernel/arch/loongarch64/floating_point.cc:128-174 | in every run over any tasks and CPUs, with switches and faults interleaved, FP is enabled on a CPU that runs its task exactly if the task uses FP, and the registers then hold that task's own last writes, zeros at first |
| `FpuSwitch.SaveAndRestoreApply` | kernel/arch/loongarch64/floating_point.cc:91-143 | the assertions of saving and restoring hold in every run: registers are saved only for a task that uses FP, and saved or restored only where there are registers |
| `FpuSwitch.SupportsFrom` | kernel/arch/loongarch64/floating_point.cc:145-166 | which extension each kind of instruction needs, by the order of the levels |
| `FpuSwitch.UsesFrom` | kernel/arch/loongarch64/floating_point.cc:149-174 | a task starts to use FP at its first supported fault and never stops |
| `FpuSwitch.MayRun` | kernel/generic/sched/sched.cc:154-167 | a running CPU may switch to its own task and to any that no CPU runs, is switching to or is leaving, and its task may use FP or fault |
| `FpuSwitch.SwitchArrives` | kernel/arch/loongarch64/floating_point.cc:128-143 | a CPU that has picked a task next runs that task, whatever other CPUs do meanwhile |
| `FpuSwitch.GoesOn` | kernel/arch/loongarch64/floating_point.cc:91-143 | a CPU in the middle of a switch or fault always has a step |
| `FpuSwitch.MayStart` | kernel/arch/loongarch64/floating_point.cc:32-55 | there is a start for any number of CPUs with a task each, at any level |
| `FpuSwitch.EachStepOn` | kernel/arch/loongarch64/floating_point.cc:91-143 | every step of a switch or fault brings it closer to its end |
| `FpuSwitch.FaultServed` | kernel/arch/loongarch64/floating_point.cc:149-174 | a supported fault ends with FP enabled and the registers of the task loaded |
| `FpuSwitch.FaultRefused` | kernel/arch/loongarch64/floating_point.cc:151-166 | an unsupported one changes nothing |
| `InitPmm.Setup.CreateRegions` | kernel/generic/init/kernel_pages.cc:419-437 | all RAM addresses and no others are covered by the pieces, which are non-empty, ordered and disjoint, each in one zone; each piece has its page array in the first usable entry of the map with room inside the piece; over the whole map each usable page outside the page arrays and the temporary pool is freed exactly once and no other page is; the memory map is restored |
| `InitPmm.Setup.SplitIntoRegions` | kernel/generic/init/kernel_pages.cc:362-415 | a run is cut into a chain of pieces without gap or overlap; terminates because the address strictly increases |
| `InitPmm.Setup.CutPiece` | kernel/generic/init/kernel_pages.cc:385-413 | trims the first and last entry, sets the piece up, accounts for the pages it frees and restores both entries |
| `InitPmm.ChainCovers` | kernel/generic/init/kernel_pages.cc:362-415 | a chain covers exactly its range, in order |
| `InitPmm.RunHandled` | kernel/generic/init/kernel_pages.cc:419-437 | handling one maximal run extends what is handled, and pieces of different runs do not meet |
| `InitPmm.AccountPiece` | kernel/generic/init/kernel_pages.cc:385-413 | what one more piece frees completes the account up to its end |
| `InitPmm.PieceInZone` | kernel/generic/init/kernel_pages.cc:362-384 | no piece reaches across one mebibyte or four gibibytes |
| `InitPmm.RoomKept` | kernel/generic/init/kernel_pages.cc:385-413 | the room found in the trimmed entries is the first one that the map has in the piece |
| `InitPmm.RamByCodes` | kernel/generic/init/kernel_pages.cc:419-437 | which addresses are RAM after start-up, by the codes of the firmware entries |
| `PageArray.SetUp` | kernel/generic/init/kernel_pages.cc:167-360 | within a piece exactly the usable pages outside the temporary pool and the page array's own room are freed, each once, pages inside the pool stay unset, all others are marked allocated, between two reserved sentinels, and every index stays in the array; the room is in the first region that can hold it and has exactly the pages needed |
| `PageArray.FreedExact` | kernel/generic/init/kernel_pages.cc:265-358 | in terms of addresses: a page is freed if and only if some entry gives it away |
| `PageArray.SetUpRegion` | kernel/generic/init/kernel_pages.cc:265-358 | one entry of the above, without disturbing the pages done before |
| `PageArray.FreePages` | kernel/generic/init/kernel_pages.cc:315-339 | frees exactly a range that was not freed before and guards its end |
| `PageArray.ChooseRoom` | kernel/generic/init/kernel_pages.cc:201-226 | the first usable entry other than the temporary pool that can hold the page array, if any |
| `InterruptService.StepInv` | kernel/generic/interrupts/interrupt_handler.cc:84-133 | every delivery, completion, destruction, creation and queue change keeps: the line is masked exactly while a right is pending, with one completion per delivery |
| `InterruptService.RunInv` | kernel/generic/interrupts/interrupt_handler.cc:84-265 | the same over every run |
| `InterruptService.OneCompletion` | kernel/generic/interrupts/interrupt_handler.cc:193-216 | however the notified rights complete or disappear, interrupt_complete happens exactly once, when the last pending right is gone |
| `InterruptService.Effects` | kernel/generic/interrupts/interrupt_handler.cc:84-265 | what each step does to each right by its id: a completion clears only its own flag, a destruction removes only its own right, a creation adds one that is neither sent nor pending, a delivery marks exactly the unsent ones; and exactly when the line is masked, released and switched on |
| `InterruptService.PendingAfter` | kernel/generic/interrupts/interrupt_handler.cc:193-216 | over any steps without a delivery, exactly the rights that complete or are destroyed stop being pending |
| `InterruptService.MaskedExactly` | kernel/generic/interrupts/interrupt_handler.cc:193-216 | after a delivery the line stays masked if and only if some right that was notified has neither completed nor been destroyed itself |
| `InterruptService.DeliveryExact` | kernel/generic/interrupts/interrupt_handler.cc:170-191 | a delivery keeps the invariant if and only if there is no right or some right is not already sent |
| `InterruptService.StuckExample` | kernel/generic/interrupts/interrupt_handler.cc:175-177 | a delivery that finds its only right already sent leaves the line masked with nothing pending |
| `InterruptService.StuckForGood` | kernel/generic/interrupts/interrupt_handler.cc:193-216 | no sequence of completions, destructions, creations and queue changes ever completes such a line |
| `InterruptService.Handler.HandleHardwareInterrupt` | kernel/arch/loongarch64/pic.cc:533-543 | one delivery step, including the case without handlers |
| `InterruptService.Handler.CompleteRight` | kernel/generic/interrupts/interrupt_handler.cc:193-216 | one completion step, refused when nothing is pending |
| `InterruptService.Handler.DestroyRight` | kernel/generic/interrupts/interrupt_handler.cc:104-133 | one destruction step, including the completion it may owe |
| `InterruptService.Handler.CreateForPort` | kernel/generic/interrupts/interrupt_handler.cc:218-265 | one creation step; only for a task pinned to the CPU |
| `PicAllocation.Pic.AllocateOrGetHandler` | kernel/arch/loongarch64/pic.cc:439-481 | the same interrupt always gets the same slot, no assignment ever moves; a new one gets the lowest unused slot of the first least loaded CPU; not found exactly if no controller covers it, no room exactly if it has no slot yet and that CPU has none left; per-CPU counts equal the interrupts served and differ by at most one |
| `PicAllocation.Injective` | kernel/arch/loongarch64/pic.cc:470-475 | no slot serves two interrupts |
| `PicAllocation.CountedGrows` | kernel/arch/loongarch64/pic.cc:478-478 | the per-CPU count stays the number of interrupts served |
| `PicAllocation.BalanceKept` | kernel/arch/loongarch64/pic.cc:451-456 | loading a least loaded CPU keeps all loads within one of each other |
| `PicAllocation.Pic.BiopicPush` | kernel/arch/loongarch64/pic.cc:176-193 | insertion keeps the vector in descending order and does not change the slot of an interrupt the new controller does not cover |
| `PicAllocation.Pic.GetBiopic` | kernel/arch/loongarch64/pic.cc:429-437 | the first controller that covers the interrupt |
| `FreqFraction.Mul64Exact` | kernel/generic/utils.hh:101-123 | the product of halves is the exact 128-bit product |
| `FreqFraction.ShrExact` | kernel/generic/utils.hh:126-142 | the word-wise shift is division by a power of two, for every shift |
| `FreqFraction.TimesExact` | kernel/generic/utils.hh:151-158 | multiplication by a fraction rounds down and loses nothing |
| `FreqFraction.ComputedExact` | kernel/generic/utils.hh:164-171 | the fraction is the quotient at its scale, rounded down, and the shift does not overflow |
| `FreqFraction.ConversionError` | kernel/generic/utils.hh:151-171 | a conversion never exceeds num*rhs/denom and falls short by less than 1 + rhs/2^s |
| `FreqFraction.TimesMonotone` | kernel/arch/loongarch64/timer.cc:75-90 | conversion is monotone |
| `FreqFraction.RoundTripNotLater` | kernel/arch/loongarch64/timer.cc:36-37 | if the conversion of nanoseconds to ticks fits, so does the way back, and it never gives a later time |
| `FreqFraction.BackFits` | kernel/generic/utils.hh:151-158 | the assertion of the multiplication cannot fail on the way back |
| `LoaderBitmap.Bitmap.Mark` | loader/src/mem.c:37-63 | marking by words equals setting every page bit of the range, for every base, size and flag, and changes nothing else |
| `LoaderBitmap.Bitmap.AllocPage` | loader/src/mem.c:94-112 | returns the lowest free page from word 4 upward and takes only it; with none left it returns page 0 |
| `LoaderBitmap.NoneFreeExample` | loader/src/mem.c:94-112 | a bitmap without a free page, from which page 0 is handed out |

## Left out

- Malloc.Heap.Malloc: what `mmap` returns is a parameter (0 for failure) and is constrained to fresh pages; the source compares with the all-ones address while `palloc` returns null.
- Malloc.Heap.Realloc: payload bytes are kept apart from the tag words; `HeapTheorems.PayloadsPlain` says that tags never lie in a live payload.
- Malloc.Heap.Free: invalid or repeated frees are excluded by `requires`; the source aborts on those it detects.
- Malloc.Heap.ReleaseUnusedSegments: the branch for a successful `munmap`, which never happens here.
- Malloc.Heap.ResizeInPlace: remapping a direct mapping; the kernel has no `mremap`.
- Bins.Bins.InsertSmallChunk: bin maps are sets of indices, and the links of free chunks are kept apart from the tag words.
- Heap: footer magic, error actions, statistics, trimming, MORECORE, mspaces, `memalign`, `calloc`, bulk allocation, locking, 32-bit sizes, and the x86 variant of `compute_tree_index`, which truncates to 32 bits. Head and foot words are two maps, since they never share an address; `Segment.stop` records where the chunks of a segment end.
- MemoryMap.Map.BuildMemoryMap: what the loop makes of entries that wrap around (`FirmwareMap.AlignExact` says which those are); panics are results; which of the touching regions of one kind stay apart where aligned entries of two kinds start together.
- MemoryMap.Map.MemoryMapReserve: what becomes of the map after the test was passed by a range that wraps around (`MemoryMap.TestExact`).
- MemoryMap.Map.InitMemory: the same two remarks.
- Multiboot tags, framebuffer and module lists, the final copy into the kernel's vector.
- MemObject.Object.RequestPage: objects with a pager, physically contiguous objects, page locking; the supply of pages is a counter.
- MemObject.Object.ReadToKernel: buffers within a page of 2^64 bytes; anonymous objects, which the source asserts away.
- PageFault.AllocPage: page tables, TLB, access rights of the installed page, and resolution of already mapped anonymous pages; isolation of later writes depends on code outside these files.
- PageFault.AllocPhysPage: entering the page in the page table.
- AddressSpace.Space.ReleaseInRange: the region tree is a sorted sequence; page invalidation and RCU.
- MemRegions: `move_to`, access rights and cache policy.
- DtbParser.Parser.DtbInit: header checks, lookups by path, phandle or compatible string, reading of cells; special properties, which the code never reaches.
- InitPmm.Setup.CreateRegions: empty regions other than boot reservations, which `MemoryMap.Map.InitMemory` never makes; the memory limits of i386; the fix-up of the temporary pool.
- PageArray.SetUp: the body of `free_page` and its coalescing.
- LockProtocol.StepInv: memory ordering (steps are sequentially consistent) and interrupts.
- FpuSwitch.SwitchAgrees: the register file is one value, and the control word is part of it; how the scheduler picks a task, except that it picks none that another CPU runs, switches to or has not yet left (`kernel/generic/sched/sched.cc:165-167` requeues the old task only after the switch).
- InterruptService.StepInv: other CPUs in the middle of a delivery, completion, destruction or creation.
- InterruptService.Handler.HandleHardwareInterrupt: controller registers, the interrupt mask words and which line they name, port queues, and deletion of rights.
- PicAllocation.Pic.AllocateOrGetHandler: programming the controllers; slots are never given back, as in the source.
- FreqFraction.Mul64Exact: the bitwise "or" of disjoint bits is addition.
- FreqFraction.ComputedExact: a zero or 64-bit-wide numerator, for which the source's shift is undefined or fails its assertion.
- LoaderBitmap.Bitmap.Mark: words are sets of bit positions; ranges beyond the bitmap are excluded.
- Page tables, scheduler, IPC ports, system calls, ELF loading, device drivers and user space.
