# Models of a MIPS test bench and its bare-metal C library

The repository holds a Verilator test bench in C++ for a pipelined MIPS CPU with caches, and C programs and library
code that run on the bare machine. This project models the parts of that software which carry state or arithmetic,
and proves what each of them promises for all inputs, all traces and all interleavings.

* **Storage allocator** (`ArenaSpec`, `ArenaTheorems`, `Allocator`): the next-fit allocator with a circular,
  address-ordered free list. `ArenaSpec` describes it as an algebra of spans, `Allocator` as header fields threaded
  through memory and changed in place; the class is proved to implement the spans, the theorems speak of all runs.
* **Word memory** (`Words`, `Memory`): 32-bit words, byte strobes, masked stores, byte-wise mapping, reset.
* **Reference caches** (`CacheSpec`, `CacheTheorems`, `CacheRecency`, `CacheRef`, `LineBuffer`, `CacheAgreement`): the
  4-way write-back cache with replacement by rotation and the write-through line buffer, as values with their theorems
  and as classes over arrays. Both refine a flat memory, so they agree on every trace.
* **Sub-word accesses** (`LoadOps`, `ByteAccess`): strobe, mask, place and apply; byte, halfword and word accesses
  through the cache act on one little-endian byte array.
* **Bursts** (`Axi`, `CBusSpec`, `CBusBursts`, `CBusDevice`): the wrap-burst address generator against the pseudocode
  of section A3.4.2 of the AMBA AXI and ACE Protocol Specification, and the memory device on the cache bus, cycle by
  cycle, with arbitrary pauses.
* **Data-bus pipeline** (`PipelineSpec`, `PipelineRuns`, `PipelineOrder`, `DBusPipeline`): two queues driven by handshakes.
  Every bus keeps the order of the tasks, and over a memory that answers in order every interleaving has the effect of
  executing the submitted tasks one after another.
* **Parallel test runner** (`Dispatcher`, `DispatchMaster`): one master and n workers over FIFO pipes as a transition
  system with every interleaving, crashes and kills included, and the master's loop over one ready set.
* **Numbers as text** (`Numerals`, `Strtoul`, `Atob`): `strtoul`, `btoa` and `atob` for a 32-bit `unsigned long`, with
  exact overflow and the round trips between printer and parsers.
* **Memory images** (`Convert`, `Feed`, `ImagePath`): the printer of image files, the reader of the test bench, and the
  chain from a byte file to the mapped memory.

Functions named after an operation give its meaning; the classes and methods follow the program's own loops and field
updates and are proved equal to those functions; lemmas state what the functions, and hence the objects, guarantee.

Five statements one might expect turn out to hold only under a condition. The code was kept as it is, and the exact
condition is proved. The size of a `malloc` request must not wrap when it is rounded up (`ArenaSpec.UnitsExact`), and
the core it needs must end inside the address space, which neither the 32-bit product handed to `sbrk` nor the sum in
`sbrk` notices (`ArenaSpec.CoreBytesExact`, `ArenaSpec.BreakExact`; together in `ArenaTheorems.PayloadIsExclusive`). A
wrap burst in the last window of the address space, whose upper boundary is stored as 0, loses its way unless it is too
short to show it (`Axi.WrapExact`). The burst generator differs from the pseudocode it cites after an unaligned start in
the last slot (`Axi.FollowsReference`). And `strtoul` skips a prefix `0X` incompletely when base 16 is requested
explicitly, where its comment promises to discard it (`Strtoul.PrefixExact`).

`dafny verify dfyconfig.toml` checks the whole project.

## Model

| member | source | states |
|---|---|---|
| ArenaSpec.UnitsExact | vivado/test5/soft/perf_func/lib/malloc.c:73 | a request of `nbytes` gets payload for all of them, and less than a unit more, if and only if rounding up stays below 2^32; where it wraps, the block is a bare header |
| ArenaSpec.CoreUnits | vivado/test5/soft/perf_func/lib/malloc.c:104 | core is asked for in multiples of `NALLOC` units, never fewer than needed and never a whole multiple too many |
| ArenaSpec.CoreBytesExact | vivado/test5/soft/perf_func/lib/malloc.c:105 | the 32-bit product handed to `sbrk` is the size of the core if and only if at most 0x1FFFFF80 units are needed, and a positive `int` if and only if at most 0x0FFFFF80 are |
| ArenaSpec.HugeRequestGetsNoCore | vivado/test5/soft/perf_func/lib/malloc.c:73-105 | a witness: a request of 0xFFFFFFF0 bytes does not wrap when rounded up, yet `sbrk` is asked for 0 bytes |
| ArenaSpec.BreakExact | vivado/test5/soft/perf_func/lib/malloc.c:59-65 | with both sums in 32 bits, the core that `morecore` formats lies below the moved break if and only if it ends inside the address space; ending with it, the break becomes 0 |
| ArenaSpec.NextFitExact | vivado/test5/soft/perf_func/lib/malloc.c:78-93 | one circle from behind the rover finds a node if and only if some free node is big enough, and the node found is; so `sbrk` is asked exactly when nothing fits |
| ArenaSpec.NextFitIsFirst | vivado/test5/soft/perf_func/lib/malloc.c:78-92 | next fit: walking the circle from the node behind the rover, every node before the chosen one is too small |
| ArenaSpec.BelowSeparates | vivado/test5/soft/perf_func/lib/malloc.c:121-123 | the node below a live block divides the free list: all nodes up to it end before the block, all later ones start behind it |
| ArenaSpec.InsertUnits | vivado/test5/soft/perf_func/lib/malloc.c:124-133 | conservation: coalescing with either, both or no neighbour adds exactly the freed units to the free list |
| ArenaSpec.InsertOrdered | vivado/test5/soft/perf_func/lib/malloc.c:124-133 | after linking and coalescing the list is still in address order with a gap between all neighbours: no two free spans touch |
| ArenaSpec.InsertApart | vivado/test5/soft/perf_func/lib/malloc.c:124-133 | coalescing swallows no unit of any other block |
| ArenaSpec.ReleaseKeepsInv | vivado/test5/soft/perf_func/lib/malloc.c:115-135 | `free` of any live block keeps the whole allocator invariant |
| ArenaSpec.ReleaseRover | vivado/test5/soft/perf_func/lib/malloc.c:129-134 | after `free` the rover is at the last node that starts below the freed block |
| ArenaSpec.ExtendKeepsInv | vivado/test5/soft/perf_func/lib/malloc.c:104-109 | core just obtained is a block like any other, disjoint from everything, before `morecore` frees it |
| ArenaSpec.GrowKeepsInv | vivado/test5/soft/perf_func/lib/malloc.c:97-112 | `morecore` keeps the invariant and no live block changes |
| ArenaSpec.CutUnits | vivado/test5/soft/perf_func/lib/malloc.c:80-86 | conservation: the free list loses exactly the units of the block handed out |
| ArenaSpec.CutNodes | vivado/test5/soft/perf_func/lib/malloc.c:79-86 | after unlinking or shortening a node the list is still ordered, inside the core, and headed by `base` |
| ArenaSpec.CutLeavesTail | vivado/test5/soft/perf_func/lib/malloc.c:82-86 | the tail handed out overlaps no span left in the free list |
| ArenaSpec.CarveKeepsInv | vivado/test5/soft/perf_func/lib/malloc.c:79-89 | taking a block off any big enough node keeps the invariant, and the block was not live before |
| ArenaTheorems.Initial | vivado/test5/soft/perf_func/lib/malloc.c:74-77 | the list holding only `base`, linked to itself, satisfies the invariant |
| ArenaTheorems.BelowIs | vivado/test5/soft/perf_func/lib/malloc.c:121-123 | the address order determines the node below a block: it is the only node with the block between itself and its successor |
| ArenaTheorems.GrowAtTop | vivado/test5/soft/perf_func/lib/malloc.c:97-112 | new core merges into the topmost free span if that reaches the break, becomes a new last node otherwise, and the rover is left at that place |
| ArenaTheorems.SupplyFits | vivado/test5/soft/perf_func/lib/malloc.c:90-93 | after at most one visit to `morecore` one more circle always finds room, also when the new core merged into the block left as `allocp`; `base` is never chosen |
| ArenaTheorems.AllocateKeepsInv | vivado/test5/soft/perf_func/lib/malloc.c:67-94 | malloc keeps the invariant, adds exactly one live block of the computed size at an address that was not live, leaves all others as they were, and moves the break only when nothing fitted |
| ArenaTheorems.AllocateTakesTail | vivado/test5/soft/perf_func/lib/malloc.c:79-88 | the block is the last units of the node next fit chooses; that node is shortened or unlinked, all other nodes stay, and the rover is left at the node before it |
| ArenaTheorems.ServesExact | vivado/test5/soft/perf_func/lib/malloc.c:79-92 | a request is served if and only if some node is big enough or the core for it ends inside the address space, and refused if and only if no node is and the address space is used up |
| ArenaTheorems.PayloadIsExclusive | vivado/test5/soft/perf_func/lib/malloc.c:73-110 | the block lies inside the core and is disjoint from every live block and every free span; it has room for the bytes asked for and all addresses stay inside the address space if and only if rounding up does not wrap and the core, where more is needed, ends inside the address space |
| ArenaTheorems.BreakBoundsAll | vivado/test5/soft/perf_func/lib/malloc.c:84-129 | as long as the break is inside the address space no sum of an address and a size, in any line that forms one, leaves it |
| ArenaTheorems.ReplyKeepsInv | vivado/test5/soft/perf_func/lib/malloc.c:67-94 | on a 32-bit machine malloc, serving or refusing with NULL, keeps the invariant and the break inside the address space; a refusal changes no node, no block and not the rover |
| ArenaTheorems.FreeUndoesMalloc | vivado/test5/soft/perf_func/lib/malloc.c:67-135 | freeing what malloc just returned restores, span by span, the free list it was cut from, and the set of live blocks |
| ArenaTheorems.AllFreedIsOneSpan | vivado/test5/soft/perf_func/lib/malloc.c:124-134 | once everything is freed the free list is one span covering all core ever obtained |
| ArenaTheorems.RunKeepsInv | vivado/test5/soft/perf_func/lib/malloc.c:67-135 | any sequence of frees of live blocks and of mallocs that are served or refused keeps the invariant and stays inside the address space; the break only grows and `base` stays |
| ArenaTheorems.EveryRunIsSound | vivado/test5/soft/perf_func/lib/malloc.c:67-135 | over every run from the first call on a 32-bit machine: one address-ordered list headed by `base`, no adjacent free spans, disjoint live blocks, free units plus live units equal to what `sbrk` gave, full coalescing when nothing is live, and no address or sum of one with a size beyond 2^32 |
| Allocator.SearchStopsBelow | vivado/test5/soft/perf_func/lib/malloc.c:121-122 | the exit test of the search in `free`, wrap case included, holds at exactly one node of the circle: the one below the block |
| Allocator.ReleaseThreads | vivado/test5/soft/perf_func/lib/malloc.c:124-134 | the two joins of `free`, on header fields in memory, thread exactly the free list that the span-level release describes |
| Allocator.ReleaseRepresents | vivado/test5/soft/perf_func/lib/malloc.c:115-135 | from a state that represents an arena, `free` leads to a state that represents the released arena |
| Allocator.ReleaseNoWrap | vivado/test5/soft/perf_func/lib/malloc.c:124-129 | the two address sums `free` compares stay inside the address space, so comparing them in 32 bits is exact |
| Allocator.BreakIsZero | vivado/test5/soft/perf_func/lib/malloc.c:105-106 | `sbrk` returns the null pointer if and only if the break is the end of the address space |
| Allocator.SbrkMoves | vivado/test5/soft/perf_func/lib/malloc.c:60-65 | passing the size as a signed `int` moves the break to the same 32-bit address |
| Allocator.RefuseRepresents | vivado/test5/soft/perf_func/lib/malloc.c:90-92 | after a refusal memory still represents the same arena |
| Allocator.CarveThreads | vivado/test5/soft/perf_func/lib/malloc.c:79-87 | the header writes of malloc thread exactly the list with the block cut off |
| Allocator.CarveRepresents | vivado/test5/soft/perf_func/lib/malloc.c:79-87 | the same with `allocp` and the invariant: memory represents the carved arena |
| Allocator.OneWrapLink | vivado/test5/soft/perf_func/lib/malloc.c:121-122 | every link points to the next node in address order, except exactly one, which goes from the topmost node back to `base` |
| Allocator.PayloadWritesAreHarmless | vivado/test5/soft/perf_func/lib/malloc.c:73-89 | whatever callers write into their payloads, the headers still represent the same arena |
| Allocator.CircleInsert | vivado/test5/soft/perf_func/lib/malloc.c:124-133 | linking a span between neighbours, with either join, yields a closed circle of the inserted list |
| Allocator.SearchStep | vivado/test5/soft/perf_func/lib/malloc.c:78-92 | a node that is too small is passed for good: the search either moves one node closer to the rover or has failed for the whole list |
| Allocator.Allocator.FindBelow | vivado/test5/soft/perf_func/lib/malloc.c:121-123 | the search of `free` terminates at the node below the block, from any rover |
| Allocator.Allocator.Coalesce | vivado/test5/soft/perf_func/lib/malloc.c:124-133 | the header writes of `free` have the effect of the two joins in order |
| Allocator.Allocator.Free | vivado/test5/soft/perf_func/lib/malloc.c:115-135 | `free` releases the block whose header is one unit below the pointer, and only that one, and the memory represents the arena with it released |
| Allocator.Allocator.Morecore | vivado/test5/soft/perf_func/lib/malloc.c:97-112 | on 32-bit byte addresses: the new core enters through `free` and the rover is returned, or, if the address space is used up, NULL is returned and the free list is untouched |
| Allocator.Allocator.Start | vivado/test5/soft/perf_func/lib/malloc.c:74-77 | the first call sets up the list of `base` alone, for the same arena |
| Allocator.Allocator.FindFit | vivado/test5/soft/perf_func/lib/malloc.c:78-93 | the search of malloc terminates with at most one `morecore`, at the node next fit selects and with its predecessor in hand, or with NULL when `morecore` returns it |
| Allocator.Allocator.Detach | vivado/test5/soft/perf_func/lib/malloc.c:80-86 | the header writes at the chosen node, exact fit or tail |
| Allocator.Allocator.Malloc | vivado/test5/soft/perf_func/lib/malloc.c:67-94 | the pointer is one unit behind the header of the new block: `ap - 1` becomes a live block of the computed size that was not live, and every unit asked for lies in its payload; memory represents the arena that the span-level allocation defines; for a request with a payload the result is NULL if and only if nothing fits and the address space is used up |
| Allocator.ReturnedAddress | vivado/test5/soft/perf_func/lib/malloc.c:88 | no 32-bit wrap gets between the header of a block with a payload and the pointer to its payload |
| Words.MaskLanes | verilate/include/common.h:39-44 | every byte lane of a table entry is all ones or all zeros, as the strobe bit says |
| Words.StoreByte | verilate/source/memory.cpp:118-125 | a masked store changes exactly the strobed bytes of a word |
| Words.SameBytes | verilate/source/memory.cpp:86-93 | a word is determined by its four bytes |
| Words.WordIsBytes | verilate/source/memory.cpp:86-93 | a word is its four bytes, byte 0 lowest |
| Memory.SameBytesSameWords | verilate/source/memory.cpp:86-93 | a memory is determined by its byte view |
| Memory.PutByteLanes | verilate/source/memory.cpp:87-92 | the shift-and-mask update of `map` replaces one byte lane and keeps the other three |
| Memory.MapStep | verilate/source/memory.cpp:86-93 | each turn of the `map` loop extends the mapped prefix of the image by one byte and keeps all other bytes |
| Memory.BlockMemory.constructor | verilate/source/memory.cpp:47-52 | zeroed words, and the same saved for reset |
| Memory.BlockMemory.FromImage | verilate/source/memory.cpp:60-64 | the image lies at the start, zeros behind it, and this is what is saved |
| Memory.BlockMemory.Reset | verilate/source/memory.cpp:78-80 | the saved contents are back, whatever was stored since |
| Memory.BlockMemory.Store | verilate/source/memory.cpp:118-128 | one word merged under the mask, all others and the saved copy untouched |
| Memory.BlockMemory.Map | verilate/source/memory.cpp:82-94 | afterwards byte `b` is the image byte inside the mapped range and the old byte outside |
| CacheSpec.AddressSplits | verilate/source/mycpu/VCacheTop/cache_ref.cpp:37-40 | tag, index and offset are the address divided into lines of 16 bytes and words of 4, in 4 sets: together they give back line base, word number and address |
| CacheSpec.WriteBackAt | verilate/source/mycpu/VCacheTop/cache_ref.cpp:64-68 | a flush rebuilds its own line base from tag and index: it writes the words of the evicted line and no word of another line |
| CacheSpec.WriteBackKeepsLine | verilate/source/mycpu/VCacheTop/cache_ref.cpp:122-126 | a flush keeps every other cached line in agreement with memory |
| CacheSpec.AccessKeepsInv | verilate/source/mycpu/VCacheTop/cache_ref.cpp:44-76 | every access keeps the invariant (dirty implies valid, valid lines lie in memory, clean lines equal memory, distinct tags, valid ways last) and leaves the addressed line valid in way 3 |
| CacheSpec.AccessDirtiesNothing | verilate/source/mycpu/VCacheTop/cache_ref.cpp:61-76 | a line that hits moves with its flag and words, a fetched line is clean, and memory changes for a dirty victim only |
| CacheSpec.AccessKeepsView | verilate/source/mycpu/VCacheTop/cache_ref.cpp:44-76 | rotating, flushing and fetching change no word of the memory the cache stands for |
| CacheTheorems.LoadReadsView | verilate/source/mycpu/VCacheTop/cache_ref.cpp:30-79 | a load returns the addressed word of that memory, on hits and misses, and changes nothing of it |
| CacheTheorems.StoreWritesView | verilate/source/mycpu/VCacheTop/cache_ref.cpp:81-138 | a store merges its data under its strobe into exactly the addressed word of that memory |
| CacheTheorems.DirtyMeansStored | verilate/source/mycpu/VCacheTop/cache_ref.cpp:112-137 | a store leaves its line dirty; a load leaves it as it was when it hits and clean when it misses |
| CacheTheorems.CacheRefinesMemory | verilate/source/mycpu/VCacheTop/cache_ref.cpp:30-138 | on every trace the cache returns the same words as a flat memory and ends standing for the same contents |
| CacheTheorems.ResetStandsForMemory | verilate/source/mycpu/VCacheTop/cache_ref.cpp:13-28 | after reset the invariant holds and the cache stands for the restored memory |
| CacheRef.CacheRefModel.Reset | verilate/source/mycpu/VCacheTop/cache_ref.cpp:13-28 | all arrays cleared by the nested loops and memory restored |
| CacheRef.CacheRefModel.FindPosition | verilate/source/mycpu/VCacheTop/cache_ref.cpp:41-50 | the first way that hits, or way 0 and a miss |
| CacheRef.CacheRefModel.SwapWithNext | verilate/source/mycpu/VCacheTop/cache_ref.cpp:53-58 | two neighbouring ways exchange data, tag and flags; every other way of every set is untouched |
| CacheRef.CacheRefModel.MoveToYoungest | verilate/source/mycpu/VCacheTop/cache_ref.cpp:52-59 | the chain of swaps is a rotation: the touched way becomes way 3, the younger ones keep their order |
| CacheRef.CacheRefModel.FlushYoungest | verilate/source/mycpu/VCacheTop/cache_ref.cpp:64-68 | the four word stores amount to writing the line back if it is dirty |
| CacheRef.CacheRefModel.FetchYoungest | verilate/source/mycpu/VCacheTop/cache_ref.cpp:71-76 | way 3 becomes the clean memory line, all other ways stay |
| CacheRef.CacheRefModel.ReplaceYoungest | verilate/source/mycpu/VCacheTop/cache_ref.cpp:122-134 | flush before fetch: the line is read from the memory after the write-back |
| CacheRef.CacheRefModel.BringToYoungest | verilate/source/mycpu/VCacheTop/cache_ref.cpp:44-76 | the loops together perform the access of the value-level model, hit or miss |
| CacheRef.CacheRefModel.Load | verilate/source/mycpu/VCacheTop/cache_ref.cpp:30-79 | the object returns the word and takes the state that the value-level load defines |
| CacheRef.CacheRefModel.Store | verilate/source/mycpu/VCacheTop/cache_ref.cpp:81-138 | the object takes the state that the value-level store defines |
| CacheRef.CacheRefModel.PatchWord | verilate/source/mycpu/VCacheTop/cache_ref.cpp:112-118 | the reference into way 3 updates one word and the dirty flag, nothing else |
| CacheRecency.ByLastUseSnoc | verilate/source/mycpu/VCacheTop/cache_ref.cpp:52-59 | using a line once more moves it to the end of the order by last use |
| CacheRecency.LastFourSuffices | verilate/source/mycpu/VCacheTop/cache_ref.cpp:52-59 | the last four lines in order of use can be kept up to date from themselves alone, which is why four ways suffice for exact replacement |
| CacheRecency.AccessUses | verilate/source/mycpu/VCacheTop/cache_ref.cpp:44-59 | an access updates the tags of its own set as a use of the line does, and no other set |
| CacheRecency.RunUses | verilate/source/mycpu/VCacheTop/cache_ref.cpp:95-110 | if a set holds the last four lines of a history, it holds the last four of the extended history after any trace |
| CacheRecency.SetsHoldLastFour | verilate/source/mycpu/VCacheTop/cache_ref.cpp:44-59 | after any trace from reset the valid ways of every set are its last ways and hold exactly the last four distinct lines touched in it, oldest first |
| CacheRecency.HitsAreTheLastFour | verilate/source/mycpu/VCacheTop/cache_ref.cpp:44-50 | an access hits if and only if its line is among the last four distinct lines touched in its set |
| CacheRecency.NoEarlyEviction | verilate/source/mycpu/VCacheTop/cache_ref.cpp:52-76 | a valid line survives an access unless the access misses and it is the oldest of four valid lines |
| LineBuffer.BufferIsMemoryLine | verilate/source/refcpu/VCacheTop/cache_ref.cpp:15-38 | after a load or a store the buffer equals the memory line of the address, and the load returns the memory word |
| LineBuffer.BufferRefinesMemory | verilate/source/refcpu/VCacheTop/cache_ref.cpp:15-38 | on every trace the write-through model returns the words of a flat memory, ends with its contents, and buffers the line used last |
| LineBuffer.BufferRefModel.Reset | verilate/source/refcpu/VCacheTop/cache_ref.cpp:9-13 | memory is restored |
| LineBuffer.BufferRefModel.FetchLine | verilate/source/refcpu/VCacheTop/cache_ref.cpp:15-20 | the loop copies the whole line of the address |
| LineBuffer.BufferRefModel.Load | verilate/source/refcpu/VCacheTop/cache_ref.cpp:22-27 | the object takes the step of the value-level load |
| LineBuffer.BufferRefModel.Store | verilate/source/refcpu/VCacheTop/cache_ref.cpp:29-38 | the object takes the step of the value-level store: buffer patched and memory stored |
| CacheAgreement.ModelsAgree | verilate/source/mycpu/VCacheTop/cache_ref.cpp:30-138 | started from equal memory the write-back cache and the write-through buffer return the same word for every load of every trace, and end standing for the same memory |
| LoadOps.LoadOp.MaskIsStrobe | verilate/include/bus.h:91-104 | the 32-bit mask of an operation is the table entry of its strobe |
| LoadOps.LoadOp.StrobeLanes | verilate/include/bus.h:75-88 | the strobe enables exactly the lanes from the operation's first lane through its width |
| LoadOps.LoadOp.ApplyLanes | verilate/include/bus.h:129-150 | apply moves the selected lanes to the low end |
| LoadOps.LoadOp.PlaceLanes | verilate/include/bus.h:107-126 | place moves the low bytes to the selected lanes |
| LoadOps.LoadOp.ApplyFills | verilate/include/bus.h:129-150 | above the topmost lane apply leaves zero bytes, and it discards everything for a discarded load |
| LoadOps.LoadOp.PlaceFills | verilate/include/bus.h:107-126 | below the lowest lane place leaves zero bytes |
| LoadOps.ParseIsAligned | verilate/include/bus.h:56-72 | parse selects `width` bytes, for aligned addresses from the addressed byte on, and otherwise from the aligned one below it |
| LoadOps.ApplyTo | verilate/include/bus.h:153-171 | despite the fall-through exactly the selected bytes are written to the destination, and the bytes around them are kept |
| ByteAccess.LittleEndianByte | verilate/include/bus.h:365-370 | byte `k` of a little-endian number is byte `k` of the string, zero beyond its end |
| ByteAccess.LoadGivesBytes | verilate/include/bus.h:362-370 | loadb, loadh and loadw on an aligned address return the little-endian number stored there |
| ByteAccess.StoreSetsBytes | verilate/include/bus.h:395-405 | storeb, storeh and storew on an aligned address replace exactly the addressed bytes |
| ByteAccess.FlatActsOnBytes | verilate/include/bus.h:362-405 | any sequence of aligned accesses to a word memory acts on one little-endian byte array |
| ByteAccess.CacheActsOnBytes | verilate/include/bus.h:362-405 | the same through the write-back cache: all loaded values and the final bytes are those of the byte array |
| Axi.SizeBytes | verilate/include/axi.h:33 | the beat size is two to the power of the request's size field: 1 for 0, and twice the one before from then on |
| Axi.BeatAddress | verilate/include/axi.h:48-61 | if the window ends below 2^32, beat `k` has the address of slot (first + k) modulo the length, with every other field determined too |
| Axi.SlotIsOffset | verilate/include/axi.h:39-61 | the slot form of the address is Lower + ((Aligned - Lower) + k * Number_Bytes) mod dtsize |
| Axi.EverySlotOnce | verilate/include/axi.h:48-61 | the beats of a burst visit every slot of the window exactly once |
| Axi.AddressInWindow | verilate/include/axi.h:59-60 | every beat stays inside the wrap window |
| Axi.WindowFits | verilate/include/axi.h:40-41 | for the sizes and lengths of the two enumerations no window crosses the end of the address space |
| Axi.CrossingMissesTop | verilate/include/axi.h:40-61 | a window of any other length that crosses the end of the address space has a beat the generator puts at a wrong address |
| Axi.TopWindowStuck | verilate/include/axi.h:41-60 | in the window that ends at 2^32 the boundary is stored as 0 and every beat after the first falls back to the base |
| Axi.WrapExact | verilate/include/axi.h:31-61 | for every number of beats, all of them are at the right address if and only if the window ends below 2^32, or ends at 2^32 and the burst has one beat, or two beats starting in the upper slot |
| Axi.ReferenceAddress | verilate/include/axi.h:11-13 | the WRAP pseudocode of section A3.4.2 of the AMBA AXI and ACE Protocol Specification has the same closed form, for an aligned start or one that does not wrap at once |
| Axi.FollowsReference | verilate/include/axi.h:43-61 | although `aligned` starts false, the generator follows that pseudocode beat for beat if and only if the start is aligned, the burst has one beat, or it does not wrap right after its first beat |
| Axi.OvershootsTop | verilate/include/axi.h:52-60 | the excluded case: an unaligned start in the last slot makes the pseudocode leave the window where the generator wraps |
| CBusDevice.AXITransaction.Start | verilate/include/axi.h:31-46 | the object takes the initial state the burst theorems start from |
| CBusDevice.AXITransaction.Step | verilate/include/axi.h:49-61 | the object takes the next beat in 32-bit arithmetic |
| CBusSpec.CycleSettles | verilate/source/cbus_device.cpp:12-77 | after the clock edge the two copies of the transaction agree; a disabled cycle changes neither memory nor transaction; a disabled or idle device answers neither ready nor last, and no data |
| CBusSpec.IdleStays | verilate/source/cbus_device.cpp:51-60 | an idle device that gets no valid request stays as it is |
| CBusSpec.PausesStretch | verilate/source/cbus_device.cpp:12-77 | for every pattern of pauses the run without the paused cycles is accepted, gives the same responses in its cycles and ends in the same state |
| CBusSpec.PausesAreAccepted | verilate/source/cbus_device.cpp:30-40 | no assertion about the master fails in a run with pauses if and only if none fails in the run without the paused cycles, whatever the master drives meanwhile |
| CBusSpec.PausesAnswerNothing | verilate/source/cbus_device.cpp:12-14 | every paused cycle of a run is answered neither ready nor last |
| CBusSpec.PausesAreNotReady | verilate/source/cbus_device.cpp:12-28 | the number of ready cycles of a run is that of its enabled cycles |
| CBusBursts.MidCycle | verilate/source/cbus_device.cpp:12-77 | one beat: the response is ready with the right word and last flag, the memory gets the masked beat of a write, and the next beat follows or the device is idle |
| CBusBursts.BurstTail | verilate/source/cbus_device.cpp:12-77 | the rest of a burst from any beat on |
| CBusBursts.BurstRuns | verilate/source/cbus_device.cpp:12-77 | a burst of beats of 2^size bytes takes Burst_Length + 1 enabled cycles: the first is answered neither ready nor last, the others ready, and last only on the final one; a read returns the words at the wrap addresses and keeps memory, a write applies its masked beats in order; no transaction is busy afterwards |
| CBusBursts.PausedBurstRuns | verilate/source/cbus_device.cpp:12-77 | for every pattern of pauses, and any signals during them: no assertion of the device fails, the enabled cycles answer and write as in the burst without pauses, every paused one is neither ready nor last, exactly Burst_Length cycles are ready, and no transaction is busy afterwards |
| CBusBursts.WrittenOutside | verilate/source/cbus_device.cpp:65-71 | a write burst changes no word outside its wrap window |
| CBusBursts.WrittenByteKept | verilate/source/cbus_device.cpp:65-71 | a byte that no beat strobes keeps its old value |
| CBusBursts.WrittenByteLast | verilate/source/cbus_device.cpp:65-71 | a byte that some beat strobes holds the data of the last beat that does |
| CBusBursts.WrittenReadsBack | verilate/source/cbus_device.cpp:65-71 | after a burst of full words every beat's word holds that beat's data: no beat overwrites another |
| CBusDevice.CBusDevice.Reset | verilate/source/cbus_device.cpp:5-10 | memory restored, no transaction busy, `enable` kept |
| CBusDevice.CBusDevice.ReadResponse | verilate/source/cbus_device.cpp:12-28 | ready if and only if the device is enabled and busy, last if and only if it then is at the final beat, and data only for a read: the word at the beat's address |
| CBusDevice.CBusDevice.TakeRequest | verilate/source/cbus_device.cpp:30-61 | only the next transaction state and the latched write data change, as the request says |
| CBusDevice.CBusDevice.ClockEdge | verilate/source/cbus_device.cpp:63-77 | the latched write is performed at the present beat's address before the transaction advances |
| CBusDevice.CBusDevice.Tick | verilate/source/cbus_device.cpp:12-77 | the three phases together are one cycle of the protocol |
| PipelineSpec.SubmitKeepsInv | verilate/include/bus.h:653-657 | a submission keeps the front of the pending queue, and nothing else, on the bus |
| PipelineSpec.BusCarriesFront | verilate/include/bus.h:646-657 | the bus is free if and only if nothing is pending; otherwise it carries the address, size and strobe of the oldest pending task, and its data if it is a store |
| PipelineSpec.TickKeepsInv | verilate/include/bus.h:481-520 | neither assertion about empty queues can fail, the bus carries the front of the pending queue, and each handshake lowers 2 * pending + ongoing by one |
| PipelineSpec.DeliveredBytes | verilate/include/bus.h:637-639 | host memory after a load, byte by byte: the selected lanes of the answer from the destination on, every other byte as before |
| PipelineSpec.LanesMatchExact | verilate/include/bus.h:628-635 | an expectation is met if and only if the answer agrees with it in every selected byte |
| PipelineSpec.TickBytes | verilate/include/bus.h:497-514 | a cycle byte by byte: the answer to the oldest accepted task writes its selected lanes to its destination and nothing else, and only an expectation that differs in a selected byte fails |
| PipelineSpec.FenceExact | verilate/include/bus.h:591-603 | a fence ends with empty queues if and only if the bus makes exactly the handshakes that remain |
| PipelineSpec.LivelyFenceEnds | verilate/include/bus.h:591-603 | on a bus that makes a handshake in every cycle the fence succeeds within that many cycles |
| PipelineOrder.TickQueues | verilate/include/bus.h:490-501 | a cycle moves at most the front pending task to ongoing and completes at most the front ongoing one |
| PipelineOrder.FrontIsAccepted | verilate/include/bus.h:490-501 | a memory that serves accepted requests in order never answers what the pipeline did not ask |
| PipelineOrder.StepRefines | verilate/include/bus.h:481-520 | each event has the effect of executing the tasks it completes, and loses or reorders no other task |
| PipelineOrder.ExecuteBytes | verilate/include/bus.h:624-639 | the sequential effect of one task, byte by byte: a load changes only its destination bytes or, without one, is compared in its selected bytes; a store changes only the strobed bytes of its word |
| PipelineOrder.RunIsSequential | verilate/include/bus.h:481-520 | for every interleaving over a memory that answers in order, completed ++ ongoing ++ pending are the submitted tasks, and memory, host bytes and expectations are what executing the completed ones one by one gives |
| PipelineRuns.StepAdvances | verilate/include/bus.h:481-520 | one event on any bus completes at most the oldest task, with the data of that cycle, and keeps all others in order |
| PipelineRuns.EveryBusChecks | verilate/include/bus.h:512-513 | over every run on every bus no expectation has failed if and only if each answer to one agrees with it in every byte it is about |
| PipelineRuns.EveryBusDelivers | verilate/include/bus.h:510-511 | over every run on every bus a host byte holds the byte selected by the last load answered into it |
| PipelineRuns.EveryBusKeepsByte | verilate/include/bus.h:510-511 | and its old value if no load has been answered into it |
| PipelineRuns.EveryBusKeepsOrder | verilate/include/bus.h:481-520 | for every bus that answers only what was accepted, whatever its data and timing, completed ++ ongoing ++ pending equal the submitted tasks over every run, and host bytes and expectations are what the answers make of them in order |
| PipelineOrder.FencedRunIsSequential | verilate/include/bus.h:591-603 | after a fence the whole program of submitted tasks has had its sequential effect: pipelining is invisible |
| PipelineOrder.FencedRunBytes | verilate/include/bus.h:591-603 | task by task: between the states that the first i and the first i + 1 submitted tasks make lies exactly the byte-wise effect of task i, and all of them make the state at the fence |
| DBusPipeline.DBusPipeline.Submit | verilate/include/bus.h:653-657 | the object takes the step of a submission |
| DBusPipeline.DBusPipeline.Complete | verilate/include/bus.h:510-513 | a load with a destination writes the selected bytes of the answer there and no others; one without clears `ok` if and only if a selected byte differs; a store does neither |
| DBusPipeline.DBusPipeline.Tick | verilate/include/bus.h:481-520 | the object takes the step of a clock cycle |
| DBusPipeline.DBusPipeline.Fence | verilate/include/bus.h:591-603 | the loop ticks until the queues are empty or the cycles are used up, and tells which |
| Dispatcher.StartInv | verilate/source/testbench.cpp:83-117 | the invariant holds once the workers are spawned |
| Dispatcher.StepKeepsInv | verilate/source/testbench.cpp:64-76 | every step of the master or a worker keeps it: dispatched = passed + in flight, each dispatched test has finished once or is held by the worker it was sent to, pipes hold at most one message |
| Dispatcher.RunKeepsInv | verilate/source/testbench.cpp:119-172 | so does every interleaving, and each request served sends one test or one exit |
| Dispatcher.LoopEnds | verilate/source/testbench.cpp:119-172 | when the loop ends without failure passed = dispatched = total, every test has run exactly once, and every worker has been told to exit |
| Dispatcher.EveryRun | verilate/source/testbench.cpp:119-172 | in every interleaving from the start the master has served dispatched + exited requests, and total + n_workers when it ends without failure |
| Dispatcher.CrashIsNoticed | verilate/source/testbench.cpp:143-148 | as long as a worker is dead and no failure is recorded the loop goes on and its end of file is there to be read |
| Dispatcher.NoDeadlock | verilate/source/testbench.cpp:120-172 | while the master loops some process can take a step that is not a crash |
| Dispatcher.StepSpends | verilate/source/testbench.cpp:64-172 | every step lowers a budget, a healthy one by exactly one |
| Dispatcher.RunsAreBounded | verilate/source/testbench.cpp:64-172 | no run is longer than four steps a test, three a worker and one for a failure |
| Dispatcher.AllWorkersExit | verilate/source/testbench.cpp:174-189 | where no step is left the master has left its loop and every worker has exited, died or been killed; the master reports a failure if and only if one died, and otherwise every worker has exited by itself |
| Dispatcher.MaximalRun | verilate/source/testbench.cpp:64-195 | every run that goes on as long as it can ends so, with hang-ups and kills in any order, and unless a worker crashed all tests have passed, each run once |
| DispatchMaster.RoundCommands | verilate/source/testbench.cpp:155-169 | the commands of one round are consecutive test numbers and then only -1, one for each request served |
| DispatchMaster.RoundAnswers | verilate/source/testbench.cpp:132-171 | one round answers every open worker with a request before the first end of file, exactly once and in order, and nobody else; it fails if and only if some open worker's pipe has ended |
| DispatchMaster.RoundIsRun | verilate/source/testbench.cpp:132-171 | a round over one ready set is a run of the system: same master state, tests sent to the same workers in the same order |
| DispatchMaster.MasterLoop.HandleRequest | verilate/source/testbench.cpp:150-169 | counters and flags in place, and the command to write |
| DispatchMaster.MasterLoop.HandleReady | verilate/source/testbench.cpp:132-171 | the loop over the ready set, left at the first end of file |
| Numerals.DigitValues | vivado/test5/soft/perf_func/lib/strtoul.c:51-54 | digits count from 0, letters of either case from 10 to 35 in order, and nothing else is a digit |
| Numerals.ValueOfText | vivado/test5/soft/perf_func/lib/atob.c:156-174 | the digits printed for a number denote that number, in every base |
| Numerals.DigitsShape | vivado/test5/soft/perf_func/lib/atob.c:156-164 | a printed number has no leading zero and uses digits and lower-case letters only |
| Numerals.DigitsFit | vivado/test5/soft/perf_func/lib/atob.c:138 | a number below 2^n has at most n digits, whatever the base |
| Strtoul.DigitStep | vivado/test5/soft/perf_func/lib/strtoul.c:47-67 | the test against ULONG_MAX / base is exact: an accumulated value above it overflows with any next digit, one below it can be multiplied |
| Strtoul.ParseDigits | vivado/test5/soft/perf_func/lib/strtoul.c:47-68 | the end is that of the longest digit run; overflow is reported if and only if its value does not fit 32 bits; otherwise the result is its exact value |
| Strtoul.SkipBlanks | vivado/test5/soft/perf_func/lib/strtoul.c:22-23 | stops at the first character that is not a space |
| Strtoul.SkipPrefix | vivado/test5/soft/perf_func/lib/strtoul.c:30-45 | where the digits start and in which base they are read |
| Strtoul.Run | vivado/test5/soft/perf_func/lib/strtoul.c:12-80 | value and end are those that the description of prefix, digit run and saturation gives |
| Strtoul.ReadsNumber | vivado/test5/soft/perf_func/lib/strtoul.c:22-79 | for every text of blanks, sign, prefix, digits and rest: the end is behind the digits; with base 0 a leading 0 selects octal, 0x and 0X hexadecimal, any other start decimal; a value that does not fit gives 4294967295, with or without a minus sign; one that fits comes back, after a minus sign as the number that makes up 2^32 with it |
| Strtoul.FinishExact | vivado/test5/soft/perf_func/lib/strtoul.c:69-75 | saturation and negation: exact for every value and either sign |
| Strtoul.PrefixExact | vivado/test5/soft/perf_func/lib/strtoul.c:40-45 | the result is the one the comment promises if and only if the call is not for base 16 on a number that starts with 0X |
| Strtoul.UpperCasePrefixStops | vivado/test5/soft/perf_func/lib/strtoul.c:43-44 | a witness: 0XFF in base 16 reads as 0 and stops at the X |
| Strtoul.ReadsAllDigits | vivado/test5/soft/perf_func/lib/strtoul.c:49-79 | a text of digits alone is read to its end, saturated where it does not fit |
| Strtoul.ReadsNegative | vivado/test5/soft/perf_func/lib/strtoul.c:69-75 | after a minus sign the value comes back negated modulo 2^32 |
| Atob.FillDigits | vivado/test5/soft/perf_func/lib/atob.c:156-164 | the buffer, reversed, holds the digits of the number, and never more than 32 of them |
| Atob.CopyReversed | vivado/test5/soft/perf_func/lib/atob.c:171-173 | the reversed buffer and a NUL, and nothing behind it |
| Atob.PrintMagnitude | vivado/test5/soft/perf_func/lib/atob.c:156-174 | sign, digits and NUL; the 34-byte buffer holds them all |
| Atob.Btoa | vivado/test5/soft/perf_func/lib/atob.c:135-175 | the text of the number in the base, signed decimal for base -10, then a NUL; no other byte of the destination changes |
| Atob.HornerStep | vivado/test5/soft/perf_func/lib/atob.c:86-87 | multiplying and adding modulo 2^32 follows the exact value modulo 2^32 |
| Atob.ParseDigits | vivado/test5/soft/perf_func/lib/atob.c:73-90 | succeeds if and only if all characters are hexadecimal digits below the base; the value is exact modulo 2^32 |
| Atob.ParsesPlain | vivado/test5/soft/perf_func/lib/atob.c:73-90 | text without prefix and dot is accepted if and only if it consists of hexadecimal digits below the base, with its value modulo 2^32 |
| Atob.PrefixSelectsHex | vivado/test5/soft/perf_func/lib/atob.c:49-52 | a prefix 0x or 0X selects base 16, whatever base was asked for |
| Atob.ParsesDotted | vivado/test5/soft/perf_func/lib/atob.c:54-71 | in base 16 the number before a dot is the upper half and the one behind it the lower; more than 19 characters before it, or anything but digits on either side, is a failure |
| Atob.Run | vivado/test5/soft/perf_func/lib/atob.c:42-91 | prefix, two numbers around a dot, or plain digits: accepted and valued as the grammar says |
| Atob.StrtoulReadsBtoa | vivado/test5/soft/perf_func/lib/atob.c:135-175 | strtoul reads back every 32-bit number btoa prints, in every base from 2 to 36 |
| Atob.StrtoulReadsSigned | vivado/test5/soft/perf_func/lib/atob.c:147-154 | printed as signed decimal every 32-bit pattern comes back, 0x80000000 included |
| Atob.SignedShape | vivado/test5/soft/perf_func/lib/atob.c:147-154 | a minus sign is printed if and only if bit 31 is set, followed by the digits of the magnitude |
| Atob.AtobReadsBtoa | vivado/test5/soft/perf_func/lib/atob.c:98-113 | atob reads back every 32-bit number btoa prints in a base up to 16 |
| Atob.AtobExact | vivado/test5/soft/perf_func/lib/atob.c:74-85 | in any base up to 36 it does so if and only if the text has no letter beyond f, and fails otherwise |
| Convert.BitsOut | vivado/test1/soft/func/convert.c:17-24 | the eight bits of a byte, highest first |
| Convert.BinaryOut | vivado/test1/soft/func/convert.c:15-27 | the line of a word, byte at the highest address first |
| Convert.ReadFour | vivado/test1/soft/func/convert.c:44 | a read near the end replaces only the bytes that are left |
| Convert.LinesStep | vivado/test1/soft/func/convert.c:43-49 | one turn of the loop prints the present buffer and stops after a short read |
| Convert.PrintFile | vivado/test1/soft/func/convert.c:43-49 | the loop prints the lines of the image, the last one filled up with what the buffer held before |
| Feed.Trim | verilate/source/common.cpp:42-53 | the text without the characters at both ends that are neither letters nor digits |
| Feed.TrimmedUnique | verilate/source/common.cpp:42-53 | that description has exactly one result |
| Feed.PushWord | verilate/source/common.cpp:79-82 | the four bytes of a number, lowest first |
| Feed.StoullReadsDigits | verilate/source/common.cpp:74-76 | a text of digits alone is consumed to its end, exact up to 64 bits |
| Feed.Read | verilate/source/common.cpp:66-84 | the bytes of all lines in order, or failure |
| Feed.WordExact | verilate/source/common.cpp:74-77 | a trimmed line is accepted if and only if it is digits throughout, behind an optional 0x in base 16, of a value below 2^32, and then has that value |
| Feed.BytesSnoc | verilate/source/common.cpp:69-83 | an empty line adds nothing, a number its four bytes, anything else is a failure that no later line mends |
| ImagePath.ByteValue | vivado/test1/soft/func/convert.c:15-25 | printing a byte behind a digit string multiplies its value by 256 and adds the byte, in either format |
| ImagePath.LineReads | verilate/source/common.cpp:70-77 | a printed line is trimmed to itself and read, entirely and without prefix, as the word it was printed from |
| ImagePath.LineCount | vivado/test1/soft/func/convert.c:43-49 | len / 4 + 1 lines are printed |
| ImagePath.PaddedShape | vivado/test1/soft/func/convert.c:43-49 | the printed bytes start with the image and go on to one whole word beyond it with the bytes of the last full word that a short read leaves in the buffer |
| ImagePath.PrintedLinesRead | verilate/source/common.cpp:66-84 | reading the printed lines never fails and gives the padded image back, in both formats |
| ImagePath.ImageArrives | verilate/source/memory.cpp:82-94 | where the printed bytes are mapped, the memory holds the image, and is unchanged before it and behind its padded end |
| ImagePath.UseAndReset | verilate/source/memory.cpp:78-80 | after any sequence of masked stores a reset brings the saved contents back |
| ImagePath.Deliver | verilate/include/runner.h:94-97 | printed by the converter, read by the test bench, made into a memory, stored to in any way and reset, the memory holds the image at its start and zeros behind its last word |

## Left out

- Allocator.Allocator.Malloc: a call that needs core ending beyond the address space is outside the contract; `malloc`
  does not notice it, and `ArenaSpec.BreakExact` says exactly when it happens. The same holds for a second call that
  finds no room after one has been refused. `base` is taken to lie below the `sbrk` region.
- Allocator.Allocator.Free: only live blocks are freed, as its callers must; addresses other than the break count 8-byte
  header units, and alignment within a unit is not modelled.
- CacheRef.CacheRefModel.Load: assumes that `reset` ran first, that the memory holds whole lines, and that the address is
  in range, as the memory asserts; the unused `size` argument is dropped, and so it is in `Store` and the line buffer.
  Tags are unbounded; those of 32-bit addresses fit the source's words.
- CacheRef.CacheRefModel.BringToYoungest: load and store repeat the same search, reorder, flush and fetch code; the model
  states it once.
- CBusBursts.BurstRuns: for windows that end below 2^32 (`Axi.WrapExact` says what happens in the others) and lie in the
  memory, at memory offset 0, and with one request a cycle.
- CBusSpec.PausesStretch: the pseudo-random choice of a pause is an arbitrary Boolean for each cycle.
- Axi.WrapExact: for 1, 2, 4 or 8 bytes a beat, which is all the device accepts, and any number of beats.
- PipelineOrder.RunIsSequential: the bus answers accepted requests in order; a failed expectation, at which the program
  stops, sets a flag that stays set.
- DBusPipeline.DBusPipeline.Fence: returns whether the queues are empty where the program asserts it.
- Dispatcher.MaximalRun: needs at least one worker (with none the loop ends at once); a worker crashes only inside a test.
  The order in which the master waits for its workers is left out.
- Strtoul.Run: for bases from 0 up; characters are ASCII, and a string holds no NUL before its end. `errno` is not set by
  the source either.
- Atob.Run: for bases of at least 2; base 0, for which `_getbase` chooses the base from the text, and the 64-bit twins
  `llatob` and `llbtoa` are not modelled.
- Atob.Btoa: for base -10 and bases 2 to 36, and a destination that has room for the text.
- Feed.Read: `std::stoull` is modelled for trimmed text, which starts with a letter or digit; letters and digits are the
  ASCII ones; an exception or failed assertion is `None`. The header of a `.coe` file and the raw `.bin` reader are left
  out.
- Convert.PrintFile: opening files and the two header lines are left out; what the buffer holds before the first read is
  a parameter.
- Memory.BlockMemory.Load: the assertion about the range is a precondition; `dump`, names and the address router are left
  out, they would only add easy members.
- Blocking helpers that issue one request and wait for it (`await`, `loadw`, `storeh`, `expectb` and their like) are
  covered only as far as their placement of data goes.
- The register file with its UART (`confreg.cpp`) is left out: registers that are set and read, and a queue.
- Comparison with the hardware model (`check_internal`, `check_memory`), waveform and text traces, status lines, timers,
  command-line options, process creation and affinity, and the serial test runner.
- Vendored headers, assembly, CP0 and interrupt code, floating-point printing and variadic printing.
