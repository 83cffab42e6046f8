# heapviz, modelled and proved in Dafny

heapviz watches the heap of a running program. An interceptor inside the target reports every allocation and
free through a lock-free ring in shared memory; a consumer drains the ring into a chunk table and a heat map
and paints the result on a terminal. This project models the parts of it whose correctness is hard to see and
proves, for every input, every run or every reachable state, what they promise.

`dafny verify dfyconfig.toml` verifies everything.

## How the pieces fit

* `Ring`, `RingSafety`, `Drains`: the multi-producer ring as a step system. One step is one atomic access or one plain
  field access of one thread, with any number of producers and one consumer. An inductive invariant over all
  interleavings gives exactly-once, in-order, untorn delivery; whole drains and whole pushes are followed from
  the call to the return, whatever the other threads do in between.
* `Interceptor`, `HookCalls`: the allocator hooks on top of that ring, in the source's order of emission, again
  as a step system over whole multi-threaded runs, and what one whole call of a hook does in them.
* `RobinHood`, `Chunks`: the circular Robin Hood invariant and the table class that keeps it. Every operation,
  and every run of operations, refines a plain map.
* `HeatMaps`, `HeapApps`, `Fragmentation`: the consumer's aggregates, kept event by event, against what a scan
  or a sorted walk gives.
* `Pipeline`, `LargeBlocks`: the end-to-end results. Whatever the schedule of target threads and drains, once the
  target is between calls and the ring is drained, the consumer's live set and its counters are the
  allocator's own, as far as an event can report a size.
* `Utf8`, `Terminals`, `Renderers`, `EventLoops`: the differential renderer as a compiler from cell diffs to
  bytes, against a byte-level terminal, and the frame loop around it.
* `HeapWalkers`: block-buffered chain following against a header-by-header walk.
* `Regions`, `Grids`, `Cursors`: packing scattered regions into one coordinate space, bucketing it, and moving
  a cursor over it.
* `Basics`, `Bits`, `Sorting`, `LiveSums`: options, powers of two, a sort, and order-independent sums, used by
  the others.

Code that computes a value is a function; code that loops or updates state is a method or a class whose
`ensures` ties it to an independent definition, and the lemmas are about that definition.

## Where the code and its comments differ

The model follows the code. Each difference below is proved.

* A push that returns 0 does not mean the ring was full (`src/common/heapviz_ring.h:65-70`). `head` is loaded
  before `tail`, so a stale `head` makes the 64-bit difference wrap. `RingSafety.DropWithoutFull` reaches a drop
  into an empty ring; `RingSafety.DropExactly` says exactly when a push is dropped.
* Usable sizes are reported in 32 bits and saturate (`src/preload/preload.c:348-354`), so `live_bytes_` falls short
  of what the target holds. `Pipeline.CountersAreTheHeap` says exactly when they are equal: when no block is
  larger than 2^32 - 1 bytes. `LargeBlocks.LargeBlockFallsShort` is a run with one block of 5 GiB. The live count
  is not affected.
* The oldest freed record does not always go first (`src/tui/chunk_table.h:136-137`): an address freed, recycled
  and freed again still has its first hint (`Chunks.StaleHintEvictsYounger`). `Chunks.ChunkTable.MakeRoom` says
  which record goes, `Chunks.EvictsFreedFirst` exactly when that is the one freed first.
* `size() <= max_entries()` is not an invariant after lowering the cap (`src/tui/chunk_table.cpp:95-97`): live
  records are never given up. `Chunks.CapExceeded` ends with two records under a cap of one.
  `Chunks.ChunkTable.SetMaxEntries` says exactly when the bound holds afterwards: when the live records alone
  are within the cap. Once it holds, it holds until the cap changes (`Chunks.CapHolds`).
* `live_` is the number of live records only while no event reports a null pointer: the table refuses key 0, the
  counter does not (`HeapApps.NullIsCounted`). `HeapApps.CountedExactly` says exactly when they are equal, and
  the class invariant of `HeapApps.HeapApp` what the difference is.
* The heat map's sums do not survive every event. `Pipeline.AllocOverBreaks`, `Pipeline.UnknownFreeBreaks` and
  `Pipeline.DoubleFreeBreaks` are streams of two, two and four events that break a cell's count.
  `Pipeline.SumsSurviveExactly` is the exact condition on the event for everything to stay in agreement,
  `Pipeline.OwnCell` and `Pipeline.OwnTotals` that for each figure.
* The clock saturates at the value that means "never" (`src/tui/heap_app.cpp:67-70`), so after 49 days a rebuild
  and the incremental map may stamp a cell differently, depending on the order of the slots
  (`Pipeline.SaturationBreaks`). `Pipeline.StampsMatchExactly` says exactly when they agree.
* The unsorted fragmentation figure equals the stranded bytes exactly when no extents overlap or nothing is
  stranded (`Fragmentation.GapIsStranded`); `Fragmentation.OverlapUnderstates` is an input where it is too small.
  The largest gap of the sorted walk is never smaller than any hole; it
  is itself a hole exactly when some gap of that size has no earlier extent reaching into it
  (`Fragmentation.AttainedExactly`), which `Fragmentation.NestedOverstates` shows can fail.
* A cell whose glyph is a control code is never shown as such, and nothing in the drawing path excludes one:
  `Renderers.Renderer.Render` displays a frame if and only if all its cells are drawable.
* The loop repaints everything only when the measured size changed. After a resize away and back between two
  measurements the screen may hold anything, and an iteration that is skipped leaves it so
  (`EventLoops.ResizedAwayAndBack`). `EventLoops.EventLoop.Frame` says exactly when an iteration ends with the
  terminal showing the front buffer, whatever it found there.
* `opaque_bytes` is documented as what the walk could not make sense of, but every free chunk it passed is counted
  in it as well (`HeapWalkers.WalkAll`).

## Model

| member | source | states |
|---|---|---|
| Bits.MaskIsMod | src/common/heapviz_abi.h:257-262 | masking with a power of two minus one, defined bit by bit, is the remainder |
| Bits.ShiftIsDiv | src/common/heapviz_ring.h:108-109 | a right shift, defined bit by bit, is division by the power of two |
| Bits.IsPow2Exactly | src/common/heapviz_abi.h:237-239 | the one-expression test holds of exactly the powers of two |
| Bits.Log2Pow2 | src/common/heapviz_abi.h:242-246 | the shift loop returns the exponent of every power of two |
| Ring.TidRoundTrip | src/common/heapviz_abi.h:164-174 | reading back the three stored bytes gives the thread id modulo 2^24, for every id |
| Ring.PublishedAccepted | src/common/heapviz_abi.h:120-135 | a published `op` byte passes the consumer's test for exactly its own parity, a zero byte never does, and masking returns the opcode |
| Ring.SameSlot | src/common/heapviz_abi.h:257-262 | sequence numbers less than a lap apart share a slot only when equal |
| Ring.NextLap | src/common/heapviz_abi.h:120-135 | one lap later is the same slot with the other parity |
| Ring.LapParity | src/common/heapviz_abi.h:120-132 | the parity expected of a sequence number is that of the number of whole laps before it |
| RingSafety.StepInv | src/common/heapviz_ring.h:72-156 | every step of every producer and of the consumer keeps the ring invariant |
| RingSafety.DeliveredIsClaimPrefix | src/common/heapviz_ring.h:72-156 | in every reachable state the drained events are a prefix of the claimed ones in claim order, each with the values its producer wrote and the flag bits cleared |
| RingSafety.SlotsAreExclusive | src/common/heapviz_ring.h:85-113 | head is at most a capacity ahead of tail, no two in-flight producers share a slot, and none writes a slot the consumer has not released |
| RingSafety.CheckExact | src/common/heapviz_ring.h:135-142 | for any claimed, undrained sequence number the flag test passes exactly when its producer has published |
| RingSafety.ParitySuffices | src/common/heapviz_abi.h:120-132 | the `op` byte at the cursor is this lap's commit, the previous lap's commit or zero, and the test passes in the first case alone |
| RingSafety.DrainStopsExactly | src/common/heapviz_ring.h:129-156 | a drain stops at its limit, at its head snapshot or at a slot in flight, and nowhere else |
| RingSafety.ClaimsAreAccounted | src/common/heapviz_ring.h:93-117 | claims equal `total_events` plus the pushes still between claim and count, each held by exactly one producer |
| RingSafety.NeverBlocked | src/common/heapviz_ring.h:65-117 | a producer inside a push always has an enabled step, whatever the others do |
| RingSafety.RetryMeansProgress | src/common/heapviz_ring.h:93-98 | a claim fails, other than spuriously, if and only if another producer has claimed the sequence number it was after |
| RingSafety.DropExactly | src/common/heapviz_ring.h:85-92 | a push is dropped if and only if the ring is full when the tail is loaded or the loaded head has been overtaken so that the difference wraps |
| RingSafety.DropWithoutFull | src/common/heapviz_ring.h:65-92 | a reachable state in which a producer drops although head equals tail |
| Drains.DrainHandsOut | src/common/heapviz_ring.h:129-156 | over a whole drain, other threads' steps in between, at most the `max` of the call is handed out, and less only when the drain came to the value `head` had when it was loaded or to a slot in flight |
| Drains.PushClaimsItsEvent | src/common/heapviz_ring.h:72-117 | over a whole push, other threads' steps in between, exactly the event of the call is claimed, or the push is counted as dropped |
| Interceptor.StepInv | src/preload/preload.c:367-470 | every step of every hook, push and drain keeps the ownership and mirror invariant of the hooks |
| Interceptor.ClaimsAlternate | src/preload/preload.c:367-470 | in every run without drops, in claim order, every free is of an address live in the log so far and every allocation of one that is not |
| Interceptor.DeliveriesAlternate | src/preload/preload.c:367-470 | the same of what the consumer has been handed, at every point of every run |
| Interceptor.AlternatesPerAddress | src/preload/preload.c:367-376 | of two consecutive events of one address exactly one is a free, so a second allocation is never seen before the free |
| Interceptor.QuiescentReplayIsHeap | src/preload/preload.c:348-470 | between calls and with the ring drained, replaying the delivered events gives exactly the blocks the allocator holds, each with its real usable size saturated to 32 bits |
| Interceptor.ReachableUntouched | src/preload/preload.c:378-470 | in a drop-free run a block from before the session that no event mentions is still held at its real size |
| HookCalls.MallocCall | src/preload/preload.c:378-391 | over a whole call, other threads' steps in between: the block handed out is held, exactly its event is pushed, and the call returns when that push is over |
| HookCalls.FreeCall | src/preload/preload.c:393-409 | over a whole call exactly the free event given is pushed first, and only when that push is over is exactly that block released |
| HookCalls.ReallocCall | src/preload/preload.c:435-470 | over a whole call the free of the old block is pushed, then the allocator trades it for what it returns, then that is pushed, each only when the push before is over |
| Interceptor.FreeOpcode | src/common/heapviz_abi.h:111-135 | of the 256 values of the `op` byte exactly the four that are opcode 1 under some flag bits are frees |
| RobinHood.ShortOfEmpty | src/tui/chunk_table.cpp:116-129 | no record's probe path crosses an empty slot |
| RobinHood.OnTheWay | src/tui/chunk_table.cpp:116-129 | every slot on a record's probe path is occupied by a record at least as far from home, which justifies the early-out miss |
| RobinHood.PassBy | src/tui/chunk_table.cpp:152-160 | stepping past a record at least as far out keeps the carried record's invariant and comes closer to an empty slot |
| RobinHood.Displace | src/tui/chunk_table.cpp:148-160 | taking the slot of a record closer to home keeps the Robin Hood order, hands on the displaced record at its own distance and comes closer to an empty slot |
| RobinHood.Settle | src/tui/chunk_table.cpp:141-146 | putting the carried record into the empty slot keeps the Robin Hood order |
| RobinHood.OpenHole | src/tui/chunk_table.cpp:328-346 | emptying a slot breaks the order at its successor only |
| RobinHood.ShiftBack | src/tui/chunk_table.cpp:338-344 | pulling the successor back one slot moves the break one slot on |
| RobinHood.CloseHole | src/tui/chunk_table.cpp:340-346 | at an empty slot or a record at home the break is gone and the order holds again |
| RobinHood.HasEmpty | src/tui/chunk_table.cpp:30-34 | fewer records than slots leave an empty slot, which ends every probe loop |
| Chunks.FibonacciIsGood | src/tui/chunk_table.cpp:52-54 | the multiplicative hash lands inside the table for every key and capacity |
| Chunks.FibonacciIsShift | src/tui/chunk_table.cpp:45-54 | for a power-of-two capacity it is the 64-bit product shifted right by 64 minus the logarithm |
| Chunks.MaskedProbe | src/tui/chunk_table.cpp:56-58 | the masked successor and the masked, wrapping 64-bit distance are the circular successor and distance |
| Chunks.RoundedLog2 | src/tui/chunk_table.cpp:36-39 | a rounded capacity is a power of two, 16 or less than twice what was asked for |
| Chunks.ChunkTable.constructor | src/tui/chunk_table.cpp:45-50 | a new table is valid and empty |
| Chunks.ChunkTable.Find | src/tui/chunk_table.cpp:106-134 | a key is found exactly when the map holds it, early-out included, at a slot holding the map's record |
| Chunks.PlaceInto | src/tui/chunk_table.cpp:136-162 | the displacement loop ends and adds exactly the record, keeping the Robin Hood table invariant |
| Chunks.ChunkTable.Place | src/tui/chunk_table.cpp:136-162 | the same on the table's own slots |
| Chunks.Rehash | src/tui/chunk_table.cpp:168-179 | reinserting every record under the new capacity's hash represents the same map |
| Chunks.ChunkTable.GrowTo | src/tui/chunk_table.cpp:164-182 | growing keeps the map and the invariant, never shrinks and reaches the capacity asked for |
| Chunks.ShiftOut | src/tui/chunk_table.cpp:338-346 | the backward shift ends and removes exactly one record, keeping the table invariant |
| Chunks.ChunkTable.Erase | src/tui/chunk_table.cpp:328-350 | removes exactly the key and says whether it was there |
| Chunks.ChunkTable.Clear | src/tui/chunk_table.cpp:65-70 | leaves the empty map and no hints |
| Chunks.ChunkTable.Reserve | src/tui/chunk_table.cpp:72-79 | afterwards that many entries are within the load factor |
| Chunks.ChunkTable.InsertLive | src/tui/chunk_table.cpp:243-291 | the whole new map, recycled records included, and every field of the new record; refused exactly for key 0 or for a new key at or over the cap with no freed record, and only the latter counts as a drop; every record evicted is counted |
| Chunks.ChunkTable.MarkFreed | src/tui/chunk_table.cpp:317-326 | marks exactly the key's record as freed, or changes nothing for an unknown key |
| Chunks.WaitingPush | src/tui/chunk_table.cpp:184-193 | pushing into the circular hint ring appends, dropping exactly the oldest hint when it is full |
| Chunks.ChunkTable.PushFreed | src/tui/chunk_table.cpp:184-193 | the same of the table's queue; without a cap there is no queue |
| Chunks.FirstFreedIsFirst | src/tui/chunk_table.cpp:200-204 | the hint taken is of a freed record and every hint skipped is not |
| Chunks.ChunkTable.PopEvictable | src/tui/chunk_table.cpp:195-211 | evicts exactly the record of the first hint that is still freed and consumes the hints up to it; fails exactly when no hint is |
| Chunks.SortedFreed | src/tui/chunk_table.cpp:220-233 | sorting the freed pairs lists freed records only, the oldest first |
| Chunks.ChunkTable.RefillFreedQueue | src/tui/chunk_table.cpp:220-233 | the queue becomes freed records, the earliest freed first and none left out before the last, as many as the cap allows; all of them when the table is within its cap |
| Chunks.FreedInOrder | src/tui/chunk_table.cpp:220-233 | the sorted list names every freed record of the map once, each before those freed later |
| Chunks.ChunkTable.MakeRoom | src/tui/chunk_table.cpp:235-241 | succeeds exactly when a freed record exists and removes exactly one freed record: that of the first hint still good for one, else an oldest one |
| Chunks.EvictsFreedFirst | src/tui/chunk_table.cpp:184-211 | with hints in the order of the frees and one for every freed record, the victim was freed first if and only if none freed strictly earlier has its last hint between the one taken and the victim's own last |
| Chunks.StaleHintEvictsYounger | src/tui/chunk_table.cpp:195-211 | a run of the real table in which a record freed at 3 is evicted and one freed at 2 stays |
| Chunks.ChunkTable.SetMaxEntries | src/tui/chunk_table.cpp:81-99 | only freed records go, the earliest freed first, and no more than need be; afterwards the table is within its cap if and only if its live records are, and the queue hints at freed records in the order of their frees, at all of them when nothing had to go |
| Chunks.ChunkTable.EnforceCap | src/tui/chunk_table.cpp:95-98 | the same of the loop that enforces the cap, with the exact size it ends at; each record gone is one eviction counted |
| Chunks.CapOutcome | src/tui/chunk_table.cpp:95-98 | giving up freed records until within the cap or none is left ends within it exactly when the live records are |
| Chunks.CapExceeded | src/tui/chunk_table.cpp:95-98 | a table with two live records keeps both under a cap of one |
| Chunks.RunThenFind | src/tui/chunk_table.cpp:65-350 | after any sequence of inserts, frees, erases, reserves and clears a lookup answers as a plain map would, hit or miss, and the size is the map's |
| Chunks.RunCapped | src/tui/chunk_table.cpp:65-350 | any run with cap changes is a run of a map in which a new record past the cap costs exactly one freed record or is refused, and a lookup answers as that map does |
| Chunks.LiveUntilFreed | src/tui/chunk_table.cpp:235-291 | over any such run a live record stays found and unchanged until it is itself freed, erased, recycled or the table cleared, whatever is evicted |
| Chunks.CapHolds | src/tui/chunk_table.cpp:266-269 | once within its cap the table stays within it until the cap changes |
| LiveSums.SlotSumIsSum | src/tui/heatmap.cpp:84-114 | summing over the slots of a table is summing over its map |
| HeatMaps.CellOfExactly | src/tui/heatmap.cpp:117-130 | with a packed address space an address has cell `i` exactly when a span holds it and its offset there lies in the `i`-th run of cell-size offsets; without one, when the address itself does |
| HeatMaps.OverheadMeans | src/tui/heatmap.cpp:23-25 | the overhead is what the usable size has beyond the request, none when it has less |
| HeatMaps.AllocKeeps | src/tui/heatmap.cpp:132-144 | an allocation of an address that is not live, at any time, keeps every cell's sums and the totals in agreement with the table |
| HeatMaps.FreeKeeps | src/tui/heatmap.cpp:146-172 | a free of a live record, at any time, does too |
| HeatMaps.AgreementIsUnique | src/tui/heatmap.cpp:72-172 | two heat maps in agreement with one table differ at most in their stamps |
| HeatMaps.StampIsNever | src/tui/heatmap.cpp:103-112 | a bumped stamp reads "never" exactly when nothing was stamped or the last time was saturated |
| HeatMaps.AllocStampsCompare | src/tui/heatmap.cpp:99-103 | stamping in event order and in slot order agree exactly when no record is saturated or the last one is |
| HeatMaps.FreeStampsCompare | src/tui/heatmap.cpp:111-113 | the stamp of the frees still on record is not later than that of all frees exactly when none was saturated, none is on record or the last on record is saturated |
| HeatMaps.LatestCompare | src/tui/heatmap.cpp:99-113 | for unsaturated times in any order the rebuilt stamp is never later, and equal exactly when the latest time is still on record |
| HeatMaps.Rebuild | src/tui/heatmap.cpp:72-115 | for every table the scan agrees with it in all sums, and each stamp is that of the cell's records in slot order |
| HeatMaps.HeatMap.Configure | src/tui/heatmap.cpp:53-70 | cells are emptied exactly when base, cell size, columns, rows or validity, or the number of cells, changed |
| HeatMaps.SameCells | src/tui/heatmap.cpp:54-62 | grids the comparison calls the same put every address in the same cell |
| HeatMaps.HeatMap.Allocated | src/tui/heatmap.cpp:132-144 | the in-place update is the step `AllocKeeps` is about |
| HeatMaps.HeatMap.Freed | src/tui/heatmap.cpp:146-172 | the in-place, guarded update is the step `FreeKeeps` is about |
| HeatMaps.HeatMap.RebuildFrom | src/tui/heatmap.cpp:72-115 | whatever the cells held, afterwards the sums agree with the table and the stamps are those of its records |
| HeapApps.CountedStep | src/tui/heap_app.cpp:113-184 | any event, unknown frees, double frees and allocations over live addresses included, keeps the counters equal to the count and usable bytes of the live records plus what null-pointer allocations added |
| HeapApps.EventMsMeans | src/tui/heap_app.cpp:67-70 | whole milliseconds since the origin, 0 before it, and 2^32 - 1 from there on |
| HeapApps.RecordMeans | src/tui/heap_app.cpp:113-184 | exactly the non-null addresses ever allocated have a record: with the sizes, time and thread of the last allocation, and freed at the time of the last free since, if there was one |
| HeapApps.UnknownStep | src/tui/heap_app.cpp:149-156 | a free has no record exactly when its address was never allocated, or is null |
| HeapApps.CountedExactly | src/tui/heap_app.cpp:160-182 | the counter is the number of live records if and only if no allocation reported a null pointer |
| HeapApps.NullIsCounted | src/tui/heap_app.cpp:165-182 | applying one such allocation leaves a count of one and an empty table |
| HeapApps.ApplyFree | src/tui/heap_app.cpp:123-156 | a free takes out of the counters exactly a live record's contribution; the guards never bite |
| HeapApps.ApplyAlloc | src/tui/heap_app.cpp:158-182 | an allocation adds its usable bytes and replaces the contribution of a live record at the same address |
| HeapApps.Apply | src/tui/heap_app.cpp:113-184 | a batch leaves table, heat map and counters as the fold of all events so far, the unknown frees counted |
| HeapApps.HeapApp.Drain | src/tui/heap_app.cpp:72-111 | applied events followed by staged ones are the drained events in order; paused nothing is applied; staged events go before the ring is read; how much is taken from the ring |
| HeapApps.HeapApp.Replay | src/tui/heap_app.cpp:87-100 | staged events are applied in order, a frame's worth at most, and some stay only if a whole frame's worth went |
| HeapApps.FillTable | src/tui/heap_app.cpp:113-184 | the events run through the Robin Hood table leave exactly the map the counters are proved about |
| Pipeline.TableIsReplay | src/tui/heap_app.cpp:113-184 | for every log and address, the table has a live record with the last reported size exactly when a replay of the log has the address |
| Pipeline.TableShowsTheHeap | src/tui/heap_app.cpp:113-184 | at quiescence of any drop-free run live records are held blocks with their saturated sizes, and the only held blocks not shown predate the session, at unchanged real size, and were never mentioned |
| Pipeline.CountersAreTheHeap | src/tui/heap_app.cpp:158-182 | at quiescence of any drop-free run from an empty heap `live_` is the number of blocks held; `live_bytes_` is at most their real total, and equal to it if and only if no block exceeds 2^32 - 1 bytes |
| Pipeline.ReportedTotal | src/preload/preload.c:348-354 | saturating the sizes loses bytes exactly when some size is too large |
| LargeBlocks.LargeBlockFallsShort | src/preload/preload.c:348-354 | a reachable drained state with one block of 5 GiB, for which the counters read one block of 2^32 - 1 bytes |
| Pipeline.HeatFollowsTable | src/tui/heatmap.cpp:132-172 | folding any alternating stream, at whatever times, leaves every cell's sums and the totals in agreement with the table |
| Pipeline.RunsAlternate | src/tui/heap_app.cpp:113-184 | what any drop-free run of a target watched from the start delivers is such a stream |
| Pipeline.HeatShowsTheHeap | src/tui/heatmap.cpp:132-172 | so at every point of every such run the heat map's sums are the table's |
| Pipeline.CellsShowTheHeap | src/tui/heatmap.cpp:117-172 | at quiescence each cell counts exactly the held blocks that lie in its run of addresses, or of packed offsets, and their reported bytes |
| Pipeline.KeptStamps | src/tui/heatmap.cpp:132-172 | for any stream the incremental stamps are those of the cell's allocations and frees in order |
| Pipeline.StampsMatchExactly | src/tui/heatmap.cpp:72-172 | for any alternating stream with nondecreasing times, the exact conditions under which the last allocations are equal and the rebuilt last free is not the later one |
| Pipeline.SaturationBreaks | src/tui/heap_app.cpp:67-70 | two allocations, one past the clock's range, that a rebuild stamps by slot order and the incremental map as "never" |
| Pipeline.LatestMatches | src/tui/heatmap.cpp:72-172 | that last statement for one cell, for any alternating stream whose times are not saturated |
| Pipeline.RebuiltMatches | src/tui/heatmap.cpp:72-172 | for any alternating stream incremental and rebuilt sums are equal in every cell and in total; with ordered times the stamps match under the exact conditions; before the clock saturates, times in any order, no rebuilt stamp is later and each is equal exactly when the latest is still on record |
| Pipeline.RebuildMatches | src/tui/heatmap.cpp:72-172 | the same of a rebuild from the real table the events were run through |
| Pipeline.SumsSurviveExactly | src/tui/heatmap.cpp:132-172 | an event keeps all sums in agreement with the table if and only if it allocates a non-null address that is not live, frees a live one, frees into a cell that counts none, or lies off the grid |
| Pipeline.OwnCell | src/tui/heatmap.cpp:132-172 | exactly when the event keeps the cell's live count, its live bytes and its overhead, each on its own |
| Pipeline.OwnTotals | src/tui/heatmap.cpp:132-172 | exactly when it keeps each total |
| Pipeline.AllocOverBreaks | src/tui/heatmap.cpp:132-144 | allocating one address twice counts it twice |
| Pipeline.UnknownFreeBreaks | src/tui/heatmap.cpp:151-166 | freeing an unknown address takes another chunk out of the count |
| Pipeline.DoubleFreeBreaks | src/tui/heatmap.cpp:151-166 | so does the second free of an address |
| Fragmentation.OverSorted | src/tui/fragmentation.cpp:53-94 | a region's minimum, maximum and sum do not depend on the order of the extents |
| Fragmentation.SpanIdentity | src/tui/fragmentation.h:11-26 | first start to last end plus what overlaps equals footprints plus holes, for any sorted extents |
| Fragmentation.StrandedCount | src/tui/fragmentation.h:36-45 | the holes of the walk are exactly the uncovered addresses between two live chunks of the region |
| Fragmentation.GapIsStranded | src/tui/fragmentation.cpp:96-110 | `gap_bytes` never exceeds the stranded bytes, and equals them if and only if extents are disjoint or nothing is stranded |
| Fragmentation.OverlapUnderstates | src/tui/fragmentation.cpp:103-110 | three extents, two overlapping, with a figure of 30 for 40 stranded bytes |
| Fragmentation.MeasuredExactly | src/tui/fragmentation.cpp:53-94 | an extent is measured exactly when some slot holds a live record with a non-null key in a span, and it goes from the key to 8 bytes past the usable size, cut off at the end of the span |
| Fragmentation.AllCounted | src/tui/fragmentation.cpp:53-94 | every live record is either measured or counted as outside |
| Fragmentation.GapIsSortedWalk | src/tui/fragmentation.cpp:96-110 | for disjoint extents it is the sum of consecutive address-ordered gaps inside each region |
| Fragmentation.Measure | src/tui/fragmentation.cpp:53-94 | the pass gives every region's totals over the footprints of the live chunks in it, the extents collected are exactly theirs, and measured plus outside chunks are the live records |
| Fragmentation.Totals | src/tui/fragmentation.cpp:96-101 | the summed spans and footprints, and how many regions hold a live chunk |
| Fragmentation.LargestGap | src/tui/fragmentation.cpp:123-150 | the walk returns the largest gap of neighbours sharing a region: no hole between two chunks of a region is larger, and it is a hole exactly when some gap of that size is clear of earlier extents, as it is for disjoint ones |
| Fragmentation.AttainedExactly | src/tui/fragmentation.h:102-112 | that condition, for any extents |
| Fragmentation.NestedOverstates | src/tui/fragmentation.cpp:144-147 | three extents, one nested, for which the walk's answer is no hole |
| Fragmentation.Pass | src/tui/fragmentation.cpp:32-150 | the whole report: all of the above, percent between 0 and 99, or -1 exactly when nothing was measured, and when the largest hole is known |
| Fragmentation.FragAnalyzer.Analyze | src/tui/fragmentation.cpp:15-155 | a pass runs exactly when due and accounts for every live record; the return value says whether a shown figure changed |
| Fragmentation.FragAnalyzer.DueExactly | src/tui/fragmentation.cpp:15-21 | the first time, then when the interval has gone by, across the wrap of the 32-bit clock too |
| Utf8.DecodeIsExact | src/tui/framebuffer.cpp:41-87 | on arbitrary bytes decoding advances and stays inside, accepts two, three or four bytes exactly when section 4 of RFC 3629 does, and encoding the result gives the bytes back |
| Utf8.DecodeEncode | src/tui/renderer.cpp:24-42 | decoding the encoding of any scalar value, wherever it stands, returns the value and its length |
| Utf8.RoundTrip | src/tui/renderer.cpp:24-42 | decoding the concatenated encodings of any scalar values returns them |
| Renderers.DigitsOf | src/tui/renderer.cpp:53-61 | the reversed digit buffer is the decimal numeral the terminal reads back |
| Renderers.ShownAs | src/tui/renderer.cpp:63-93 | a cell shows its glyph, a space for 0 and the replacement character for a value outside Unicode; the three bytes of each colour, or what the palette of the mode makes of it; and its four attribute bits |
| Renderers.ColorParamsSet | src/tui/renderer.cpp:95-125 | in each colour mode the parameters set exactly the one colour, to exactly the resolved code |
| Renderers.AttrCodesSet | src/tui/renderer.cpp:135-149 | after a reset the attribute codes set exactly the cell's attributes |
| Renderers.Renderer.MoveTo | src/tui/renderer.cpp:69-79 | the terminal's cursor is at the target, whether the move was emitted or elided, and it is elided exactly when the tracked cursor is there |
| Renderers.Renderer.EmitPen | src/tui/renderer.cpp:127-170 | the terminal's pen is the cell's, whatever was elided, nothing else about the terminal changed, and nothing is emitted when the pen held is the one wanted |
| Renderers.Renderer.EmitCell | src/tui/renderer.cpp:198-213 | exactly this cell changes on the terminal, to what it should show, in at most 80 bytes, and in its glyph's bytes alone where cursor and pen are right already |
| Renderers.Renderer.Render | src/tui/renderer.cpp:178-223 | on any terminal, with any pen, cursor and wrapping, exactly the changed cells (all on a full repaint) come to show the back buffer and no other is touched; one showing the front buffer comes to show the back buffer if and only if its cells are drawable; for any cells an idle frame is empty and a frame fits the reserved capacity |
| Renderers.NeverUndrawable | src/tui/renderer.cpp:63-67 | no bytes at all bring a terminal to show an undrawable cell |
| Renderers.ControlGlyphIsLost | src/tui/renderer.cpp:63-67 | on the modelled terminal, which acts on no control code but escape, any other as a glyph leaves it unchanged, its cursor included |
| Renderers.EscapeGlyphOpens | src/tui/renderer.cpp:63-67 | on the modelled terminal, which knows bracketed sequences only, an escape followed by a bracket opens one, and is swallowed otherwise |
| EventLoops.Framebuffer.Resize | src/tui/framebuffer.cpp:111-124 | accepts exactly positive sizes within the cell limit; blanks both buffers or changes nothing |
| EventLoops.Framebuffer.Text | src/tui/framebuffer.cpp:135-151 | exactly the decoded characters that fall on the row are written, in their columns, and the count of them is returned |
| EventLoops.Framebuffer.Swap | src/tui/framebuffer.cpp:211-214 | the back buffer becomes the front one and the next starts blank |
| EventLoops.EventLoop.TakeResize | src/tui/event_loop.cpp:195-218 | a measured width and height become the buffers'; a failed measurement keeps the size, or takes 80 by 24 when there is none; refused exactly below the minimum or when the new size is no legal one; a full repaint exactly when the size changed |
| EventLoops.EventLoop.Prepare | src/tui/event_loop.cpp:170-218 | up to the resize: when the iteration ends here and why, and the size, the flags and the statistics it goes on with |
| EventLoops.EventLoop.DrawFrame | src/tui/event_loop.cpp:239-262 | a completed draw leaves the terminal showing the new front buffer exactly when all was repainted or every cell was drawn anew or already right; both flags cleared; it fails exactly when there is something to write and writing fails, and counts one write and its bytes when there is |
| EventLoops.EventLoop.Frame | src/tui/event_loop.cpp:166-294 | whatever the terminal holds, which size the buffers have, when the iteration draws, when it completes, and exactly when the terminal then shows the front buffer: always if the contents were left alone or the size changed; frames equal drawn plus skipped since the last reset |
| EventLoops.ResizedAwayAndBack | src/tui/event_loop.cpp:195-265 | an iteration with the old measured size and other contents is skipped, and the terminal does not show the front buffer |
| EventLoops.EventLoop.Run | src/tui/event_loop.cpp:152-295 | over every run in any world frames equal drawn plus skipped; in every world that leaves the contents alone while the size stays, the terminal shows the front buffer, unless a failed write or refused size ended the run |
| HeapWalkers.ChainTiles | src/tui/heap_walker.cpp:186-246 | emitted chunks, free bytes and the pending chunk tile exactly the distance walked, in order and without overlap |
| HeapWalkers.ChainMeans | src/tui/heap_walker.cpp:190-238 | on the words of the memory alone, from any first header: each chunk passed is emitted when its successor's header has the lowest bit set, counted with its size as free when clear, and neither when there is no header to read |
| HeapWalkers.ChainExists | src/tui/heap_walker.cpp:190-238 | from every address there is such a chain of headers, and it ends |
| HeapWalkers.EmittedInUse | src/tui/heap_walker.cpp:197-238 | every emitted chunk has the size in its own header, 8 bytes less usable, and its successor's in-use bit set |
| HeapWalkers.WalkBlock | src/tui/heap_walker.cpp:183-238 | one block of any size leaves the rest of the header-by-header walk unchanged, or ends it where that walk ends |
| HeapWalkers.WalkRegion | src/tui/heap_walker.cpp:158-252 | with no ceiling hit the blocks give exactly the header-by-header walk, for every block size of 16 or more; with one hit, a prefix; both ceilings are kept to, and only reaching one cuts the walk short |
| HeapWalkers.ScoreChain | src/tui/heap_walker.cpp:71-86 | the score is the greatest number up to 64 of headers, each leading to the next, that are all plausible |
| HeapWalkers.FindChainStart | src/tui/heap_walker.cpp:102-121 | the best-scoring aligned offset, the earliest of equals, or none when none reaches four headers |
| HeapWalkers.BestIsUnique | src/tui/heap_walker.cpp:102-121 | that answer is unique |
| HeapWalkers.AddRegion | src/tui/heap_walker.cpp:262-285 | what a region adds to the chunks and to the opaque bytes is together exactly its span |
| HeapWalkers.WalkAll | src/tui/heap_walker.cpp:254-289 | chunk bytes plus opaque bytes equal the readable heap address space, and every chunk is in use by the words in memory; with no ceiling hit chunks and sums are those of the header-by-header walk of all regions, and the free bytes are among the opaque ones |
| Regions.PackIsPacked | src/tui/region_map.cpp:11-48 | packing ascending disjoint regions gives ascending disjoint spans laid end to end from zero |
| Regions.Repack | src/tui/region_map.cpp:15-47 | the in-place repack equals a fresh pack and reports a change exactly when some span or the number of spans differs |
| Regions.RegionMap.Rebuild | src/tui/region_map.cpp:11-48 | the same of the map, and repacks are counted exactly when something changed |
| Regions.RegionMap.SpanAtAddr | src/tui/region_map.cpp:55-67 | the binary search finds the span of an address whenever there is one |
| Regions.RegionMap.SpanAtFlat | src/tui/region_map.cpp:69-81 | the binary search finds the span of every offset below the total and of no other |
| Regions.RegionMap.Flat | src/tui/region_map.cpp:83-88 | the search-based translation is the first-match translation |
| Regions.RegionMap.Address | src/tui/region_map.cpp:90-95 | defined on exactly the offsets below the total, it returns the address packed there |
| Regions.FlatIsInjective | src/tui/region_map.cpp:83-95 | no two addresses share an offset |
| Regions.FlatDomain | src/tui/region_map.cpp:83-88 | an address has an offset, below the total, exactly when it lies in an allocatable region |
| Grids.ConfigureIsGood | src/tui/grid.cpp:23-88 | valid exactly for a non-empty span and viewport, which it keeps; the cell size is the smallest legal power of two that reaches the end of the span, or the largest legal one |
| Grids.CellIsRange | src/tui/grid.cpp:103-111 | an address has index `i` exactly when it lies in the `i`-th run of cell-size addresses |
| Grids.CoversExactly | src/tui/grid.cpp:133-145 | the overflow-free test holds exactly when every address of the span has an index |
| Cursors.LastHoldsEnd | src/tui/cursor.cpp:22-33 | the last heap cell holds the last byte of the span exactly when the grid covers the span |
| Cursors.InHeapCell | src/tui/cursor.cpp:22-68 | the cursor is in the cell its coordinate lies in, in the first for one before the grid, and in the last heap cell, the one with the last byte of the span or else the grid's last, for one past it |
| Cursors.LandsOn | src/tui/cursor.cpp:16-18 | the coordinate of a heap cell is read back as that cell |
| Cursors.RowsUp | src/tui/cursor.cpp:99-105 | up keeps the column and goes the full distance or to the top row |
| Cursors.RowsDown | src/tui/cursor.cpp:106-112 | down keeps the column and goes the full distance or as far as the heap has that column |
| Cursors.FindNext | src/tui/cursor.cpp:125-131 | the nearest occupied cell above, or no move when there is none |
| Cursors.FindPrev | src/tui/cursor.cpp:132-137 | the nearest occupied cell below, or no move when there is none |
| Cursors.MapCursor.Step | src/tui/cursor.cpp:70-143 | from any coordinate every move ends on a heap cell, the promised one, and reports whether it moved |
| Cursors.MapCursor.Refit | src/tui/cursor.cpp:145-158 | a coordinate that still lands on a heap cell is untouched; any other goes to the start of the nearest one |

## Left out

- Weak memory: the ring's steps interleave under sequential consistency; the acquire/release pairs are assumed to make that sound.
- Counter widths: ring sequence numbers are unbounded (only the drop test's subtraction wraps), and so are the aggregates' 32- and 64-bit sums.
- `hv_ring_claim`, `hv_ring_release`, `hv_ring_used` and breaking a stale claim: one consumer is assumed.
- Interceptor.ClaimsAlternate: assumes no drops, that the target passes only blocks it was given, and that a NULL from `realloc` leaves the old block held, which excludes `realloc(p, 0)`.
- Interceptor.QuiescentReplayIsHeap: makes the same assumptions as Interceptor.ClaimsAlternate, and that `malloc_usable_size` was resolved.
- Pipeline.StampsMatchExactly: is for times in order; for times out of order Pipeline.LatestMatches is exact until the clock saturates, and the two together are not characterised.
- Bootstrap blocks, the re-entrancy guard, `calloc` overflow, fork handlers and symbol resolution in the interceptor.
- Table statistics other than evictions and drops (longest probe, updates, rehashes), and allocation failure in growing.
- Exact-overhead refinement (`mark_refined`, `clear_refined`, `refine_overhead`): clock- and syscall-driven, and a recycled record keeps a stale flag.
- HeapApps.HeapApp.Drain: the class holds the table as the map it is proved to be and the heat map as a value; `FillTable` and `HeatMaps.HeatMap` are the in-place forms, and eviction under a cap is proved on the table alone.
- Terminals: reactions of real terminals to control codes (newline, tab, backspace, sequences without a bracket) are not modelled; drawable frames contain none.
- `cell_state`, heat ramps, colour quantisers (any functions with the right ranges) and `set_color_mode` in mid-session.
- Renderers.Renderer.Render: every printable character is taken to be one column wide.
- Frame timing, frame rate, waiting, key decoding, signals and partial writes in the loop.
- `clip_rect`, `fill` and `box`, panels, legends, layout and formatting: easy case analysis.
- Reads that fail or come back short in the heap walker, snapshot pacing and enrichment, shared-memory set-up and attach.
- HeapWalkers.WalkRegion: where a ceiling cuts a region's walk short the chunks are a prefix of the walk's; how many free ones were counted by then is not stated.
- A span's kind and arena flag, which a repack overwrites without reporting a change.
