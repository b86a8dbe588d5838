# A verified model of the JSLK memory stack

The project models, in Dafny, the parts of the JSLK kernel whose correctness
rests on loops, in-place updates and long runs, and proves what they are for.

* **The kernel heap** (`kernel/heap.c`, `kernel/orderedArray.c`): a boundary-tag
  allocator over raw, byte-addressed memory with an index of holes ordered by
  size. `Tilings` says what it means for segments to fill a range exactly;
  `HeapLayouts` gives each step of `alloc` and `free` on the layout and proves
  the invariant step by step; `HeapTheorems` states what callers rely on;
  `HeapMemory` ties headers and footers in memory to the layout; the class
  `Heaps.Heap` carries the steps out on memory, the index array and the set of
  mapped pages, and every access it makes is proved to lie on a mapped page;
  `HeapRuns` covers whole runs from `createHeap` on, and shows that clients see
  independent objects; `HeapPages` and `HeapBacking` run the loops of `expand` and
  `contract` over page tables and frames, for whole runs too. `HeapAsWritten`
  holds, for each place where the text of `heap.c` does something else, the
  condition under which it still works; `HeapTextRuns` runs the text itself and
  shows that while the conditions hold it does what the model does; and
  `HeapExamples` holds heaps on which it fails.
* **Frames and page directories** (`hal/x86/memory/paging.c`,
  `hal/x86/memory/kheap.c`): the frame bitmap in 32-bit words (`Frames`), the
  two-level lookup of the 10/10/12 split of 32-bit paging (Intel SDM volume 3A,
  section 4.3), the identity map whose bound moves while it is made, and the
  cloning of a directory (`Paging`).
* **The initrd** (`initrd/make_initrd.c`, `kernel/initrd.c` from line 123 on,
  `open` in `kernel/jslk.c`): the packer (`Packer`), the mounted volume and the
  chunked reader (`Initrd`), and the C strings they use (`CStrings`).
* **The interrupt registry** (`hal/x86/interrupts/isr.c`): the records of 47
  vectors against an abstract machine of one vector, over any run of calls
  (`Interrupts`).
* **Number printing and the console** (`lib/jstdclib/string.c`,
  `hal/x86/io/vga.c`): `itoa` and the two console printers against one notion of
  numeral (`Numbers`), and the scrolling screen against text wrapped at 80
  columns (`Console`).

Code that updates state in place is modelled by classes, arrays and loops; each
method is proved equal to a function of the old state, and the theorems are about
those functions or are carried by the methods' own postconditions. A failed
assertion or panic of the kernel ends a run, and appears as an outcome.

## Where the text and the intended behaviour differ

The model follows the text except in the places below, where the text defeats
what the surrounding comments say it is for. For most of them a lemma
says exactly when the text does work.

In `HeapExamples` a few calls lead from `createHeap`, as the kernel calls it, to
a heap on which the text goes wrong, for most of the failing sides. In the other
direction, `HeapTextRuns.TextRunSame` says that the text does to the segments what
the model does along every run whose steps meet the conditions below, and
`TextRunsWhereConditionsHold` that there are such runs.

* `kernel/heap.c:18` and `:119` parse as `x & 1`. The model rounds up to a page
  (`RoundAsWrittenExactly`, `ExpandBacksExactly`, `ExpandLeavesPageUnmapped`).
  Line 119 changes nothing, because the index takes 0x80000 bytes.
* `kernel/heap.c:46-50` masks with one bit. The model rounds up to a page
  (`ContractAsWrittenKeepsExactly`, `ContractCutsLiveBlocks`).
* `kernel/heap.c:53-54` lengthens a heap that is shorter than the minimum. The
  model never lets contraction lengthen the heap (`ContractGrowsSmallHeaps`).
* `kernel/heap.c:76-87` and `:205-225`: the gap in front of an aligned block can
  be too small for a hole, slack is added to the block before the gap is taken
  off, and the hole stays at its old place in the index. The model leaves no gap
  or one that holds a hole, the same in the fit test and in the split, and takes
  slack into account afterwards (`GapsAgreeExactly`, `AlignedSplitExactly`,
  `AlignedSplitLeavesTenBytes`).
* `kernel/heap.c:186-195` takes for granted that the endmost hole reaches the old
  end. The model makes a new hole when it does not (`GrowAsWrittenTilesExactly`, `GrowthOverlapsBlock`).
* `kernel/heap.c:33` asks for missing page tables, and once the heap exists
  `hal/x86/memory/paging.c:330` takes them from it, in the middle of the growth;
  `kernel/heap.c:152-153` saved the old length and the old end before that. If no
  hole has room for a table, the nested call grows the heap as well, and growth
  from the saved end runs over what is there (`NestedTableTilesExactly`,
  `NestedTableAsWritten`, `TableGrowsHeap`); read again, the end is right
  (`NestedTableRepaired`). If the very first page of the growth has no table and
  no hole has room for one, the nested calls never end. In the model the heap
  grows into pages that have tables, and where tables are modelled growth stops at
  a page that has none (`RunBacked`).
* `kernel/heap.c:300` reads behind the end of the heap when the last segment is
  freed. That page is usually not mapped, and the read ends in a panic; if it is,
  a stale header there is trusted. The model probes only inside the heap
  (`ProbePanicsExactly`, `StaleHeaderStays`, `ProbeFaults`).
* `kernel/heap.c:303-306` never writes the footer its comment announces. The
  model writes it (`RightMergeFooterExactly`, `RightMergeLosesFooter`).
* `kernel/heap.c:325-331` can leave a hole smaller than its own tags. The model
  then keeps one more page (`ResidueExactly`, `RestTooSmall`).
* `kernel/heap.c:333-348` looks for the wrong header and may insert a hole that
  is gone. The model inserts exactly the hole that exists
  (`IndexAfterContractExactly`, `VanishedHoleIsListed`).
* `kernel/heap.c:190`, `:217`, `:293`, `:303` and `:328` change sizes under the
  index. The model takes a hole out before its size changes and puts it back
  where it belongs; only best fit depends on this (`ResizeInPlaceExactly`,
  `DriftedIndexMissesBestFit`).
* `hal/x86/memory/paging.c:76-94` has no return after its loops; the model
  returns the value that line 110 tests for. Line 132 passes a frame number for
  an address (`FreeAsWrittenNeverFrees`, `FreeAsWrittenGivesAwayFrameZero`).
  Lines 230 and 248 count words and allocate as many bytes; the model has one
  word for every 32 frames. Line 330 does not clear the table it makes; the model
  does. Line 387 clears a directory's worth of bytes where a table begins; the
  model clears the table.
* `hal/x86/memory/kheap.c:24` lets `&` bind last (`PhysAsWrittenExactly`).
* `hal/x86/interrupts/isr.c:91`: the flags start undefined; the model takes them
  as false. Line 82 admits vector 47 of 47; the model demands that it is not
  asked for. The handler list, which is never allocated, grows as needed. Line
  176 assigns instead of comparing and is modelled as it stands: an exclusive
  handler always protects its vector.
* `lib/jstdclib/string.c:83-89` copies no terminator (`StrcpyExactly`). Names in
  an image are nonempty and name buffers of file nodes start zeroed.

Some consequences of the text are kept and stated as they are: a chain that
registers a 257th handler starts again with it (`ChainCompleteExactly`),
`kprintf` prints negative integers unsigned (`SignLostExactly`), `initrd_write`
can run into the files behind its own (`OverrunExactly`), a backspace does not
move the cursor and at the first cell of row 1 blanks a cell of the status bar
(`StatusBarExactly`), and every 256th call of `clear_console` leaves the cursor
where it was (`Terminal.ClearConsole`).

## Model

| member | source | states |
|---|---|---|
| HeapRuns.EveryRunTiles | kernel/heap.c:104-349 | after any run of calls from createHeap on, given that the page tables of the pages the heap grows into exist, the segments are one contiguous chain from the start to the end of the heap, no two holes touch, and the index lists every hole once, smallest first |
| HeapRuns.EveryRunSeparates | kernel/heap.c:141-349 | after any such run, a byte a block's owner may use lies inside the heap and in no other segment, so under nobody else's header or footer |
| HeapRuns.RunScript | kernel/heap.c:141-349 | for any list of requests, releases and stores, given that the page tables of the pages the heap grows into exist, a trace of states: each follows exactly from the one before by its command (served if and only if Allocate succeeds, released exactly when live, one byte stored), and the last is what memory holds, byte by byte; the run stops exactly at a request that fails |
| HeapRuns.DoRequest | kernel/heap.c:141-262 | one new object appears exactly when Allocate succeeds, where no object was and of at least the size asked for; all others keep their bytes |
| HeapRuns.DoGiveBack | kernel/heap.c:264-349 | just the object given back disappears, exactly when it is live; all others keep their bytes |
| HeapRuns.DoCommand | kernel/heap.c:141-349 | one command has exactly its effect, on the objects, the layout and the mapped pages |
| HeapRuns.RequestMeans | kernel/heap.c:141-262 | a request is served, with one new object of the size asked for and all others as they were, when a hole has room, and the end then stays; or when the heap may grow by the request rounded up to pages, at most twice if aligned; not when no hole has room and it may not grow even once |
| HeapRuns.ReleaseMeans | kernel/heap.c:264-349 | a release takes away just that object and its block; no heap with the blocks that are left, neither below the minimum size nor longer than before, ends earlier, if the free space reached the end, and otherwise the end stays |
| HeapRuns.StoreMeans | kernel/heap.c:141-349 | a store changes just one byte of one object, to the value stored |
| HeapBacking.RunBacked | kernel/heap.c:12-66 | the same runs over real page tables and frames, with tables for the pages of the heap only: every page of the heap is present, on a frame that is in use and behind no other page, and with its old entry or with the flags of the heap; pages elsewhere keep their entries. Unless growth met a page without a table or one without a frame when none was free; then the run stops and says which. The frames in use elsewhere are the same throughout |
| HeapBacking.DoBacked | kernel/heap.c:12-66 | one command with its exact effect on the heap keeps the pages the heap takes for mapped the same as those with a frame, or stops for one of these two reasons; no frame of others is touched either way |
| HeapBacking.MovePages | kernel/heap.c:27-62 | when the end moves, the frames follow just as the set of mapped pages does, or growth stops at a page without a table, or without a frame when none is free |
| HeapBacking.EveryPageFramed | kernel/heap.c:27-62 | every page of the heap is present, on a frame of its own |
| HeapBacking.CreateBacked | hal/x86/memory/paging.c:287-299 | the first pages of the heap get frames, open to the user and not writeable as the boot asks for them, and the heap is made on them; or one has no table, or no frame is left; pages behind the end need no table, and no frame of others is touched |
| HeapBacking.ElsewhereGrown | kernel/heap.c:27-36 | growth leaves the frames in use behind all other pages as they were, also when it stops half-way |
| HeapBacking.ElsewhereShrunk | kernel/heap.c:56-62 | contraction leaves the frames in use behind all other pages as they were |
| HeapBacking.AllFramed | kernel/heap.c:12-66 | as long as nothing was stuck, every page of the heap has a frame of its own |
| HeapPages.ExpandPages | kernel/heap.c:27-36 | the loop of expand over page tables and frames: every page up to where it stops that had no frame is present, writeable unless the heap is read-only and open to the user unless it is for the supervisor, every other page keeps its whole entry, and exactly the frames given came into use; it reaches the new end, or stops at a page without a table, or at one without a frame when none is free |
| HeapPages.ContractPages | kernel/heap.c:56-62 | the loop of contract: just the pages above the one at the new end lose their frames, their flags stay, and exactly these frames come free |
| HeapPages.BackPage | kernel/heap.c:33-34 | a page that has a frame keeps its whole entry; one that has none gets the lowest free frame and is present, writeable and open to the user as asked; no other entry changes and no other frame comes into use; fails exactly when it has none and none is free |
| HeapPages.UnbackPage | kernel/heap.c:60-60 | one page loses its frame, and just that frame comes free; no other entry changes |
| HeapPages.GrowPage | kernel/heap.c:27-36 | one turn of the loop of expand, and which of the three outcomes it has |
| HeapPages.ShrinkPage | kernel/heap.c:58-62 | one turn of the loop of contract |
| HeapPages.ExpandedMeans | kernel/heap.c:33-34 | the entries after the loop of expand, field by field |
| HeapPages.GrownBehind | kernel/heap.c:27-36 | the frames behind a range after part of it was given frames: those before and those given |
| HeapPages.ShrunkBehind | kernel/heap.c:56-62 | the frames behind a range after part of it lost its frames: those before without the ones taken back |
| HeapPages.PagesAreEntries | hal/x86/memory/paging.c:317-338 | the pages spoken of are the entries that get_page finds |
| HeapPages.FramesDistinct | hal/x86/memory/paging.c:97-135 | the frame behind a page is in use and behind no other |
| HeapRuns.DoStore | kernel/heap.c:141-349 | a byte stored in one object changes no other object and no tag |
| HeapRuns.StoreAgrees | kernel/heap.c:141-349 | writing inside one object leaves every header, footer and other object intact |
| HeapRuns.RunInv | kernel/heap.c:104-349 | the invariant holds after every such run that does not stop |
| HeapTheorems.AllocateCorrect | kernel/heap.c:141-262 | a successful alloc, with all the growth it needs, given that the page tables of the pages the heap grows into exist, adds exactly one block, of the size asked for plus less than one overhead, leaves the others, keeps the invariant and never moves the end past the maximum; aligned data begins a page |
| HeapTheorems.AllocateFailsExactly | kernel/heap.c:149-198 | alloc fails exactly when no hole fits and a growth it needs (a second one only if aligned) would pass the maximum |
| HeapTheorems.AllocateFailsWhen | kernel/heap.c:149-198 | in terms of holes with room and of the end: alloc does not fail when a hole has room or the growths it may need stay below the maximum, and does when none has and one growth passes it |
| HeapTheorems.AllocateWhere | kernel/heap.c:141-262 | the block begins the smallest hole with room, but for the gap alignment takes; the end moves by nothing when there is one, else by the request rounded up to pages, and by twice that only if aligned and once gave no room |
| HeapTheorems.GrowthSuffices | kernel/heap.c:149-198 | the self-call finds a hole after one growth if unaligned, after at most two if aligned |
| HeapTheorems.BestFit | kernel/heap.c:68-97 | the chosen hole is the smallest that fits; none is chosen exactly when none fits |
| HeapTheorems.CarveBlocks | kernel/heap.c:200-261 | placing a block in a hole adds just that block; if aligned its data is on a page boundary |
| HeapTheorems.ReleaseBlocks | kernel/heap.c:264-349 | free removes exactly the block it is given, does not lengthen the heap and never takes a heap of the minimum size below it |
| HeapTheorems.ReleaseEndLeast | kernel/heap.c:40-66 | when the free space reaches the end, free leaves the least end that is a page boundary, not below the minimum size, and leaves nothing of the free space or room for its tags |
| HeapTheorems.ReleaseEndAllowed | kernel/heap.c:319-332 | and that end is such a one; a heap below the minimum, or whose free space ends earlier, keeps its end |
| HeapTheorems.ReleaseIsShortest | kernel/heap.c:264-349 | any heap with the same start and the blocks that are left, within those limits, is as long or longer |
| HeapTheorems.CoalescedSpan | kernel/heap.c:278-317 | the hole that free makes spans the block and the holes on both sides of it |
| HeapTheorems.FreeUndoesAllocate | kernel/heap.c:141-349 | an unaligned alloc that succeeds, freed at once, restores the very same segments, those before it or those after the one growth it needed, up to giving back a hole at the end |
| HeapTheorems.FreeUndoesAlloc | kernel/heap.c:200-349 | the same for an alloc from a hole that fits |
| HeapTheorems.IndexBound | kernel/heap.c:113-257 | the index lists at most one hole for every 40 bytes of the heap |
| HeapTheorems.RoomByLength | kernel/heap.c:113-257 | so it never fills up on a heap that cannot grow beyond some five megabytes |
| HeapTheorems.SumWraps | kernel/heap.c:15-25 | what the 32-bit length expand is given amounts to |
| HeapLayouts.CreatedInv | kernel/heap.c:104-139 | createHeap establishes the invariant |
| HeapLayouts.CarveFrontReady | kernel/heap.c:205-230 | cutting off the hole in front leaves a tiling whose index misses just the rest of the chosen hole |
| HeapLayouts.CarveInv | kernel/heap.c:200-258 | front hole, block and tail hole are exactly the chosen hole, and the invariant holds again |
| HeapLayouts.GrowInv | kernel/heap.c:151-195 | growth keeps the invariant, whether the last hole is stretched or a new one is made |
| HeapLayouts.MergeLeftOk | kernel/heap.c:278-295 | after the merge to the left only the freed hole is missing from the index and only it may have a hole behind it |
| HeapLayouts.MergeRightOk | kernel/heap.c:297-317 | after the merge to the right no two holes touch |
| HeapLayouts.SettleInv | kernel/heap.c:319-348 | giving back the end of the heap, or not, restores the invariant |
| HeapLayouts.ReleaseInv | kernel/heap.c:264-349 | free keeps the invariant |
| HeapLayouts.AlignedGap | kernel/heap.c:76-87 | the gap in front of aligned data is none or room for a hole, and puts the data on a page boundary |
| HeapLayouts.AlignedGapLeast | kernel/heap.c:76-87 | and no smaller gap would do |
| HeapLayouts.ContractedLength | kernel/heap.c:40-66 | the length left is whole pages, covers all before the trailing hole, leaves nothing or a hole with room for its tags, and does not fall below the minimum |
| HeapLayouts.ContractedLeast | kernel/heap.c:40-66 | and no length that does so is shorter; a heap below the minimum keeps its length |
| HeapLayouts.FirstFit | kernel/heap.c:68-97 | the first hole of the index that fits |
| Tilings.WalkIsExact | kernel/heap.c:200-349 | hopping from header to header meets every segment once and stops exactly at the end |
| Tilings.EveryByteOwnedOnce | kernel/heap.c:200-349 | every byte of the heap lies in exactly one segment |
| Tilings.JoinUndoesSplit | kernel/heap.c:242-303 | joining the two parts of a split segment restores it |
| HeapMemory.Retag | kernel/heap.c:232-254 | a change inside one segment leaves every other tag and all user bytes of others alone |
| HeapMemory.TaggedBytes | include/heap.h:15-26 | byte by byte, what stands in front of and behind every segment: the magic number, 1 for a hole and 0 for a block, the size, and the address in the footer, lowest byte first |
| HeapMemory.BadTagsMean | kernel/heap.c:270-276 | an assertion of free fails exactly when the bytes at the header or at the footer are not the magic number |
| HeapMemory.BlockTagged | kernel/heap.c:232-254 | after the writes for a block and the hole behind it, every segment has its header and footer |
| HeapMemory.FrontTagged | kernel/heap.c:215-224 | the same for the hole in front of an aligned block |
| HeapMemory.JoinedTags | kernel/heap.c:290-306 | two holes become one with a header of the sum and a footer that names it |
| Heaps.Heap.constructor | kernel/heap.c:104-139 | a new heap is the created layout, tagged in memory, on mapped pages; nothing but its header is written |
| Heaps.Heap.Expand | kernel/heap.c:12-38 | refuses exactly a length that is no growth or passes the maximum, in 32-bit arithmetic; otherwise the end moves to the next page boundary and just the pages added, which have tables, count as mapped (HeapPages.ExpandPages gives them their frames) |
| Heaps.Heap.UnmapPages | kernel/heap.c:56-62 | just the pages above the one at the new end no longer count as mapped (HeapPages.ContractPages takes their frames) |
| Heaps.Heap.Contract | kernel/heap.c:40-66 | moves the end to the contracted length, the least there is (ContractedLeast); every page still inside the heap stays mapped, the others but one are unmapped |
| Heaps.Heap.FindSmallestHole | kernel/heap.c:68-97 | the position of the first fit, -1 exactly when none fits, reading only mapped headers |
| Heaps.Heap.TakeHole | kernel/heap.c:200-230 | the chosen hole leaves the index and the hole in front goes in, in memory as on the layout |
| Heaps.Heap.StoreBlock | kernel/heap.c:205-255 | the block takes the whole hole exactly when less than one overhead would be left, and only tags are written |
| Heaps.Heap.PlaceBlock | kernel/heap.c:232-258 | the block and the hole behind it, in memory as on the layout |
| Heaps.Heap.Place | kernel/heap.c:200-262 | the whole placement, keeping the invariant, all tags and the user bytes of all blocks |
| Heaps.Heap.FindEndmost | kernel/heap.c:159-172 | the hole with the highest address, -1 exactly when there is none |
| Heaps.Heap.FindTail | kernel/heap.c:159-175 | whether a hole reaches the old end, and which |
| Heaps.Heap.UseNewSpace | kernel/heap.c:174-195 | new space goes to the last hole or becomes one, in memory as on the layout |
| Heaps.Heap.Extend | kernel/heap.c:149-196 | one growth: fails exactly past the maximum, else the grown layout, all tags and user bytes kept |
| Heaps.Heap.Alloc | kernel/heap.c:141-262 | alloc in memory is Allocate on the layout, in result and state, when the tables of the pages it grows into exist; it ends; tags, index, page backing and all user bytes are kept; just the pages between the old end and the new are mapped |
| Heaps.Heap.FooterBefore | kernel/heap.c:284-288 | what lies in front of a segment is the footer of its neighbour, and no footer in front of the first |
| Heaps.Heap.UnifyLeft | kernel/heap.c:278-295 | the merge to the left in memory is the one on the layout |
| Heaps.Heap.UnifyRight | kernel/heap.c:297-317 | the merge to the right in memory is the one on the layout |
| Heaps.Heap.Finish | kernel/heap.c:319-348 | contraction and the index in memory are those on the layout |
| Heaps.Heap.Free | kernel/heap.c:264-349 | free in memory is Release on the layout, of which ReleaseMeans and ReleaseIsShortest say what is left, and leaves every segment with both tags; null does nothing; a pointer with a wrong tag fails an assertion and changes nothing; the user bytes of all other blocks are kept |
| Heaps.Heap.CheckTags | kernel/heap.c:270-276 | the two assertions |
| Heaps.Heap.LengthToKeep | kernel/heap.c:45-54 | the length contract keeps, which ContractedLeast says is the least |
| Heaps.ToPageBoundary | kernel/heap.c:17-22 | the next page boundary |
| Heaps.Heap.SplitFront | kernel/heap.c:213-225 | the hole in front of an aligned block is written, tagged and indexed; no user byte changes |
| Heaps.Heap.StoreTags | kernel/heap.c:232-240 | header and footer of one segment and nothing else |
| Heaps.Heap.DropFromIndex | kernel/heap.c:307-316 | the hole leaves the index, the others keep their order |
| Heaps.Heap.PutInIndex | kernel/heap.c:257-257 | the hole goes where its size belongs, comparing headers in memory |
| Heaps.Heap.AppendHole | kernel/heap.c:174-185 | the new space is one tagged and indexed hole |
| Heaps.Heap.StretchHole | kernel/heap.c:186-195 | the last hole ends at the new end, tagged and in its place in the index |
| Heaps.Heap.MarkHole | kernel/heap.c:278-279 | the block is a hole; the user bytes of all others are kept |
| Heaps.Heap.JoinAt | kernel/heap.c:290-306 | two holes are one, tagged at both ends |
| Heaps.Heap.ShrinkHole | kernel/heap.c:325-332 | the last hole ends at the new end, tagged |
| Heaps.Heap.Unify | kernel/heap.c:284-317 | both merges together |
| Heaps.Heap.FreeBlock | kernel/heap.c:270-348 | free of a block that is not null |
| OrderedArrays.InsertKeepsSorted | kernel/orderedArray.c:40-61 | insertion keeps the array sorted, for any strict weak order |
| OrderedArrays.InsertMembers | kernel/orderedArray.c:40-61 | insertion adds exactly the item |
| OrderedArrays.RemoveKeepsSorted | kernel/orderedArray.c:69-77 | removal keeps the array sorted |
| OrderedArrays.RemoveMembers | kernel/orderedArray.c:69-77 | removal takes out exactly the item |
| OrderedArrays.RemoveUndoesInsert | kernel/orderedArray.c:40-77 | removing what was just inserted restores the array |
| OrderedArrays.OrderedArray.constructor | kernel/orderedArray.c:24-33 | an empty array over zeroed storage |
| OrderedArrays.OrderedArray.Insert | kernel/orderedArray.c:40-61 | the contents become those with the item before the first that is not less, in place |
| OrderedArrays.OrderedArray.ShiftIn | kernel/orderedArray.c:50-60 | the shifting loop loses and repeats nothing |
| OrderedArrays.OrderedArray.Lookup | kernel/orderedArray.c:63-67 | the item at a position |
| OrderedArrays.OrderedArray.Remove | kernel/orderedArray.c:69-77 | the contents become those without the position, in place |
| OrderedArrays.OrderedArray.Find | kernel/heap.c:307-311 | the first position of an item, the size exactly when it is absent |
| HeapAsWritten.RoundAsWrittenExactly | kernel/heap.c:17-22 | the rounding as written is right exactly for odd lengths and whole pages |
| HeapAsWritten.ExpandBacksExactly | kernel/heap.c:27-37 | with unrounded lengths the new bytes are all backed exactly when the last is no earlier in its page than the old end |
| HeapAsWritten.ExpandLeavesPageUnmapped | kernel/heap.c:12-38 | two growths that end on an unmapped page |
| HeapAsWritten.ContractAsWrittenKeepsExactly | kernel/heap.c:45-54 | contract as written keeps all before the trailing hole exactly when bit 12 of its offset is clear or the offset is at most the minimum |
| HeapAsWritten.ContractGrowsSmallHeaps | kernel/heap.c:52-54 | contract does not lengthen the heap exactly when it was at least of minimum size |
| HeapAsWritten.ResidueExactly | kernel/heap.c:325-331 | for every offset of the hole: what is left of it is nothing or has room for its tags exactly when it does not start in the last 19 bytes of a page, or starts so far below the minimum size that this leaves room |
| HeapAsWritten.GrowAsWrittenTilesExactly | kernel/heap.c:174-195 | growth as written keeps the tiling exactly when there is no hole or the endmost hole is the last segment |
| HeapAsWritten.NestedTableTilesExactly | kernel/heap.c:149-195 | when growth takes a page table from the growing heap, going on from the end that was saved leaves a contiguous heap exactly when a hole had room for the table |
| HeapAsWritten.NestedTableAsWritten | kernel/heap.c:149-195 | the same for the lines as they are: exactly when a hole had room for the table and, after that, there is no hole or the endmost reaches the end |
| HeapAsWritten.NestedTableRepaired | kernel/heap.c:149-195 | with the end read again after the table was made, the invariant holds |
| HeapAsWritten.NestedGrows | kernel/heap.c:149-196 | a table for which no hole has room moves the end, and what lies behind the saved end is then not one segment |
| HeapAsWritten.RightMergeFooterExactly | kernel/heap.c:297-332 | after all of free's writes the freed hole's footer names it exactly unless it took in a hole on its right and does not reach the end of the heap |
| HeapAsWritten.IndexAfterContractExactly | kernel/heap.c:333-348 | the index as written still lists just the holes exactly when something is left of the hole |
| HeapAsWritten.ProbePanicsExactly | kernel/heap.c:297-316 | the probe to the right panics exactly when the last segment is freed, and the page behind the heap is not mapped or its bytes look like a hole |
| HeapAsWritten.StaleHeaderStays | kernel/heap.c:58-66 | after a trailing hole was given back whole, its header does lie there |
| HeapAsWritten.ResizeInPlaceExactly | kernel/heap.c:190-190 | a size changed in place keeps the index sorted exactly when it still fits between its neighbours |
| HeapAsWritten.GapsAgreeExactly | kernel/heap.c:81-82 | the gap charged is the gap made exactly for low twelve bits up to 0xFF3 |
| HeapAsWritten.AlignedSplitExactly | kernel/heap.c:205-258 | the aligned split as written keeps tiling and index exactly when the low twelve bits are at most 0xFE0 and the tail is 0 or at least 20 bytes |
| HeapAsWritten.NewSizeExactly | kernel/heap.c:144-145 | the size with overhead is at least the request exactly below 2^32 - 20 |
| HeapAsWritten.SignedFitExactly | kernel/heap.c:80-86 | the signed comparison is right exactly for requests below 2^31, or in the last gap - size bytes below 2^32 |
| HeapAsWritten.BoundCheckExactly | kernel/heap.c:24-25 | which sums the 32-bit bound check lets pass |
| HeapTextRuns.TextRunSame | kernel/heap.c:104-349 | along any run whose steps meet their conditions, the heap as the text has it and the heap of this model have the same segments and bounds at the end and fail together; only the order of equal holes in the index may differ |
| HeapTextRuns.TextRunFromCreate | kernel/heap.c:104-349 | the same from createHeap on |
| HeapTextRuns.AllocTextSame | kernel/heap.c:141-262 | while its conditions hold, alloc as the text has it, with all its growths, yields the block, the segments and the end that Allocate yields, and keeps the invariant |
| HeapTextRuns.FreeTextSame | kernel/heap.c:264-349 | while its conditions hold, free as the text has it leaves the segments and the end that Release leaves, and keeps the invariant |
| HeapTextRuns.ContractTextExactly | kernel/heap.c:45-54 | the length contract as written keeps is the one contract should keep, with something left of the hole, exactly when the hole begins far enough below the minimum size for its tags and the heap is no shorter than that |
| HeapTextRuns.PlaceSame | kernel/heap.c:200-261 | the placement as written, when the gap is the same in both formulas and the sizes changed in place keep their order |
| HeapTextRuns.GrowSame | kernel/heap.c:159-195 | one growth as written, when the last hole reaches the end or there is none |
| HeapTextRuns.EndSame | kernel/heap.c:15-25 | the new end in 32-bit arithmetic and with the rounding as written |
| HeapTextRuns.StepTextSame | kernel/heap.c:141-349 | one call as the text has it and one of the model, on two layouts of the same heap |
| HeapTextRuns.AllocateSame | kernel/heap.c:141-262 | the order of equal holes in the index does not change what alloc does to the heap, if no two holes that fit have the same size |
| HeapTextRuns.ReleaseSame | kernel/heap.c:264-349 | nor what free does |
| HeapTextRuns.SameOutcome | kernel/heap.c:149-198 | alloc with its growths where only the hole at the end may fit |
| HeapExamples.LaidReached | kernel/heap.c:104-262 | allocating blocks in turn reaches, from createHeap, the heap with those blocks and one hole |
| HeapExamples.ContractCutsLiveBlocks | kernel/heap.c:40-66 | a reached heap of two blocks: the second is freed and contract as written ends the heap inside the first |
| HeapExamples.VanishedHoleIsListed | kernel/heap.c:333-348 | a reached heap whose index as written lists a hole that is gone |
| HeapExamples.RestTooSmall | kernel/heap.c:325-331 | a reached heap of which contract leaves a hole smaller than its tags |
| HeapExamples.FiveReached | kernel/heap.c:104-349 | seven calls that reach a heap of five blocks, two of them freed |
| HeapExamples.DriftedIndexMissesBestFit | kernel/heap.c:284-295 | on it, a free as written leaves an index out of order and a request gets the larger hole |
| HeapExamples.RightMergeLosesFooter | kernel/heap.c:297-317 | on it, a free as written leaves a hole whose footer names a header that was swallowed |
| HeapExamples.HoleInFrontReached | kernel/heap.c:104-349 | three calls that reach a heap with one hole in front and none at the end |
| HeapExamples.GrowthOverlapsBlock | kernel/heap.c:174-195 | on it, growth as written lays the hole over the block |
| HeapExamples.TableGrowsHeap | kernel/heap.c:149-195 | one block takes the whole of the kernel's heap; a request for four megabytes then needs a second page table, whose making moves the end, and growth from the saved end overlaps |
| HeapExamples.TextRunsWhereConditionsHold | kernel/heap.c:141-349 | on a new heap, a block allocated and freed again: a run whose steps meet all conditions |
| HeapExamples.AlignedSplitLeavesTenBytes | kernel/heap.c:205-258 | on a new heap, an aligned request whose split as written is no tiling |
| HeapExamples.ProbeFaults | kernel/heap.c:297-301 | a new heap taken whole: freeing the block looks at a page nobody mapped |
| HeapExamples.WrappedRequestFits | kernel/heap.c:144-147 | on a new heap, a request near 2^32 that fits as ten bytes |
| HeapExamples.WrappedEndPasses | kernel/heap.c:24-37 | on a new heap, a request whose end wraps to 0 and passes the bound check |
| HeapExamples.SignedRequestFits | kernel/heap.c:80-86 | on a new heap, an aligned request for half of memory that fits |
| Frames.SetBitUses | hal/x86/memory/paging.c:49-55 | setting a bit uses exactly one more frame |
| Frames.ClearBitFrees | hal/x86/memory/paging.c:58-64 | clearing a bit frees exactly one frame |
| Frames.UsedIsBit | hal/x86/memory/paging.c:67-73 | a frame is in use when its bit of its word is set |
| Frames.MaskValues | hal/x86/memory/paging.c:49-55 | the 32 bits of a word as numbers |
| Frames.FreeCountTaken | hal/x86/memory/paging.c:97-120 | taking a free frame leaves one free frame fewer |
| Frames.FreeCountZero | hal/x86/memory/paging.c:76-94 | no frame is free exactly when the search finds none |
| Frames.FrameMap.SetFrame | hal/x86/memory/paging.c:49-55 | the frame of the address is in use, no other changes |
| Frames.FrameMap.ClearFrame | hal/x86/memory/paging.c:58-64 | the frame of the address is free, no other changes |
| Frames.FrameMap.TestFrame | hal/x86/memory/paging.c:67-73 | tells whether the frame is in use |
| Frames.FrameMap.FirstFrame | hal/x86/memory/paging.c:76-94 | the lowest free frame, the error value exactly when all are in use |
| Paging.Pager.constructor | hal/x86/memory/paging.c:240-250 | at boot, 16 megabytes of frames of which none is in use, and no page holds one |
| Paging.Pager.AllocFrame | hal/x86/memory/paging.c:97-120 | a page without a frame gets the lowest free one and no other bit changes; a held frame is in use and no two pages hold the same |
| Paging.Pager.FreeFrame | hal/x86/memory/paging.c:123-135 | just the frame of the page becomes free; the same invariant is kept |
| Paging.Pager.Serve | hal/x86/memory/paging.c:97-135 | a list of such calls does to frames and entries exactly what the calls say, up to the first that panics for want of a frame; every held frame is in use by one page only, pages not named keep their entries, frame 0 stays in use |
| Paging.Pager.ServeOne | hal/x86/memory/paging.c:97-135 | one call, and when it panics |
| Paging.BookedMeans | hal/x86/memory/paging.c:97-135 | one call field by field: which frame a page gets, which flags, what it keeps when it gives its frame up, and when the call panics |
| Paging.Pager.GetPage | hal/x86/memory/paging.c:317-338 | the entry of an address; a table is made only if missing and wanted, and no other slot changes |
| Paging.Pager.MapNext | hal/x86/memory/paging.c:280-285 | one turn of the identity map: one more page mapped, by the next allocation, the bound moved at most when a table begins; or no frame is free and none was taken |
| Paging.Pager.IdentityMap | hal/x86/memory/paging.c:279-285 | the loop ends although it moves its own bound, and page k has the frame that allocation k took; the tables it makes are placed one behind the other and the directory has their addresses; it fails only when the allocations of its own turns, all below the bound, left no frame |
| Paging.Pager.MappedIdentity | hal/x86/memory/paging.c:269-285 | the pages map to their own numbers exactly when no low frame was taken before |
| Paging.Pager.IdentityMapAtBoot | hal/x86/memory/paging.c:269-285 | from boot, every address up to a page past the final placement address maps to itself, in pages that are present, open to the user and not writeable; the directory has the address of every table it made, a whole page placed for it, none overlapping; this succeeds exactly when there are frames for all of that, so whenever memory reaches far enough behind the placement address |
| Paging.IdentityExactly | hal/x86/memory/paging.c:280-285 | successive allocations take frames 0, 1, 2 ... exactly when these were free |
| Paging.Pager.Kmalloc | hal/x86/memory/kheap.c:28-43 | where a placed request goes and where the next one starts |
| Paging.PlacementsDisjoint | hal/x86/memory/kheap.c:28-43 | placed requests never overlap, and aligned ones begin a page |
| Paging.PlacementsFollow | hal/x86/memory/kheap.c:28-43 | each placed range begins where the one before ended, or at the next page boundary above that if aligned |
| Paging.PhysAsWrittenExactly | hal/x86/memory/kheap.c:24-24 | the physical address as written is right exactly in frame 0 |
| Paging.FreeAsWrittenNeverFrees | hal/x86/memory/paging.c:132-132 | clearing by frame number frees the frame exactly when it is frame 0 |
| Paging.FreeAsWrittenGivesAwayFrameZero | hal/x86/memory/paging.c:132-132 | it frees frame 0 instead, which the next allocation hands out |
| Paging.Pager.ClonePage | hal/x86/memory/paging.c:394-411 | the copy has a fresh frame with the same contents and the same rw, accessed and dirty bits, and just that frame comes into use; fails exactly when none is free |
| Paging.Pager.AddFlags | hal/x86/memory/paging.c:401-405 | the flags the page has are added to the copy's; nothing else of the table changes |
| Paging.Pager.CopyPage | hal/x86/memory/paging.c:391-413 | one turn of the loop over the pages; fails exactly when there is a page to copy and no frame is free |
| Paging.Pager.CloneTable | hal/x86/memory/paging.c:382-414 | every page that holds a frame is copied so, all others stay empty, and exactly the frames of the copies come into use; fails exactly when there are fewer free frames than pages to copy |
| Paging.Pager.CloneDirectory | hal/x86/memory/paging.c:416-452 | kernel tables are shared, all others copied, frames in use before keep their contents, and exactly the frames of the copies come into use; copied tables are placed two pages apart behind the directory, and the clone has their addresses with the three low bits set; fails exactly when there are fewer free frames than pages to copy in all tables that are not the kernel's |
| Paging.Pager.ClonePlaced | hal/x86/memory/paging.c:441-448 | so each copied slot has the address of a whole page placed for its table, plus 7, no two of them overlap, and empty slots have 0 |
| Paging.Pager.CloneEntries | hal/x86/memory/paging.c:394-411 | the pages of a copied table field by field: the flags of the original, but that a page with a frame is always present and open to the user |
| Paging.Pager.CloneShowsTheSame | hal/x86/memory/paging.c:382-452 | each framed page shows the same through both directories: through the same entry in a kernel table, else through a frame free before |
| Paging.Pager.CopiedWritesUnseen | hal/x86/memory/paging.c:382-452 | a write through the clone to a copied page is seen at no page of the original and no other page of the clone |
| Paging.Pager.OriginalWritesUnseen | hal/x86/memory/paging.c:382-452 | a write through the original to a page of a copied table is seen at no page of the clone and no other page of the original |
| Paging.PlacedAt | hal/x86/memory/kheap.c:30-40 | the address is at most a page on, and on a boundary if aligned |
| Paging.Pager.EntryFor | hal/x86/memory/paging.c:283-283 | looking up the next page of the identity map disturbs no page mapped so far |
| Paging.Pager.CopySlot | hal/x86/memory/paging.c:443-449 | one slot gets a copied table; frames in use keep their contents, and exactly those of the copy come into use; fails exactly when there are fewer free frames than pages to copy |
| Paging.Pager.ShareSlot | hal/x86/memory/paging.c:437-442 | one slot gets the kernel's own table |
| Paging.Pager.CloneSlot | hal/x86/memory/paging.c:432-450 | one turn of the loop over the slots, with the addresses; fails exactly when the frames do not last for this slot |
| Paging.Pager.CloneCopied | hal/x86/memory/paging.c:443-449 | a slot whose table is not the kernel's: its copy, the frames it took and the address it was placed at |
| Paging.Pager.CloneSlots | hal/x86/memory/paging.c:432-450 | the loop over all slots; fails exactly when there were fewer free frames than all copies need |
| Packer.Pack | initrd/make_initrd.c:18-62 | the image holds count, records and contents of all files; fails exactly when a file is missing |
| Packer.ImageMeans | initrd/make_initrd.c:18-62 | an image byte by byte: the number of files, and for each the magic byte, the name from the command line, the offset and the length, with the file's bytes at that offset |
| Packer.FillRecords | initrd/make_initrd.c:23-41 | every record gets its file's name, offset and length |
| Packer.DataOrdered | initrd/make_initrd.c:23-38 | the files lie one behind the other |
| Packer.FileHolding | initrd/make_initrd.c:48-56 | every byte behind the records belongs to one file |
| Packer.FillRecord | initrd/make_initrd.c:28-40 | one record, and no other byte of the table |
| Initrd.Mount | kernel/initrd.c:192-260 | the mount loop makes one node per file and edits every offset, touching only the records |
| Initrd.MountFile | kernel/initrd.c:236-259 | one turn: the offset counts from address 0, the node has name, length and number |
| Initrd.Volume.constructor | kernel/initrd.c:192-260 | an image loaded at any address mounts to a volume with its names and files |
| Initrd.Volume.Read | kernel/initrd.c:132-146 | the buffer gets what the file has of the range and nothing else changes; eof tells whether the end was reached |
| Initrd.ClippedExactly | kernel/initrd.c:137-140 | the 32-bit clipping is right exactly when the end of the request does not wrap |
| Initrd.Volume.Write | kernel/initrd.c:148-159 | memory gets the bytes, the record does not change, and every file is what it was with the bytes that fell on it |
| Initrd.WriteInside | kernel/initrd.c:148-159 | a write within the length changes just those bytes of that file |
| Initrd.OverrunExactly | kernel/initrd.c:148-159 | when a longer write leaves all other files alone, whatever it writes |
| Initrd.Volume.WriteThenRead | kernel/initrd.c:132-159 | a read of the range just written, within the length, returns what was written; other bytes and files are as before |
| Initrd.Volume.ReadDir | kernel/initrd.c:161-177 | entry 0 of the root is "dev", entry k the k-th file, nothing beyond |
| Initrd.Volume.FindDir | kernel/initrd.c:179-190 | the first file of that name, nothing exactly when there is none, /dev before all in the root |
| Initrd.Volume.Open | kernel/jslk.c:25-44 | the chunks put together are exactly the file's bytes; the loop ends, with eof set unless the file is empty |
| Initrd.PackMountOpen | initrd/make_initrd.c:18-62 | packing, loading anywhere, mounting and printing a file by name gives the bytes that were on disk |
| CStrings.Strcmp | lib/jstdclib/string.c:75-81 | zero exactly for equal strings, else the difference of the first characters that differ |
| CStrings.HoldsOne | lib/jstdclib/string.c:3-8 | a buffer holds exactly one string |
| CStrings.Strlen | lib/jstdclib/string.c:3-8 | the length of the string |
| CStrings.Strcpy | lib/jstdclib/string.c:83-89 | copies the first byte and then up to the next zero, and no terminator |
| CStrings.StrcpyExactly | lib/jstdclib/string.c:83-89 | the copy is the string exactly when that is empty or the destination had a zero where it ends |
| Initrd.Memcpy | lib/jstdclib/string.c:92-98 | copies the range and nothing more |
| Interrupts.RunThenDispatch | hal/x86/interrupts/isr.c:44-227 | after any run of register and clear calls a vector runs exactly the handlers of its abstract machine, in order; one registered first and exclusively, and not cleared since, runs alone; nothing runs if nobody asked |
| Interrupts.ExclusiveRuns | hal/x86/interrupts/isr.c:165-182 | in any run, a handler registered exclusively when none ran runs, alone, until the vector is cleared, whatever else is registered |
| Interrupts.LastCall | hal/x86/interrupts/isr.c:80-227 | what the last call of any run changes about which handlers run: when it is accepted, where the new handler stands, what clearing leaves |
| Interrupts.FlagsMean | hal/x86/interrupts/isr.c:118-227 | after any run a vector is locked, or its chain kept, exactly when a registration that joined a chain asked for it, and protected exactly when it was taken exclusively and no chain was cleared directly since |
| Interrupts.RequestsMean | hal/x86/interrupts/isr.c:80-227 | what each call stands for |
| Interrupts.PlainRuns | hal/x86/interrupts/isr.c:80-203 | without direct calls of clearChainedInterrupt each vector is the plain machine, and no registration upgrades |
| Interrupts.NeverUpgradesExactly | hal/x86/interrupts/isr.c:127-141 | throughout a run no registration could upgrade exactly when every direct call of clearChainedInterrupt meets a vector that never was exclusive or is locked |
| Interrupts.UpgradeMeans | hal/x86/interrupts/isr.c:127-141 | what makes an upgrade possible |
| Interrupts.ClearedHandlerRuns | hal/x86/interrupts/isr.c:136-141 | a run after which a cleared handler runs again |
| Interrupts.AfterSound | hal/x86/interrupts/isr.c:80-227 | how mode and sticky flags go together after every run |
| Interrupts.FlagsStick | hal/x86/interrupts/isr.c:118-227 | locks, kept chains and protection last through any run, and what they rule out |
| Interrupts.LockedStep | hal/x86/interrupts/isr.c:127-133 | no chain on a locked vector grows |
| Interrupts.EnlistedIs | hal/x86/interrupts/isr.c:147-152 | a chain is what was registered since its byte last wrapped |
| Interrupts.ChainCompleteExactly | hal/x86/interrupts/isr.c:147-152 | it is complete and in order exactly up to 256 handlers |
| Interrupts.AfterEnlisting | hal/x86/interrupts/isr.c:118-164 | registering handlers for a chain on a new vector makes it that chain |
| Interrupts.ReadFlags | hal/x86/interrupts/isr.c:89-116 | the flags up to the end mark, six at most |
| Interrupts.TakenExactly | hal/x86/interrupts/isr.c:92-116 | all flags of a list are read exactly if there are at most six |
| Interrupts.FlagsAre | hal/x86/interrupts/isr.c:95-111 | 1 asks for a chain, 3 to keep it, 4 to lock it, if among the first six and in front of the end mark |
| Interrupts.Registry.RegisterHandler | hal/x86/interrupts/isr.c:80-185 | returns 0 exactly when the vector accepts; then it steps, others do not change; a number above the table is refused |
| Interrupts.Registry.StoreMember | hal/x86/interrupts/isr.c:134-152 | the handler goes behind the members of the chain, in the list that is kept |
| Interrupts.Registry.ClearInterrupt | hal/x86/interrupts/isr.c:190-203 | the vector steps, the result is always 0 |
| Interrupts.Registry.ClearChainedInterrupt | hal/x86/interrupts/isr.c:205-227 | refuses exactly a kept chain; else the vector steps and its list is emptied |
| Interrupts.Registry.Dispatch | hal/x86/interrupts/isr.c:44-65 | runs the members of the chain, or else the exclusive handler if there is one, or nothing |
| Interrupts.NoteFlag | hal/x86/interrupts/isr.c:95-111 | what one flag sets |
| Interrupts.Registry.JoinChain | hal/x86/interrupts/isr.c:118-164 | a chained registration is accepted or refused, and steps, as the machine says |
| Interrupts.Registry.TakeExclusive | hal/x86/interrupts/isr.c:165-182 | an exclusive registration is accepted or refused, and steps, as the machine says |
| Interrupts.Registry.RunChain | hal/x86/interrupts/isr.c:44-52 | the members of the chain, in order |
| Numbers.Itoa | lib/jstdclib/string.c:18-56 | the buffer holds the numeral, which NumeralMeans pins, and its terminator, and no other byte changes |
| Numbers.PutDigits | lib/jstdclib/string.c:34-41 | the digit loop leaves the digits reversed |
| Numbers.Reverse | lib/jstdclib/string.c:46-55 | the reversal in place |
| Numbers.NumeralMeans | lib/jstdclib/string.c:18-56 | the numeral is canonical and reads back as the number with 'd', and else as the one number of 32 bits that differs from it by a multiple of 2^32, in base 16 for 'x' and 10 for others |
| Numbers.DigitCharacter | lib/jstdclib/string.c:34-41 | the digits are 0 to 9 and a to f |
| Numbers.DigitsCanonical | lib/jstdclib/string.c:34-41 | the digits have no leading zero and read back as the number |
| Numbers.CanonicalUnique | lib/jstdclib/string.c:34-41 | there is no other such numeral |
| Numbers.DigitsLength | lib/jstdclib/string.c:34-41 | how many digits a number has |
| Numbers.NumeralLength | lib/jstdclib/string.c:18-56 | at most 12 bytes with the terminator |
| Numbers.SignLostExactly | hal/x86/io/vga.c:281-284 | the base kprintf passes prints what 'd' prints exactly for numbers that are not negative |
| Numbers.PrintDec | hal/x86/io/vga.c:199-226 | what is printed: the digits below 2^31, nothing above |
| Numbers.DecPrintersAgree | hal/x86/io/vga.c:199-226 | what kernelPrintDec prints is the string itoa leaves in its buffer for 'd' and the same 32 bits exactly below 2^31, and reads back as the number; above it prints nothing |
| Numbers.PrintHex | hal/x86/io/vga.c:228-265 | "0x" and the hexadecimal digits |
| Numbers.HexPrintersAgree | hal/x86/io/vga.c:228-265 | for every word, what kernelPrintHex prints is 0x and the string itoa leaves in its buffer for 'x' and the same 32 bits, which reads back as the word |
| Numbers.LastFirst | hal/x86/io/vga.c:207-216 | the digits of a positive number, the last first, with a terminator |
| Numbers.FlippedCopy | hal/x86/io/vga.c:218-224 | the copy the other way round is a terminated string |
| Numbers.HexDigit | hal/x86/io/vga.c:244-253 | one hexadecimal digit |
| Numbers.Kprint | hal/x86/io/vga.c:152-159 | prints the bytes up to the terminator |
| Console.Terminal.ClearAndPrint | hal/x86/io/vga.c:43-159 | after clearing, rows 1 to 24 show exactly the last 24 lines of the text wrapped at 80, the cursor behind them, the status bar as it was; when the clearing leaves the cursor, the text begins there |
| Console.Terminal.Print | hal/x86/io/vga.c:152-159 | the same for a text that continues another |
| Console.PutShows | hal/x86/io/vga.c:104-139 | one more character shows the text with that character |
| Console.PutMeans | hal/x86/io/vga.c:104-139 | kputc cell by cell: which one cell is written, where the cursor goes for every kind of character, and when and how the rows move |
| Console.ShowsMeans | hal/x86/io/vga.c:79-139 | what it means that the screen shows lines: the character and the colour of each cell |
| Console.LinesKeepText | hal/x86/io/vga.c:106-137 | the lines one behind the other are the text without newlines, and a line ends only at a newline or when it has 80 characters |
| Console.LinesTyped | hal/x86/io/vga.c:106-137 | wrapping a text with one more character types it at the end of the last line |
| Console.LinesShort | hal/x86/io/vga.c:133-137 | no line is longer than 80, and the last has room, so the cursor stays in bounds |
| Console.BlankShows | hal/x86/io/vga.c:44-58 | a blank screen whose cursor stayed shows just blanks up to it |
| Console.ScrolledShows | hal/x86/io/vga.c:79-91 | scrolling moves the window on by one line |
| Console.StatusBarExactly | hal/x86/io/vga.c:104-139 | which single case changes row 0 |
| Console.VgaByteInverse | hal/x86/io/vga.c:33-36 | a cell gives back its character, and its colour, or 0xFF if the character is negative |
| Console.Put | hal/x86/io/vga.c:104-139 | every character leaves the cursor on rows 1 to 24 and inside the screen |
| Console.Terminal.Kputc | hal/x86/io/vga.c:104-139 | all branches do in place what Put says |
| Console.Terminal.ScrollConsole | hal/x86/io/vga.c:79-91 | the two loops move all rows up and blank the last |
| Console.Terminal.ClearConsole | hal/x86/io/vga.c:44-58 | all rows but the status bar are blank; the cursor is reset exactly when the call count is not 0 modulo 256 |
| Console.Terminal.MoveUp | hal/x86/io/vga.c:83-85 | rows 2 to 24 move up by one |
| Console.Terminal.BlankLast | hal/x86/io/vga.c:86-88 | the last row is blank |

## Left out

- Heaps.Heap.Alloc: needs room in the index for the holes it may add, at most two, where the source writes past its index array; `RoomByLength` gives it for heaps of up to five megabytes. Its size with overhead does not wrap, nor does the sum of the new end, and an aligned request passes a signed comparison: on the other requests the source goes wrong (`NewSizeExactly`, `BoundCheckExactly`, `SignedFitExactly`, `WrappedRequestFits`, `WrappedEndPasses`, `SignedRequestFits`).
- Heaps.Heap.Free: a pointer whose tags are right but that is no live block, such as one freed before, is not covered; like alloc it needs a free slot in the index.
- Heaps.Heap.FreeBlock: the same free slot in the index.
- Heaps.Heap.Expand: the page tables of the pages it adds exist. The table that `get_page` would otherwise take from this same heap is a separate call of alloc in `NestedTableTilesExactly` and its companions, about one missing table whose own growth finds its tables; runs do not contain it.
- HeapPages.ExpandPages: stops at a page without a table, where the source would make one.
- HeapBacking.RunBacked: the frames of a call are taken or given back after the call instead of in its middle; nothing between reads them. Where the source makes a missing table or panics for want of a frame, the run stops.
- HeapTextRuns.TextRunSame: runs the text on segments and index. That the tags in memory agree with them is among the conditions of a step (`RightMergeFooterExactly`, `ProbePanicsExactly`) and not carried along byte by byte; tables are there, as in all runs.
- Heaps.Heap.UnmapPages: memory keeps its contents when a page is unmapped; the model never reads such a page before it is mapped again.
- Heaps.Heap.FooterBefore: the index is an array of its own, of which only the last two slots are also seen as the footer in front of the first segment.
- Heaps.Heap.constructor: the supervisor and read-only flags, and the allocation of the heap's own record, are not modelled.
- Paging.Pager.Kmalloc: the branch that serves requests from the heap once it exists is covered by the heap's own contracts; page tables and directories are placed by the placement allocator in this model, also when a directory is cloned.
- Paging.Pager.AllocFrame: the number of used frames is never updated by the source and so is a constant here.
- Paging.Pager.constructor: `start_pmm` with its memory map, which the boot never calls.
- Paging.Pager.CloneDirectory: every frame a page holds is taken to have contents; the copy itself, assembly code, is one update of physical memory.
- Initrd.Volume.Read: is given a request whose end is a 32-bit number whenever its start is within the file; `ClippedExactly` says that exactly these are clipped right.
- Initrd.Volume.Open: is not asked for "dev", whose node has no length; the prompt between chunks and the key press are not modelled.
- Packer.Pack: at most 64 files, names shorter than 64 characters and an image below 4 GiB, as the tool takes for granted; a file does not change between its two readings.
- Interrupts.Registry.Dispatch: yields the handlers that run, in order; what they do, and the null handler of a vector that was cleared, are outside.
- `irq_handler` and `findFreeInterrupt`: the first ignores chains, the second only searches.
- Interrupts.Registry.RegisterHandler: vector 47, which line 82 admits and which lies behind the end of both tables.
- Console.Terminal.ClearAndPrint: the first clearing of all, before which the cursor stands on the status bar.
- Console.Terminal.Kputc: the cursor is inside the screen, as every printing call leaves it; `backspace`, `rightArrow` and `mapXY` move it without checks.
- `kprintf` and `cprintf`: variable arguments and the scanning of formats; the printers they call are modelled.
- `kernel/vfs.c`: thin dispatch; the initrd volume is called directly.
- `kernel/sysfs.c`, `kernel/sched.*`, `kernel/elf`, `lib/j++`, `hal/x86/tasking/process.c`, `kernel/timer.c`: unfinished, tied to the raw stack, or easy.
- `kernel/heapclas.c`, `kernel/orderedArrayclas.c`, `initrd/make_initrd.1.c`, `hal/x86/memory/legacy`: variants that are not built.
- Page faults, port I/O, control registers, descriptor tables, drivers and the boot sequence: effects on hardware only.
