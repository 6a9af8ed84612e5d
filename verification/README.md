# mulle-storage, modelled and proved

mulle-storage hands out memory in three ways. `mulle_arena` is a bump allocator over a growing list
of pages, with a raw protocol (alignment chosen per call, no header) and an allocator protocol (fixed
alignment, the size in the word below each block, in-place growth and one-level undo of the last
block). `mulle_storage` and `mulle_indexedstorage` are fixed-size pools with a stack of freed slots.
The benchmark adds a rival pool, a free list threaded through dead nodes, and a random workload that
drives all of them.

This project models these programs and proves what holds over whole runs: which bytes belong to
whom, which bytes a call may change, how many pages and slots a run costs, and where the code does
less than it seems to.

## How it is built

| module | content |
|---|---|
| `Words` | bitwise AND and complement, the alignment mask, the bytes of a `size_t` |
| `Memory` | byte memory, memset, memcpy, strlen and the system allocator (class `Machine`) |
| `ArenaModel`, `ArenaState`, `ArenaBlocks` | the arena as a value, the client's bookkeeping, what stores leave alone |
| `RawRuns`, `RawTheorems` | raw calls: invariant, refinement of an abstract heap, page bound |
| `PageOrder`, `RawLaws`, `VtableLaws` | what each call answers, told by the fields alone: which page serves a request, when a block stays where it is, and that over runs |
| `Footprint` | which memory an arena holds: what a reset unmaps, and that nothing leaks over a run |
| `PageBound`, `VtablePages` | the accounting behind the page bounds, and the bound for the allocator protocol |
| `VtableRuns`, `VtableSteps`, `VtableHeaders`, `VtableSurvival` | allocator protocol, for any size: placement, headers, which bytes the next header overwrites |
| `VtableContents`, `VtableTheorems` | allocator protocol: contents, refinement of an abstract realloc heap, alignment, churn |
| `Neighbours` | any number of arenas on one machine |
| `Arena`, `Drivers` | `MulleArena`, the mutable object, proved equal to the value model call by call and run by run |
| `Pools` | the pools as one value model: partition, peak, trace |
| `Storage`, `IndexedStorage`, `FreeList`, `Nodes` | the mutable pools, the heap-shaped free list, the nodes |
| `Workload`, `Bench` | the schedule of the random workload, and the workload itself over any of the allocators |
| `Lockstep` | the pools driven side by side |

An address is a natural number, NULL is 0, and memory is a map from addresses to bytes; touching an
address outside the map cannot be verified, so accesses to pages given back are excluded. S stands for
`sizeof(size_t)` and A for the default alignment; every statement is for all S and A that are powers of
two with S <= A. The address the system answers for a new page is a parameter (`base`), constrained only
to be aligned, unmapped, non-null and not at the very top of memory, so statements hold for every placement.
Methods of `MulleArena` change its fields in the order the C code does and are specified by the functions
of the value model; the theorems are about those functions and their runs. Some C functions are
split into several methods where a step needs a specification of its own.

A raw run is a sequence of alloc, calloc, realloc, memdup, strdup, client stores and resets; a vtable run one of
calloc, reallocarray, free, client stores and resets. Resets keep any number of pages. At any point of a
run other programs and other arenas may map, unmap and change memory outside the arena's pages. Sizes
are arbitrary; the one thing asked of a vtable run beyond the arguments of its calls is that every copy of a
reallocarray is a defined memcpy, from mapped memory apart from the new block. It is as long as no client store
has hit a header, and may be even then.

A vtable block has a safe end if it ends at an address `e` with `1 <= e mod A <= A - S`; for a block that starts
aligned this is a condition on its size. The intact bytes of a block are those below the place of the next
header; for a safe end they are all its bytes.

## What the proofs found

- The next header after a vtable block starts at `align(end, A) - S`. It lies above the block exactly when the
  end is safe. Otherwise the header covers exactly the bytes that are not intact (`HeaderFrame`, `MeetsIffUnsafe`): what
  the client stored there is lost to the next block (`SurvivesIffIntact`), what it stores there later may falsify
  that block's header (`HeaderTrueIffIntact`), and a reallocarray of that block may then read beyond it
  (`CopyInsideIff`). A raw call may start in such bytes (`RawMeetsVtable`). Two 16-byte blocks with A = 16 and S = 8 are an instance; where S = A, no size is
  safe (`SafeSizesAreExact`, `CopyEscapes`, `MixingMeets`).
- For arbitrary sizes addresses stay disjoint, headers never meet each other (`VSpatialSafety`), intact bytes
  survive (`VBystanderSurvives`), and headers stay true unless a client stores into one (`VRunHeaders`). With
  safe ends whole contents survive (`VRunRefines`).
- After a reset that keeps a page the first vtable block, if it fits the page, starts one word into it (`KeptPageAlignment`); such a block is
  the only one not aligned to A, and only where S < A (`VAlignmentExact`).
- realloc on the in-place path ignores the requested alignment (`ReallocAlignment`, `ReallocMisaligns`).
- The repository's README.md:44-46 and the comment at src/mulle-arena.h:60 call free a no-op; the code gives the last block's
  space back, and the model follows the code (`ChurnIsFree`). asset/dox/api/toc/index.md:17 calls the order of reuse FIFO; the
  code pops what it pushed last (`GiveThenTake`).
- An arena leaks nothing: until others touch memory, what is mapped is what was mapped before it and its outstanding pages
  (`RawMappedExactly`, `VMappedExactly`), and kept pages are used up in order before any is opened (`KeptPagesFirst`).
- An index of 2^32 - 1 would be stacked as NULL by `mulle_indexedstorage`; every smaller one comes
  back unchanged (`EncodingIsExact`).

## Model

| member | source | states |
|---|---|---|
| `Words.AlignWordIsAlignUp` | src/mulle-arena.h:82-89 | adding the mask, wrapping and clearing the mask is the least multiple at or above the pointer, modulo the word size, for every pointer and every power-of-two alignment |
| `Words.AlignUpIsLeast` | src/mulle-arena.h:82-89 | the rounded address is a multiple of the alignment, and no multiple at or above the pointer is smaller |
| `Words.AlignedIsDivisible` | src/mulle-arena.h:306 | being reached from 0 in steps of the alignment is the same as leaving no remainder |
| `Words.BitTestIsPowerOfTwo` | src/mulle-arena.h:306 | `a & (a-1) == 0` accepts exactly the powers of two among positive numbers |
| `Words.DecodeEncode` | src/mulle-arena.h:511 | a size that fits the header word is read back unchanged |
| `Memory.Machine.Memset` | src/mulle-arena.h:341 | the byte loop stores exactly n copies at p and nothing elsewhere |
| `Memory.Machine.Memcpy` | src/mulle-arena.h:383 | the forward byte loop stores the old bytes of the source at the destination, for ranges that do not overlap |
| `Memory.Machine.Strlen` | src/mulle-arena.h:423 | the position of the first zero byte |
| `ArenaState.NewPageOpens` | src/mulle-arena.h:97-131 | recycled, fresh or oversize, one new page has room for the request from an aligned start, and the page index strictly grows |
| `ArenaState.NewPagePages` | src/mulle-arena.h:97-131 | opening a page keeps the list sound: disjoint, mapped, aligned pages, none shorter than the page size, and no outstanding page unlisted |
| `ArenaState.NewPageKeeps` | src/mulle-arena.h:111-126 | opening a page changes no mapped byte and no page's extent |
| `ArenaState.NewPageIsZero` | src/mulle-arena.h:111-130 | usable memory that was never granted still reads zero on the page just opened and on the pages to come |
| `ArenaState.PagesAccounted` | src/mulle-arena.h:124-126 | the outstanding system pages are exactly the listed ones, none listed twice |
| `ArenaState.ResetPages` | src/mulle-arena.h:197-249 | a reset gives back exactly the pages after the first min(k, n) (their bytes: `ResetUnmaps`), keeps the others in order and size, forgets the last block and puts the cursor on the first page |
| `ArenaState.ResetIsZero` | src/mulle-arena.h:223-241 | after a reset every usable byte of every kept page reads zero, oversize pages up to the page size |
| `ArenaState.KeepCountIsCeiling` | src/mulle-arena.h:259-271 | the percentage form keeps the ceiling of its share, all pages from 100 percent on, never more than there are |
| `RawRuns.AllocFits` | src/mulle-arena.h:297-321 | after the page decision the block fits without a second check, aligned, at or above the old cursor on the same page |
| `RawRuns.AllocApart` | src/mulle-arena.h:297-321 | a new block shares no byte with any live block and lies above those of its page |
| `RawRuns.RawAllocInv` | src/mulle-arena.h:297-321 | allocation keeps the raw invariant: placement, separation, last block on top, untouched memory zero |
| `RawRuns.RawAllocContents` | src/mulle-arena.h:297-321 | allocation changes the contents of no live block |
| `RawRuns.ResizedApart` | src/mulle-arena.h:370-379 | growing the last block up to the sentinel reaches no other live block |
| `RawRuns.RawReallocInv` | src/mulle-arena.h:357-385 | both paths of realloc keep the raw invariant |
| `RawRuns.RawReallocContents` | src/mulle-arena.h:357-385 | both paths keep the first min(old, new) bytes and every other block |
| `RawRuns.ReallocAlignment` | src/mulle-arena.h:370-382 | the result has the requested alignment unless the block is extended in place from a start that has not |
| `RawTheorems.ReallocMisaligns` | src/mulle-arena.h:370-379 | a reachable state, on every platform and for every first page, in which the in-place path answers an odd address to a request aligned to two |
| `RawRuns.SourceApart` | src/mulle-arena.h:397-407 | foreign memory or part of a live block stays readable, unchanged and apart from the copy |
| `RawRuns.RawStepInv` | src/mulle-arena.h:197-425 | every raw call, client store, reset and change of memory elsewhere keeps the raw invariant |
| `RawRuns.RawStepRefines` | src/mulle-arena.h:197-425 | every raw step is a step of an abstract heap that knows no pages, cursor or memory |
| `RawTheorems.RawRunRefines` | src/mulle-arena.h:197-425 | at every point of any run of raw calls, client stores and resets, live blocks hold what the abstract heap says |
| `RawTheorems.RawRunInv` | src/mulle-arena.h:197-425 | the raw invariant holds at every point of any run |
| `RawTheorems.BystanderSurvives` | src/mulle-arena.h:297-425 | in any run of an arena, a live block that no operation names stays live and keeps all its bytes, whatever else happens on the machine |
| `RawTheorems.RawSpatialSafety` | src/mulle-arena.h:297-385 | in every reachable state live blocks are aligned, inside one outstanding page, mapped, and pairwise disjoint |
| `RawTheorems.RawFastPathSound` | src/mulle-arena.h:370-379 | in every reachable state the block matching the last allocation is on the current page, and nothing live lies between its start and the sentinel |
| `RawTheorems.RawPagesConserved` | src/mulle-arena.h:97-271 | in every reachable state outstanding pages and listed pages are the same, without duplicates |
| `RawTheorems.FirstGrantIsZero` | src/mulle-arena.h:111-130 | in every reachable state, a byte handed out for the first time since the last reset reads zero even from plain alloc |
| `RawTheorems.NextFitBoundFrom` | src/mulle-arena.h:97-131 | from any state, such as one after a reset that keeps k pages, m more pages imply requests (size + alignment - 1, oversize and realloc included) of at least floor(m/2) * (page size + 1), for any page placement, in runs whose further resets keep nothing |
| `RawTheorems.NextFitBound` | src/mulle-arena.h:97-131 | the same from an initialised arena, counting all pages |
| `PageBound.PairBoundIsProduct` | src/mulle-arena.h:97-131 | the bound on m pages, counted pair by pair, is floor(m/2) * (paid + 1), where raw requests pay for the page size |
| `PageBound.OpenPaired` | src/mulle-arena.h:97-131 | opening a page, kept or new, keeps the account if the demand on it and on the page before exceeds what a page is paid for |
| `RawTheorems.TwoPagesExceed` | src/mulle-arena.h:308-316 | when a block does not fit the rest of its page, the bytes used of that page and the bytes it may ask of the next exceed the page size |
| `RawTheorems.AllocPaired` | src/mulle-arena.h:308-316 | an allocation keeps the account of the requests: pages beyond the first k, paired in order, are each pair paid for by more than a page size |
| `RawLaws.AllocInPage` | src/mulle-arena.h:308-320 | if some aligned place for the block lies between cursor and sentinel, the first one from the cursor on is answered, and only cursor and last block move |
| `RawLaws.AllocOnKeptPage` | src/mulle-arena.h:111-119 | if not, but a kept page is next in line and size + alignment - 1 is at most the page size, the first aligned place of that very page is answered: the index grows by one, the page ends after page-size bytes, and page list, system pages and memory stay |
| `RawLaws.AllocOnNewPage` | src/mulle-arena.h:121-130 | otherwise one system page of the larger of page size and size + alignment - 1 bytes joins the end of the list, zeroed, no other byte changes, and the first aligned place on it is answered |
| `RawLaws.FirstPage` | src/mulle-arena.h:145-166 | the first page of an initialised arena has the page size asked for, 4096 for 0, or what a larger request needs |
| `RawLaws.AnswersLikeAlloc` | src/mulle-arena.h:333-425 | calloc, memdup, strdup, and realloc of NULL, of a block that is not the last, or past the sentinel, answer what alloc answers with their size and alignment, a block that was not live, and leave fields and system pages as alloc does |
| `RawLaws.ReallocInPlace` | src/mulle-arena.h:371-378 | realloc of the last block to an end at or below the sentinel answers the block, puts the cursor on its new end, and leaves last block, pages and memory alone |
| `RawLaws.ReallocMoves` | src/mulle-arena.h:371-384 | realloc answers the block itself exactly when it is the last one and its new end is at or below the sentinel |
| `RawLaws.GrowthInPlace` | src/mulle-arena.h:371-378 | any number of reallocs of the last block that end at or below the sentinel, whatever clients store in between, answer one address, keep it the last block and open no page |
| `RawLaws.KeptPagesFirst` | src/mulle-arena.h:111-118 | in a run without resets whose requests fit the page size, from any state such as one after a reset that keeps k pages: every step stays on its page or takes the next of the list, and until the index has passed all pages there were, no page is opened and none changes hands |
| `VtablePages.VNextFitBoundFrom` | src/mulle-arena.h:491-609 | for protocol runs, from any state and for arbitrary sizes: m more pages imply requests whose sizes, rounded up to A, add up to at least floor(m/2) * (page size - A + 1), for any page placement and whatever is freed, resized or moved, in runs whose further resets keep nothing |
| `VtablePages.VNextFitBound` | src/mulle-arena.h:491-609 | the same from an initialised arena, counting all pages |
| `VtablePages.VTwoPagesExceed` | src/mulle-arena.h:498-509 | when header and block do not fit the rest of a page, the requests it took and the block together exceed the page size less A |
| `VtablePages.BlockAdvances` | src/mulle-arena.h:512-513 | a block moves the place of the next block by no more than its rounded size, counted from the aligned start of the page |
| `VtableLaws.AllocInPage` | src/mulle-arena.h:498-515 | if a word and the block fit between cursor and sentinel, the block lies one word above the cursor, the header below it holds the size, no other byte differs, the cursor goes a word below the first aligned address from its end on, and no page changes |
| `VtableLaws.AllocOnKeptPage` | src/mulle-arena.h:502-515 | if not, but a kept page is next in line and size + A is at most the page size, the block lies a whole alignment into that very page; no system page is opened |
| `VtableLaws.AllocOnNewPage` | src/mulle-arena.h:502-515 | otherwise one system page of the larger of page size and size + A bytes joins the list, and the block lies a whole alignment into it |
| `VtableLaws.FirstPage` | src/mulle-arena.h:145-166 | the same from an initialised arena, with 4096 for a page size of 0 |
| `VtableLaws.ReallocInPlace` | src/mulle-arena.h:551-561 | reallocarray of the last block to an end at or below the sentinel answers the block: the header holds the new size, no other byte differs, the cursor follows the new end, and last block and pages stay |
| `VtableLaws.AnswersLikeMalloc` | src/mulle-arena.h:564-585 | calloc, and reallocarray of NULL, of a block that is not the last, or past the sentinel, answer what malloc answers, a block that was not live, and leave fields and system pages as malloc does |
| `VtableLaws.ReallocMoves` | src/mulle-arena.h:551-567 | reallocarray answers the block itself exactly when it is the last one and its new end is at or below the sentinel |
| `VtableLaws.GrowthInPlace` | src/mulle-arena.h:551-561 | any number of reallocarrays of the last block that end at or below the sentinel answer one address, keep it the last block and open no page |
| `VtableLaws.FreeUndoes` | src/mulle-arena.h:588-609 | free of the last block puts the cursor on its header and forgets it; free of any other block or of NULL changes neither fields nor memory |
| `VtableLaws.FreeThenMalloc` | src/mulle-arena.h:599-607 | however often the last block was resized, a malloc after its free that fits the page answers it again |
| `VtableLaws.KeptPagesFirst` | src/mulle-arena.h:111-118 | in a protocol run without resets whose requests plus A fit the page size, from any state: every step stays on its page or takes the next of the list, and until the index has passed all pages there were, no page is opened and none changes hands |
| `Footprint.ResetUnmaps` | src/mulle-arena.h:210-240 | after a reset every byte of the pages from min(k, n) on is unmapped, every other byte is mapped as before, the first page-size bytes of each kept page are zero, and no other byte differs |
| `Footprint.ResetFields` | src/mulle-arena.h:197-249 | the kept pages stay in order, the cursor is at the start of the first, NULL if there is none, no block is the last, and an arena without pages stays as it is |
| `Footprint.RawStepNoLeak` | src/mulle-arena.h:197-425 | after any raw call, client store or reset, every mapped byte lies in a page of the arena or was mapped outside its pages before |
| `Footprint.VStepNoLeak` | src/mulle-arena.h:491-609 | the same of protocol calls, for arbitrary sizes |
| `Footprint.RawMappedExactly` | src/mulle-arena.h:97-425 | as long as nobody else touches memory, the mapped addresses are at every point of a raw run exactly those mapped at the start and those of the outstanding pages, disjoint from them, and the former hold what they held |
| `Footprint.VMappedExactly` | src/mulle-arena.h:97-609 | the same for protocol runs, for arbitrary sizes and all resets |
| `VtableRuns.PlaceFits` | src/mulle-arena.h:498-509 | after the page decision header and block fit, the block starts aligned or one word into the first page, even if the cursor had passed the sentinel or a reset had kept the page |
| `VtableRuns.VAllocAbove` | src/mulle-arena.h:491-516 | a new block starts at or above the rounded end of every block of its page; with its header it is apart from blocks on other pages |
| `VtableRuns.VAllocInv` | src/mulle-arena.h:491-516 | allocation keeps the spatial invariant for every size |
| `VtableRuns.VResizedInv` | src/mulle-arena.h:551-562 | growing or shrinking the last block in place keeps the spatial invariant |
| `VtableRuns.VFreeInv` | src/mulle-arena.h:588-609 | freeing the last block, another one or NULL keeps the spatial invariant |
| `VtableRuns.VResetInv` | src/mulle-arena.h:197-249 | a reset keeps the spatial invariant whatever the number of pages it keeps |
| `VtableRuns.StartIsWordAligned` | src/mulle-arena.h:505-511 | every block, and so every header, starts at a multiple of S |
| `VtableHeaders.TailRoom` | src/mulle-arena.h:512-513 | a whole header fits between a block's end and the next aligned address exactly for the safe ends |
| `VtableHeaders.HeaderFrame` | src/mulle-arena.h:498-515 | an allocation of any size changes mapped memory only in its header, which covers of a live block exactly the bytes that are not intact if the new block follows that block on its page, and nothing otherwise |
| `VtableHeaders.MeetsIffUnsafe` | src/mulle-arena.h:498-515 | the header meets a live block exactly when the new block follows it and its end is not safe |
| `VtableHeaders.ExtentsApart` | src/mulle-arena.h:498-515 | for arbitrary sizes a live header meets no other live header and no intact byte of another block |
| `VtableContents.SafeExtents` | src/mulle-arena.h:511-514 | if all ends are safe, the ranges of header and body of live blocks are pairwise disjoint |
| `VtableHeaders.NewHeaderTrue` | src/mulle-arena.h:511 | the header of a new block reads back the size |
| `VtableHeaders.StepKeepsIntact` | src/mulle-arena.h:491-609 | for arbitrary sizes of all blocks, a step that does not name a block keeps its intact bytes |
| `VtableHeaders.StepKeepsHeaders` | src/mulle-arena.h:491-609 | for arbitrary sizes, every step keeps all headers true, except a client store into one |
| `VtableSteps.VReallocInv` | src/mulle-arena.h:527-568 | every reallocarray with a defined copy keeps the spatial invariant, for arbitrary sizes, even where a raised header takes the copy beyond the old block |
| `VtableSteps.InsideIsDefined` | src/mulle-arena.h:564-566 | a copy that reads the old block only is a defined one: from mapped memory, apart from the new block |
| `VtableSteps.VStepInv` | src/mulle-arena.h:491-609 | every protocol call, client store, reset and change of memory elsewhere keeps the spatial invariant, for arbitrary sizes |
| `VtableContents.ReallocPrefix` | src/mulle-arena.h:527-568 | for arbitrary sizes, both paths keep the intact part of the common prefix of a block whose own header is true |
| `VtableContents.VReallocContents` | src/mulle-arena.h:527-568 | with safe ends both paths keep the whole common prefix and every other block |
| `VtableContents.FreeRefines` | src/mulle-arena.h:588-609 | free removes that block from what clients see and nothing else, for arbitrary sizes |
| `VtableContents.StepKeepsBlock` | src/mulle-arena.h:491-609 | a block with a safe end keeps all its bytes through every step that does not name it, whatever the sizes of the others |
| `VtableContents.StepSafe` | src/mulle-arena.h:491-609 | a step that answers a block with a safe end keeps all ends safe and all headers true |
| `VtableContents.VStepRefines` | src/mulle-arena.h:491-609 | with safe ends every protocol call is a step of an abstract realloc heap |
| `VtableTheorems.VRunInv` | src/mulle-arena.h:491-609 | for arbitrary sizes and all resets, the spatial invariant holds at every point of any run whose copies are defined |
| `VtableTheorems.VRunHeaders` | src/mulle-arena.h:511-566 | for arbitrary sizes and all resets: as long as clients store into no header, all headers are true at every point, and every copy is defined and reads the old block only |
| `VtableTheorems.VRunSafe` | src/mulle-arena.h:511-566 | if the blocks answered end safely, at every point of any run every live header holds its block's true size, and every copy is defined and reads the old block only |
| `VtableTheorems.VRunRefines` | src/mulle-arena.h:491-609 | if the blocks answered end safely, at every point of any run, whatever its resets keep, contents are those of an abstract realloc heap |
| `VtableTheorems.SafeSizesRefine` | src/mulle-arena.h:491-609 | the same from an initialised arena for every run whose sizes n satisfy 1 <= n mod A <= A - S and whose resets keep nothing |
| `VtableTheorems.VBystanderSurvives` | src/mulle-arena.h:491-609 | in any run, for arbitrary sizes of all blocks, a live block that no call names stays where it is and keeps its intact bytes, all its bytes if its end is safe |
| `VtableTheorems.VSpatialSafety` | src/mulle-arena.h:491-609 | for arbitrary sizes and all resets, in every reachable state blocks are aligned to S, pairwise disjoint, and inside one outstanding page with their headers; headers meet neither each other nor intact bytes |
| `VtableTheorems.VRunAligned` | src/mulle-arena.h:491-609 | for arbitrary sizes, in runs whose resets keep nothing every live block is aligned to A |
| `VtableTheorems.VAlignmentExact` | src/mulle-arena.h:236-241 | for arbitrary sizes and all resets, a live block is aligned to A unless it starts one word into the first page and S < A |
| `VtableTheorems.VFastPathSound` | src/mulle-arena.h:551-562 | for arbitrary sizes and all resets, nothing else live lies between the start of the last block and the sentinel, which is inside its page |
| `VtableTheorems.VPagesConserved` | src/mulle-arena.h:97-271 | in every reachable state, for all resets, outstanding pages and listed pages are the same, without duplicates |
| `VtableTheorems.VFirstGrantIsZero` | src/mulle-arena.h:111-130 | bytes neither handed out nor used as a header since the last reset read zero when malloc hands them out, on fresh, recycled and kept oversize pages |
| `VtableSurvival.SurvivesIffIntact` | src/mulle-arena.h:511-513 | from any state, for every byte: what a client stores there survives the allocation of the block that follows, for every value, exactly when the byte is intact |
| `VtableSurvival.HeaderTrueIffIntact` | src/mulle-arena.h:511-548 | from any state, for every byte of a block: the header of the block that follows stays true, whatever is stored there, exactly when the byte is intact |
| `VtableSurvival.StoreKeepsHeadersIff` | src/mulle-arena.h:548 | from a state with true headers a client store keeps them true, for every value, exactly when it lands in no live header |
| `VtableSurvival.CopyInsideIff` | src/mulle-arena.h:548-566 | the copy of a growing reallocarray that moves the block that follows stays inside it, for every value stored in a byte below, exactly when that byte is intact or the header byte it shares is 255 |
| `VtableSurvival.RawMeetsVtable` | src/mulle-arena.h:308-319 | a raw allocation on the page of the last vtable block starts inside that block exactly when the cursor has the requested alignment and the block's end is not safe |
| `VtableSurvival.MixingMeets` | src/mulle-arena.h:308-319 | from an initialised arena, a raw byte allocated after a block of n bytes lies inside that block exactly when n is not a safe size |
| `VtableSurvival.SafeSizesAreExact` | src/mulle-arena.h:498-548 | for every size, from an initialised arena: the second allocation spares the first block, and the first block's client cannot falsify the second header, exactly when the size is safe |
| `VtableSurvival.CopyEscapes` | src/mulle-arena.h:548-566 | for every unsafe size, from an initialised arena: a store into the last byte of the first block makes a reallocarray of the second, below 255 bytes, read beyond it |
| `VtableTheorems.FreeThenAlloc` | src/mulle-arena.h:599-607 | after malloc and free, malloc answers the same address and free leads back to the same state |
| `VtableTheorems.ChurnIsFree` | src/mulle-arena.h:588-609 | any number of malloc and free rounds answer one address, open at most one page and keep the live blocks |
| `VtableTheorems.FreeIsIdempotent` | src/mulle-arena.h:594-608 | freeing twice is freeing once, and freeing a block that is not last changes neither arena nor memory |
| `VtableTheorems.KeptPageAlignment` | src/mulle-arena.h:236-241 | after a reset that keeps a page, the first block lies one word into it if it fits and on a page of its own if not; it is aligned exactly when it does not fit or S = A |
| `Arena.MulleArena.constructor` | src/mulle-arena.h:145-166 | no pages, NULL cursor, page size 4096 for 0; both invariants hold, whatever else is on the machine |
| `Arena.MulleArena.AlignPointer` | src/mulle-arena.h:82-89 | the mask computation answers the least multiple when the sum does not wrap |
| `Arena.MulleArena.NewPage` | src/mulle-arena.h:97-131 | the fields and memory after opening a page, kept or new, are those of the value model, which `RawLaws.AllocOnKeptPage`, `AllocOnNewPage` and `KeptPagesFirst` pin |
| `Arena.MulleArena.Done` | src/mulle-arena.h:175-186 | none is outstanding, exactly the bytes of the pages are unmapped, and no other byte differs |
| `Arena.MulleArena.ResetKeepPages` | src/mulle-arena.h:197-249 | the loops that free, clear and relist pages give the reset of the value model, whose memory and fields `ResetUnmaps` and `ResetFields` pin |
| `Arena.MulleArena.ResetKeepPercentage` | src/mulle-arena.h:259-271 | a reset that keeps the computed share |
| `Arena.MulleArena.Alloc` | src/mulle-arena.h:297-321 | result and new state are those of the value model, and the raw invariant holds |
| `Arena.MulleArena.Calloc` | src/mulle-arena.h:333-343 | the same, with the block cleared |
| `Arena.MulleArena.Realloc` | src/mulle-arena.h:357-385 | in place, or allocate, copy and abandon, as in the value model: `RawLaws.ReallocInPlace`, `ReallocMoves` and `AnswersLikeAlloc` say when and where |
| `Arena.MulleArena.Memdup` | src/mulle-arena.h:397-407 | a new block holding the source's bytes |
| `Arena.MulleArena.Strdup` | src/mulle-arena.h:418-425 | a new block holding the string and its terminator |
| `Arena.MulleArena.AllocWithSizeHeader` | src/mulle-arena.h:491-516 | result, header and cursor are those of the value model, for every size |
| `Arena.MulleArena.ReallocarrayV` | src/mulle-arena.h:527-568 | for every size, result and new state are those of the value model (`VtableLaws.ReallocInPlace`, `ReallocMoves`); true headers stay true, and a safe end keeps all ends safe |
| `Arena.MulleArena.CallocV` | src/mulle-arena.h:571-585 | a cleared block with its header, for every size |
| `Arena.MulleArena.FreeV` | src/mulle-arena.h:588-609 | undo of the last allocation, or nothing |
| `Drivers.RawDrive` | src/mulle-arena.h:197-425 | an arena object follows any raw run that starts in its state: same pointers returned, same final state |
| `Drivers.VDrive` | src/mulle-arena.h:491-609 | the same for any protocol run whose copies are defined: any sizes, any resets |
| `Drivers.SharedDrive` | src/mulle-arena.h:97-126 | any number of arena objects on one machine, each used raw or through the protocol, follow any interleaved run |
| `Neighbours.RawStepConfined` | src/mulle-arena.h:105-126 | a raw call changes mapped memory in the arena's own pages only, and new pages come from unmapped memory |
| `Neighbours.VStepConfined` | src/mulle-arena.h:105-126 | the same of protocol calls, for arbitrary sizes |
| `Neighbours.ConfinedIsElsewhere` | src/mulle-arena.h:105-126 | what one arena does leaves the pages of another as they are, and pages of the two never meet |
| `Neighbours.TurnTogether` | src/mulle-arena.h:105-126 | a call on one of any number of arenas leaves the pages of all others as they are, and all invariants and the separation of pages intact |
| `Neighbours.SharedRuns` | src/mulle-arena.h:105-126 | of any number of arenas that share the default allocator, some raw and some not, used in any order, each has a run of its own, so every theorem on runs holds of each |
| `Neighbours.SharedReachable` | src/mulle-arena.h:105-166 | from initialised arenas of any page sizes, each is at the end of any interleaved run in a state reachable by itself |
| `Neighbours.FreshTogether` | src/mulle-arena.h:145-166 | initialised arenas, any number and any page sizes, meet the assumption of the theorems on shared runs |
| `Neighbours.SharedBlocksApart` | src/mulle-arena.h:105-126 | at every point no block of one arena, with its header, meets a block of another |
| `Pools.TakeIsNew` | src/mulle-storage.h:135-145 | a slot handed out was not live, is live afterwards, and nothing else changes |
| `Pools.GiveFrees` | src/mulle-storage.h:171-185 | freeing a live slot removes just it, and freed entries stay distinct |
| `Pools.GiveThenTake` | src/mulle-storage.h:141-143 | the slot freed last is handed out next and the pool is as before |
| `Pools.CountIsLive` | src/mulle-storage.h:236-242 | reserved minus freed is the number of live slots |
| `Pools.RunPartitions` | src/mulle-storage.h:135-185 | after any run freed entries are distinct, live and freed slots partition the reserved ones, and the count is the number of live ones |
| `Pools.ReservedIsPeak` | src/mulle-storage.h:135-185 | the slots ever reserved by a run are its peak live count |
| `Pools.TraceBelowPeak` | src/mulle-indexedstorage.h:103-147 | every index handed out along a run is below its peak live count |
| `Storage.MulleStorage.Malloc` | src/mulle-storage.h:135-145 | the slot of the value model; older slots keep their addresses |
| `Storage.MulleStorage.Calloc` | src/mulle-storage.h:154-163 | a zeroed node; no other node changes |
| `Storage.MulleStorage.Copy` | src/mulle-storage.h:194-203 | a node with the original's contents; no other node changes |
| `Storage.MulleStorage.Free` | src/mulle-storage.h:171-185 | the slot is pushed on the freed stack |
| `Storage.MulleStorage.GetCount` | src/mulle-storage.h:236-242 | the number of live nodes |
| `IndexedStorage.EncodingIsExact` | src/mulle-indexedstorage.h:113-135 | index + 1 on 32 bits is never NULL, and decodes to the index, exactly below 2^32 - 1 |
| `IndexedStorage.MulleIndexedStorage.Alloc` | src/mulle-indexedstorage.h:103-120 | the slot of the same value model as mulle_storage; a key that was not in the index-to-value map joins it, and other entries keep their values |
| `IndexedStorage.MulleIndexedStorage.Free` | src/mulle-indexedstorage.h:128-147 | the key leaves the map |
| `IndexedStorage.MulleIndexedStorage.Get` | src/mulle-indexedstorage.h:156-164 | the value of a live index |
| `IndexedStorage.MulleIndexedStorage.Put` | src/mulle-indexedstorage.h:156-164 | a client store through the address of a live index changes the map there and nowhere else |
| `IndexedStorage.MulleIndexedStorage.GetCount` | src/mulle-indexedstorage.h:197-203 | the size of the map |
| `FreeList.NodeFreeList.Alloc` | test/30-benchmark/benchmark.c:317-343 | the slot of the same value model, initialised; no other node changes, and the list stays linked |
| `FreeList.NodeFreeList.Free` | test/30-benchmark/benchmark.c:346-353 | the node becomes the head of the list; the slot is freed in the value model |
| `FreeList.NodeFreeList.Grow` | test/30-benchmark/benchmark.c:331-337 | room for one more entry, capacity doubled or 1024, entries kept |
| `FreeList.NodeFreeList.WalkIsFreed` | test/30-benchmark/benchmark.c:320-352 | following links from the head meets exactly the freed nodes, last freed first, and ends |
| `FreeList.NodeFreeList.Teardown` | test/30-benchmark/benchmark.c:356-367 | every block is given back to the system exactly once |
| `Nodes.Node.Init` | test/30-benchmark/benchmark.c:165-170 | magic, serial number and pattern |
| `Nodes.Node.Check` | test/30-benchmark/benchmark.c:173-183 | answers true exactly for a node that holds what Init stored |
| `Nodes.HoldsIsImage` | test/30-benchmark/benchmark.c:165-183 | a node passes the check exactly when magic, serial number and every pattern byte are what initialising stores |
| `Bench.OpsAlloc` | test/30-benchmark/benchmark.c:192-201 | malloc, free list and storage alike: the node was not live, is initialised, and live nodes are unchanged; malloc counts one call, a pool takes the slot of the value model and answers its node |
| `Bench.OpsFree` | test/30-benchmark/benchmark.c:192-201 | for each allocator the node stops being live, and other live nodes are unchanged; malloc counts one call, a pool gets back the slot of that node |
| `Bench.OpsLiveCount` | test/30-benchmark/benchmark.c:290-293 | for each allocator the counter is the number of live nodes |
| `Bench.SwapRemovedLists` | test/30-benchmark/benchmark.c:625-627 | filling a place with the last entry keeps the tracking arrays a list of all live nodes, each once |
| `Workload.PassBalances` | test/30-benchmark/benchmark.c:611-644 | for every generator the schedule has n turns and then frees what is left: it frees only places in use, never tracks more than 4096 nodes, and frees as many nodes as it allocates, at least one if n > 0 |
| `Workload.BooksArePoolRun` | test/30-benchmark/benchmark.c:611-644 | carried out on a pool, any acts that free only places in use are a legal run of takes and gives, in which no slot is freed twice and the tracked slots stay live and distinct |
| `Bench.CheckAndFree` | test/30-benchmark/benchmark.c:622-628 | whatever the node holds, the answer is that of the check of that node with its number; then exactly that node is freed and its place filled with the last |
| `Bench.RandomPass` | test/30-benchmark/benchmark.c:598-644 | whatever the generator answers and for each allocator, no check fails and nothing is live at the end; what is done is the schedule of n turns and the drain, act by act, malloc counts exactly these calls, and a pool ends as a legal run of exactly these takes and gives ends |
| `Lockstep.DriveBoth` | test/30-benchmark/benchmark.c:55-57 | driven by the same operations, the nodes that mulle_storage and the free list hand out and take back are, step by step, their nodes of the same slots, and they end in the same pool |
| `Lockstep.ReuseAlike` | test/30-benchmark/benchmark.c:55-57 | the one names the same node at two steps exactly when the other does |
| `Lockstep.DriveIndexed` | src/mulle-indexedstorage.h:103-147 | driven by the same operations, any number of them while fewer than 2^32 slots are reserved, the indexes of mulle_indexedstorage are the slots of the nodes of mulle_storage |
| `Lockstep.DriveIndexedFromEmpty` | src/mulle-indexedstorage.h:103-147 | the same from empty pools for any run whose peak live count is below 2^32 |

## Left out

- Mixed raw and vtable calls on one arena: a raw call after a vtable block may start inside that block (`RawMeetsVtable` says exactly when), so the two protocols are proved apart; arenas of both kinds may share a machine.
- ReallocarrayV: requires that the copy is a defined memcpy; a header that a client store raised can take it into unmapped memory or into the new block, which C leaves undefined. `VRunHeaders` and `VRunSafe` say when the requirement is met by itself, `CopyInsideIff` exactly when the copy leaves the old block.
- VRunRefines: whole contents are stated where ends are safe, because other ends lose bytes (`SurvivesIffIntact` says exactly which); `VBystanderSurvives` states what is kept for every size.
- DEBUG builds: the 0xDEADDEAD fills are not modelled, only the release build.
- Out of memory, the `fail` callback and overflowing sums or products: preconditions, since the code does not return from them or does not check them.
- NULL-safe wrappers, version functions, plain getters and casts: one-branch facts; init and done of the two pools only create and release their parts.
- The insides of mulle_structqueue, mulle_structarray, mulle__pointerarray and mulle_allocator are not part of this model; reserving appends a fresh slot, popping answers the last entry or NULL.
- MulleStorage.Copy: the storage's nodes are modelled as a first word, a serial number and a byte pattern, the node of the benchmark; the copy moves these three parts at once, and the freed node that the call itself reuses is not a source.
- RandomPass: the C stack arrays are sequence values, since nothing else can point at them; the generator is an arbitrary function, so xorshift itself is not modelled.
- The growth and lifo workloads, timing, counting allocators, memory statistics and printing in the benchmark.
