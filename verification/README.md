# Verified models from the BiscuitOS repository

A Dafny model of six pieces of the repository that carry state, and proofs of what holds of every
run of them:

* the **XArray** (`Algorithem/xarray/Basic`), a 64-way radix tree with parent pointers, counts, three
  summarised marks and a cursor, refines a finite map with one set of indices per mark, and its shape
  depends on its contents alone;
* the **IDR** (`Algorithem/IDR/Basic`), an ID allocator on a radix tree whose tag 0 means "something is
  free below", hands out the least free ID and never the same one twice while it is live;
* the game **2048** (`GAME/2048/2048.c`) keeps its score equal to what its tiles are worth, never makes
  a tile its 32-bit arithmetic cannot hold, and ends exactly when no move is left;
* the **trie** on 32-bit keys (`Algorithem/bitmap/LC-trie`) refines a finite map through insertion,
  lookup and deletion with upward pruning;
* the **bitmap library** (`Algorithem/bitmap/Basic`): word-parallel search, aligned free areas, shifts
  in place and the hexadecimal parser agree with sets of bits and with numbers;
* the **doorbell** of the PCI MSI-X device (`Device-Driver/PCIe/BiscuitOS-PCI-QEMU-DEVICE-MSIX/main.c`)
  loses no wake-up in any interleaving and, as long as writes are serialised, no doorbell; its removal
  completes unless it is called under the iothread lock while the thread is on its way to raise.

`dafny verify dfyconfig.toml` checks the project.

## How the source is represented

* Memory. The nodes of each tree live in a map from addresses to records (`nodes`), so parent and child
  pointers are addresses and a write through a pointer is an update of that map, one field of a class.
  A new node is all zero: empty slots, no marks, offset 0. An allocation may fail at any call, unless the
  structure was made with `reliable` memory, in which no call fails. `pfx` and `dir` are ghost: the position
  of every radix node and the node at every position.
* Radix trees. Words have 64 bits and nodes 64 slots. A shift is always a multiple of 6; the model keeps
  the quotient as the level. A bitmap of marks or tags is the set of its bits. A tagged pointer is a
  datatype (`Null`, `Ptr`, `Value`, `Zero`, `Retry`, `Child`). Entries have order 0, and the array does
  not track free entries. Locks and RCU do nothing in the source and are not modelled.
* Arithmetic is unbounded except where a width matters: cursor indices wrap at 2^64, `max - base` and the
  conversions of the IDR wrap at 2^64, its IDs and `idr_next` at 2^32, alignment wraps at 2^64, bitmap words hold 64 bits. The tiles
  and the score of 2048 are unbounded in the model; `Game2048.FourByFour` shows that the 8-bit exponents
  and the 32-bit score of the source never overflow. An IDR is taken to hold fewer than 2^64 - 2^32 live IDs,
  more than any memory has slots for, so `index + base` in the two iterations and the end of a tree of eleven
  levels are not truncated.
* Randomness and input. `rand()` is an arbitrary function of the call number, the keyboard an arbitrary
  string.
* Threads. The doorbell protocol is a step relation; a step is one call or one access of shared state
  (the thread's loop test, made under the mutex, is one), and `qemu_cond_wait` may return without a signal.
  Whether the caller of the removal holds the iothread lock is a parameter, since the source does not say.

## What the code does that its documentation does not say

* `xa_find` and `xas_find` return the entry at the start index even when that index is above `max`.
  `XArrayCode.XArray.FindEntry` states exactly when the answer respects `max`.
* `xa_find_after` adds one in 64 bits, so from index `ULONG_MAX` it starts over at 0; `xa_for_each` visits
  every entry once if the last index is empty, and otherwise never ends (`XArrayCode.XArray.FindAfter`).
* `idr_alloc` and its kin take an index outside the range if the whole range lies below the base
  (`IdrCode.RangeBelowBase`), and only then. `idr_for_each` takes the base as an int, unlike `idr_get_next`.
* The check of `__radix_tree_replace` for an empty node, called when an ID is allocated, never frees or
  shrinks anything, because the leaf that receives an ID is live.
* `bitmap_parse` accepts one comma at the very end of the buffer, which the comment above it neither lists
  as an error nor describes. `BitParse.Body` drops it.
* When no area is free `bitmap_find_next_zero_area_off` returns the end of the last candidate, a value
  above `size`, not an index.
* Doorbells are conserved because MMIO writes are serialised; `Doorbell.OverlapMerges` shows two overlapping
  writes that become one interrupt, and `Doorbell.DoorbellsConserved` says exactly when that happens.
* A removal called under the iothread lock waits for ever if the thread has left its critical section for the
  interrupt when the stop is requested (`Doorbell.LockedOut`, `Doorbell.RemovalCompletes`).
* `xas_set_mark` marks the slot under a walked cursor even if it is empty, although its comment says it does
  nothing then (`XArrayCode.XaState.SetMark`).
* In 2048 the answer to the question whether to quit may be the key that asks for a restart.

## Model

| member | source | states |
|---|---|---|
| XShape.HistoryIndependence | Algorithem/xarray/Basic/xarray.c:362-427 | Two trees in order, with no needless node, that answer all loads and mark queries alike have the same shape: same levels, slots, counts and mark bits all the way down, and the same array flags. |
| XShape.SameShapeMeans | Algorithem/xarray/Basic/xarray.c:362-427 | Equal shapes are equal trees: the same entries, or nodes with the same level, offset, counts and marks and, slot by slot, equal shapes again. |
| XShape.CanonicalHead | Algorithem/xarray/Basic/xarray.h:139-142 | In a tree with no needless node the head is null exactly when the array is empty, holds an entry directly exactly when nothing lies above index 0, and otherwise the root covers every index in use while one level less would not. |
| XRuns.TwoRuns | Algorithem/xarray/Basic/xarray.c:611-699 | Two runs of stores, erasures, loads and marks, each on a new array: every outcome is lawful; with reliable memory nothing fails; a run without failure shows exactly the contents and marks its operations describe; and two such runs with equal contents and marks have trees of the same shape, whatever their order. |
| XRuns.Replay | Algorithem/xarray/Basic/xarray.c:843-860 | Every run, through any number of failed stores, refines the same run on a finite map and three sets: each store, erasure and load answers the entry that was there, a store fails only for lack of memory and only where a new index was to get an entry, the array shows what the operations that did not fail describe, and a run without failure leaves no needless node. |
| XRuns.Perform | Algorithem/xarray/Basic/xarray.c:714-783 | One operation, lawful in its answer and its effect. |
| XRuns.LastStored | Algorithem/xarray/Basic/xarray.c:714-783 | In any run the last entry stored at an index is what a load there answers and, unless it is the zero entry, what the next store or erasure there answers. |
| XRuns.Erased | Algorithem/xarray/Basic/xarray.c:1157-1161 | After an erasure a load answers null. |
| XRuns.MarkMeans | Algorithem/xarray/Basic/xarray.c:163-211 | Marking a present entry puts it into the set, clearing takes it out. |
| XArrayCode.XArray.constructor | Algorithem/xarray/Basic/xarray.h:139-142 | A new array shows the empty map and no marks, and has no node. |
| XArrayCode.XArray.Store | Algorithem/xarray/Basic/xarray.c:843-860 | The retry loop ends, since every retry adds a node; it answers the old entry (zero entries read as null), writes exactly the one index, keeps the marks of an overwritten entry and drops those of an erased one; it fails only if memory does, never where an entry is overwritten or erased, and then changes neither contents nor marks. |
| XArrayCode.XArray.Erase | Algorithem/xarray/Basic/xarray.c:1157-1161 | Answers the old entry, removes exactly that index and its marks, never runs out of memory, and leaves no needless node. |
| XArrayCode.XArray.LoadEntry | Algorithem/xarray/Basic/xarray.c:594-609 | Answers the entry at the index. |
| XArrayCode.XArray.MarkEntry | Algorithem/xarray/Basic/xarray.c:163-180 | Adds the index to one mark's set if it has an entry, and changes nothing else. |
| XArrayCode.XArray.UnmarkEntry | Algorithem/xarray/Basic/xarray.c:802-809 | Takes the index out of one mark's set and changes nothing else. |
| XArrayCode.XArray.FindEntry | Algorithem/xarray/Basic/xarray.c:1083-1099 | Finds the least entry that passes the filter from the index on, or shows there is none up to max; the answer lies within max if and only if the start does, or a mark is asked for, or the start has no entry. |
| XArrayCode.XArray.FindAfter | Algorithem/xarray/Basic/xarray.c:1118-1142 | The same from the following index, which after the last one is 0, with the same exact condition for max; as long as the last index has an entry, a search without bound always finds something, so `xa_for_each` never ends. |
| XArrayCode.XArray.ForEach | Algorithem/xarray/Basic/xarray.h:650-678 | With the last index empty, visits every visible entry exactly once, in increasing order, and ends. |
| XArrayCode.XaState.Load | Algorithem/xarray/Basic/xarray.c:557-609 | Answers the entry at the cursor's index and leaves the cursor at its slot, at the head, or out of bounds where nothing can be. |
| XArrayCode.XaState.SetMark | Algorithem/xarray/Basic/xarray.c:163-180 | Nothing unless the cursor is walked; on an entry, the mark of exactly one index is set and every summary bit and flag above is right again although the loop stops early; the array is in order afterwards if and only if the cursor was not walked or there was an entry. |
| XArrayCode.MarkNothing | Algorithem/xarray/Basic/xarray.c:163-180 | Setting a mark at index 0 of a new array leaves it out of order. |
| XArrayCode.XaState.ClearMark | Algorithem/xarray/Basic/xarray.c:191-211 | Nothing unless the cursor is walked; otherwise the mark of exactly one index is cleared, and the summaries above fall exactly where nothing marked remains below; without an entry there is nothing to clear. |
| XArrayCode.XaState.InitMarks | Algorithem/xarray/Basic/xarray.c:224-237 | From a walked cursor no mark is left at the index and all others stay; otherwise nothing changes. |
| XArrayCode.XaState.Alloc | Algorithem/xarray/Basic/xarray.c:302-334 | Takes the spare node or a new one, counts it in its parent, or fails without a change. |
| XArrayCode.XaState.Expand | Algorithem/xarray/Basic/xarray.c:362-427 | Adds roots until the index fits, no more; every load, mark and count stays right after each, also when memory runs out half way. |
| XArrayCode.XaState.Create | Algorithem/xarray/Basic/xarray.c:490-542 | Leaves the cursor at the slot of the index, or reports no memory, in both cases with all answers unchanged and at most the nodes on the way to the index added. |
| XArrayCode.XaState.Shrink | Algorithem/xarray/Basic/xarray.c:611-644 | Takes off roots while only their first slot is used: all answers stay, and no needless root remains. |
| XArrayCode.XaState.DeleteNode | Algorithem/xarray/Basic/xarray.c:653-684 | Frees the node and every ancestor that becomes empty, then shrinks: all answers stay, and no needless node remains. |
| XArrayCode.XaState.Write | Algorithem/xarray/Basic/xarray.c:686-699 | Writing the slot and correcting count and value count stores exactly one index and keeps every invariant. |
| XArrayCode.XaState.Store | Algorithem/xarray/Basic/xarray.c:714-783 | Either the entry is stored and the old one answered, or memory ran out and no answer changed. |
| XArrayCode.XaState.FindMarked | Algorithem/xarray/Basic/xarray.c:931-1003 | From a reset cursor the least marked index at or above it, from a walked one the least strictly above, up to max; null exactly when there is none; ends although it may descend into a child and have to pop back. Without result the cursor is reset, past max or past the last index of all, or it is out of bounds at an index within max that the array does not reach. |
| XArrayCode.XaState.Find | Algorithem/xarray/Basic/xarray.c:1021-1064 | The same for any entry, with the start index exempt from max. Without result the cursor is past max, or ready for a store, out of bounds at the end of the array. |
| XLook.MarkSummary | Algorithem/xarray/Basic/xarray.c:163-237 | An interior mark bit is set if and only if some index below that slot is marked. |
| XLook.FlagSummary | Algorithem/xarray/Basic/xarray.c:163-237 | The array flag of a mark is set if and only if some index is marked, and no index without an entry is marked. |
| XLook.Counts | Algorithem/xarray/Basic/xarray.c:686-699 | Every node counts exactly its non-null slots, and the value entries among them. |
| XLook.EmptySlot | Algorithem/xarray/Basic/xarray.c:594-609 | Below an empty slot every index reads null. |
| XTree.XAddChild | Algorithem/xarray/Basic/xarray.c:302-334 | Hanging an empty node in an empty slot keeps links, counts and mark summaries and changes no answer. |
| XTree.XNewRoot | Algorithem/xarray/Basic/xarray.c:394-419 | A root added over the head takes over its marks so that every summary stays right, and changes no answer. |
| XTree.XDropNode | Algorithem/xarray/Basic/xarray.c:653-684 | Taking an empty node out of its parent keeps every invariant and every answer. |
| XTree.XPopRoot | Algorithem/xarray/Basic/xarray.c:611-644 | Replacing a root by its only child, in slot 0, keeps every invariant and every answer. |
| XTree.XPut | Algorithem/xarray/Basic/xarray.c:686-699 | Writing one leaf slot with its count keeps every invariant and changes exactly one index. |
| ITree.ExtendBase | Algorithem/IDR/Basic/radix.c:240-295 | A root added over the head has tags that say where something is free, and every tag and count is right. |
| ITree.ExtendIds | Algorithem/IDR/Basic/radix.c:240-295 | Adding it changes neither which IDs are free nor what any ID is bound to. |
| ITree.IPrune | Algorithem/IDR/Basic/radix.c:581-618 | Freeing an empty node leaves its slot tagged free, and every tag and count right. |
| ILook.FreeSummary | Algorithem/IDR/Basic/radix.c:175-209 | The tag over a slot is set if and only if some ID below that slot is free. |
| ILook.RootSummary | Algorithem/IDR/Basic/radix.c:175-209 | The root's tag is set if and only if some ID the tree spans is free. |
| ILook.PresentIsLive | Algorithem/IDR/Basic/radix.c:861-875 | An index with a pointer is never free. |
| ILook.Counts | Algorithem/IDR/Basic/radix.c:861-875 | A leaf counts exactly its live IDs, with or without a pointer; any other node its non-null slots. |
| IdrCode.Idr.GetFree | Algorithem/IDR/Basic/radix.c:966-1035 | Ends at the least free index in the range, whatever mix of descents, sideways skips, pops and new roots it takes; reports no space if and only if there is none, and then leaves the tree unchanged; no outcome changes which IDs are free. |
| IdrCode.Idr.Search | Algorithem/IDR/Basic/radix.c:991-1024 | From one root: a free slot, or everything up to max live, or everything the tree spans live and the next index to grow for. |
| IdrCode.Idr.PopUp | Algorithem/IDR/Basic/radix.c:1014-1020 | After a full node, the next place to look is in the first ancestor not yet at its end, or nothing is left under the root. |
| IdrCode.Idr.ExtendTree | Algorithem/IDR/Basic/radix.c:240-295 | Adds roots until the index fits, keeping every ID as it is at each, also when memory runs out half way. |
| IdrCode.Idr.TagSet | Algorithem/IDR/Basic/radix.c:175-189 | Frees exactly one index; all tags above are right although the loop stops early. |
| IdrCode.Idr.TagClear | Algorithem/IDR/Basic/radix.c:191-209 | Takes exactly one index; the tags above fall exactly where nothing is free below. |
| IdrCode.Idr.TagGet | Algorithem/IDR/Basic/radix.c:1109-1134 | True if and only if the index lies in the tree and is free. |
| IdrCode.Idr.Lookup | Algorithem/IDR/Basic/radix.c:431-460 | Answers what the index is bound to and its slot; no slot means the index is free. |
| IdrCode.Idr.Take | Algorithem/IDR/Basic/radix.c:888-914 | Binding a free slot, with the counts for null and value entries and the tag cleared, makes exactly that ID live. |
| IdrCode.Idr.Shrink | Algorithem/IDR/Basic/radix.c:509-579 | Takes off roots while only their first slot is used: the root left, if any, is one it would keep. Nodes that stay keep their counts, and no ID changes. |
| IdrCode.Idr.DeleteNode | Algorithem/IDR/Basic/radix.c:581-618 | Frees the node and every ancestor left empty, and leaves no root taller than needed if there was none; every tag, count and link is right and no ID changes. |
| IdrCode.Idr.Delete | Algorithem/IDR/Basic/radix.c:620-669 | Answers the bound pointer and frees exactly that index; it leaves no node empty and no root taller than needed, unless it was before. |
| IdrCode.Idr.constructor | Algorithem/IDR/Basic/idr.h:88-93 | A new allocator has no live ID and its cyclic cursor at 0. |
| IdrCode.Idr.AllocU32 | Algorithem/IDR/Basic/idr.c:27-52 | Binds the least free tree index up to max - base, which wraps if the base is above max; index + base lies within max if and only if the base does; reports no space if and only if no index is free, and then the tree is unchanged; no failure changes any ID. |
| IdrCode.Idr.Alloc | Algorithem/IDR/Basic/idr.c:74-87 | Answers the least ID that is free, at least start, at least the base and below end, where an end of 0 or less stands for 2^31; no space if and only if every such ID is live; a negative start is refused. For a range below the base, the least free tree index up to the wrapped bound. |
| IdrCode.Idr.AllocCyclic | Algorithem/IDR/Basic/idr.c:111-129 | Answers the least free ID from the stored cursor on, if that is an int and at least start, else from start on, and once more from start if nothing is left; stores the ID plus one; no space if and only if both searches find nothing. |
| IdrCode.RangeBelowBase | Algorithem/IDR/Basic/idr.c:27-52 | With base 10, asking a new allocator for an ID in [0, 5) answers 10. |
| IdrCode.Idr.Remove | Algorithem/IDR/Basic/idr.c:145-148 | Answers what the ID was bound to and frees it, other IDs untouched. |
| IdrCode.Idr.Find | Algorithem/IDR/Basic/idr.c:164-167 | Answers what the ID is bound to, or null. |
| IdrCode.Idr.Replace | Algorithem/IDR/Basic/idr.c:277-294 | Rebinds a live ID, also to or from null, and answers the old pointer; any other ID is refused. |
| IdrCode.Idr.NextChunk | Algorithem/IDR/Basic/radix.c:764-852 | Finds the least index with a pointer from start on and the part of its node to scan, or shows there is none. |
| IdrCode.Idr.NextSlot | Algorithem/IDR/Basic/radix.h:419-462 | The next index with a pointer in the same chunk, or shows the rest of the chunk has none. |
| IdrCode.Idr.GetNext | Algorithem/IDR/Basic/idr.c:216-234 | The least live ID from nextid on that has a pointer and fits in an int, or shows there is none; a negative nextid counts as a large unsigned long. |
| IdrCode.Idr.AllNext | Algorithem/IDR/Basic/idr.c:206-234 | Repeated from 0 on, it answers every live ID with a pointer that fits in an int, in increasing order. |
| IdrCode.Idr.ForEach | Algorithem/IDR/Basic/idr.c:186-204 | Calls the function in increasing order on every live ID with a pointer, before the first that is no int, up to the first nonzero answer; it passes index plus base, less 2^32 for a base that is no int. |
| IdrCode.Idr.BothWalks | Algorithem/IDR/Basic/idr.c:186-234 | For a base that is an int, the IDs passed are those that repeated GetNext answers, in that order, up to the first nonzero answer; for a larger base GetNext gives nothing. |
| IdrRuns.Serve | Algorithem/IDR/Basic/idr.c:27-294 | Every answer to every request of every run, for all int ranges, is the lawful one, given only the requests and answers before it: the least free index of the range, or no space if and only if none is free, the cursor rule for cyclic requests, the pointer bound for removals, replacements and lookups; the allocator holds exactly what the ledger says. |
| IdrRuns.Answer | Algorithem/IDR/Basic/idr.c:27-294 | One request: the answer is lawful and the allocator holds what the ledger says next. |
| IdrRuns.NeverTwice | Algorithem/IDR/Basic/idr.c:27-129 | In any lawful log, between two answers with the same ID there is a request to remove that ID, for allocations whose ranges do not lie below the base. |
| IdrRuns.GotFree | Algorithem/IDR/Basic/idr.c:27-129 | An ID answered for a range that does not lie below the base is at least the base and below the end, was not live before and is live afterwards. |
| IdrRuns.AllocAnswers | Algorithem/IDR/Basic/idr.c:74-87 | A lawful answer to an allocation is the least free ID from start and base on, below end; no space exactly when all of these are live. |
| IdrRuns.CyclicAnswers | Algorithem/IDR/Basic/idr.c:111-129 | A lawful answer to a cyclic one is the least free ID from the cursor on, else from start on, and moves the cursor behind it. |
| IdrRuns.CyclicRises | Algorithem/IDR/Basic/idr.c:111-129 | In any lawful log two successive cyclic answers increase, whatever was removed between them, unless every ID behind the first is live and the search starts over. |
| IdrRuns.LastBound | Algorithem/IDR/Basic/idr.c:145-294 | In any lawful log a lookup, removal or replacement of an ID answers the pointer it was last bound to. |
| IdrRuns.Removed | Algorithem/IDR/Basic/idr.c:145-167 | A lookup right after a removal answers null. |
| Slide.SlideArray | GAME/2048/2048.c:106-132 | In place, a row of any length becomes its tiles compacted, equal neighbours merged once from the front, zeros behind; the score rises by the tiles made; true if and only if the row changed. |
| Slide.FindTarget | GAME/2048/2048.c:82-104 | The target of a tile is the last placed tile if equal and not yet merged, else the first free cell. |
| Slide.SlidSettled | GAME/2048/2048.c:106-132 | A row stays as it is if and only if its tiles come first and no two neighbours are equal. |
| Slide.CompactPlaces | GAME/2048/2048.c:106-132 | Compacting keeps exactly the tiles, in their order. |
| Slide.MergeGroups | GAME/2048/2048.c:106-132 | Merging takes the tiles from the front, each result being one tile or two equal neighbours, and never leaves equal neighbours it could have taken together. |
| Slide.OneMerge | GAME/2048/2048.c:290-350 | A tile made by a merge does not merge again: 1 1 2 slides to 2 2. |
| Slide.TotalSlid | GAME/2048/2048.c:106-132 | Sliding keeps the face value of a row, adds exactly its score to the worth of its tiles, and adds no tile. |
| Board.LeftSlides | GAME/2048/2048.c:157-165 | The move between rotations slides every column to its front. |
| Board.RightSlides | GAME/2048/2048.c:177-185 | The move between rotations slides every column to its end. |
| Board.DownSlides | GAME/2048/2048.c:167-175 | The move between rotations slides every row to its end. |
| Board.OverIsImmovable | GAME/2048/2048.c:211-221 | With a tile on the board, none of the four moves changes it if and only if it is full and no row and no column has two equal neighbours. |
| Tiles.SumRot | GAME/2048/2048.c:134-146 | Rotation keeps the number, the face value and the worth of the tiles. |
| Tiles.MoveTotals | GAME/2048/2048.c:148-185 | Each of the four moves keeps the face value, scores exactly the worth it adds, and adds no tile. |
| Tiles.MoveLeavesRoom | GAME/2048/2048.c:148-185 | A move that changes the board leaves an empty cell. |
| Tiles.PopSum | GAME/2048/2048.c:223-251 | A board holds at least as many tiles as half its face value has ones in binary. |
| Tiles.SpawnBound | GAME/2048/2048.c:223-251 | A 2 or 4 put in an empty cell keeps half the face value at most 2^(cells+1) - 2. |
| Game2048.EmptiesFull | GAME/2048/2048.c:223-251 | The list a new tile is drawn from is empty if and only if the board is full. |
| Game2048.EveryRun | GAME/2048/2048.c:359-438 | Whatever the dice and the keys, restarts included: the face value stays within the bound, the score is the worth of the tiles less four for every 4 spawned, there is a tile, and the game is over only when stuck. |
| Game2048.EveryRunLimits | GAME/2048/2048.c:359-438 | On an n x n board no exponent ever exceeds n*n + 1, and the score has a matching bound. |
| Game2048.FourByFour | GAME/2048/2048.c:106-132 | On 4 x 4 no exponent exceeds 17, so neither the shift nor the 32-bit score overflows. |
| Game2048.OverWhenStuck | GAME/2048/2048.c:381-415 | The program has declared the game over if and only if none of the four moves changes the board. |
| Game2048.PressSound | GAME/2048/2048.c:381-415 | A key that moves something always gets its new tile, and keeps all of the above. |
| Game2048.KeySlides | GAME/2048/2048.c:388-412 | The left keys slide every column of the array to its front, the right keys to its end, the up keys every row to its front, the down keys to its end; other keys move nothing. |
| Game2048.PressMeans | GAME/2048/2048.c:381-415 | A key slides the board; if that changes it, the cell drawn among the empty ones gets a 2, or a 4 if the second number ends in 9, and nothing else happens. |
| Game2048.EmptiesOrdered | GAME/2048/2048.c:223-251 | The list a new tile is drawn from is in row order without repetition. |
| Game2048.Prompts | GAME/2048/2048.c:416-431 | Which answers to the two questions quit, restart or go on, also when the answer to the first asks the second. |
| Game2048.Game.RotateBoard | GAME/2048/2048.c:134-146 | The four-cycles in place turn the whole board by a quarter, for every size. |
| Game2048.Game.MoveUp | GAME/2048/2048.c:148-155 | Every row slid, the score raised by all of it, true if and only if the board changed. |
| Game2048.Game.MoveLeft | GAME/2048/2048.c:157-165 | The left move, its score, and whether the board changed. |
| Game2048.Game.MoveDown | GAME/2048/2048.c:167-175 | The down move, its score, and whether the board changed. |
| Game2048.Game.MoveRight | GAME/2048/2048.c:177-185 | The right move, its score, and whether the board changed. |
| Game2048.Game.FindPairDown | GAME/2048/2048.c:187-196 | True if and only if some row has two equal neighbours. |
| Game2048.Game.CountEmpty | GAME/2048/2048.c:198-209 | The number of empty cells. |
| Game2048.Game.GameEnded | GAME/2048/2048.c:211-221 | The board is as before, and the answer is that it is full without an equal pair in a row or column. |
| Game2048.Game.AddRandom | GAME/2048/2048.c:223-251 | Puts a 2 or 4 in the empty cell the dice select, or does nothing on a full board. |
| Game2048.Game.InitBoard | GAME/2048/2048.c:253-264 | A board with two new tiles and score 0. |
| Game2048.Game.Run | GAME/2048/2048.c:359-438 | A whole session on the real board, prompts included, follows the rules that the theorems above are about. |
| TrieCode.Bits32Trie.constructor | Algorithem/bitmap/LC-trie/bits32_trie_new.c:58-68 | A new trie shows the empty map. |
| TrieCode.Bits32Trie.FindNode | Algorithem/bitmap/LC-trie/bits32_trie_lookup.c:4-27 | Finds the leaf of a key if and only if the key is present, and otherwise the node under which it belongs. |
| TrieCode.Bits32Trie.FindLeaf | Algorithem/bitmap/LC-trie/bits32_trie_lookup.c:29-69 | Finds the leaf if and only if the key is present; with remove, clears exactly its slot in its parent. |
| TrieCode.Bits32Trie.Lookup | Algorithem/bitmap/LC-trie/bits32_trie_lookup.c:29-69 | Answers what the key is bound to, and changes nothing. |
| TrieCode.Bits32Trie.InsertNode | Algorithem/bitmap/LC-trie/bits32_trie_insert.c:6-39 | Binds the key, with a new fork over whatever was in its way, and keeps every invariant; out of memory it changes nothing. |
| TrieCode.Bits32Trie.AddFork | Algorithem/bitmap/LC-trie/bits32_trie_insert.c:15-32 | Puts a tnode between a node and what is in the way of the key, keeps the map, and leaves the slot of the key empty. |
| TrieCode.Bits32Trie.LeafInsert | Algorithem/bitmap/LC-trie/bits32_trie_insert.c:45-52 | Adds exactly the fresh key to the map, or reports no memory, which it does only if memory fails, and changes nothing. |
| TrieCode.Bits32Trie.FlushParent | Algorithem/bitmap/LC-trie/bits32_trie_remove.c:5-28 | Frees every ancestor that has lost its last child, ends at the header, leaves no empty tnode and the map as it was. |
| TrieCode.Bits32Trie.LeafDelete | Algorithem/bitmap/LC-trie/bits32_trie_remove.c:29-49 | Removes exactly the key from the map, if present, and leaves no empty tnode. |
| Trie.LeavesOfChild | Algorithem/bitmap/LC-trie/bits32_trie.h:44-68 | The leaves under child i of a tnode at position p are exactly the keys present with the tnode's prefix above p and bit p equal to i. |
| Trie.PositionsDecrease | Algorithem/bitmap/LC-trie/bits32_trie_insert.c:6-39 | Positions strictly decrease from parent to child, and the child points back to its parent. |
| Trie.Chain | Algorithem/bitmap/LC-trie/bits32_trie_lookup.c:4-27 | All nodes whose prefix agrees with a key lie on one path, so a search cannot miss. |
| Trie.TnodeIndex | Algorithem/bitmap/LC-trie/bits32_trie.h:44-68 | The index computed by exclusive or and shift is in range if and only if the key has the tnode's prefix, and is then the key's bit. |
| Trie.Keys | Algorithem/bitmap/LC-trie/bits32_trie.h:8-9 | Every 32-bit number is a key. |
| Trie.ForkFacts | Algorithem/bitmap/LC-trie/bits32_trie_new.c:33-56 | A tnode made at the highest bit in which a key and a node differ lies above the node, covers both, and has them in different slots. |
| Bitmap.FindNextBitIn | Algorithem/bitmap/Basic/bitmap.c:283-313 | The first bit from start on that is set in both maps (or clear, if inverted) and below nbits, else nbits; bits beyond nbits do not matter. |
| Bitmap.FindNextZeroBit | Algorithem/bitmap/Basic/bitmap.c:315-319 | The first clear bit from the offset on, else the size. |
| Bitmap.FindNextBit | Algorithem/bitmap/Basic/bitmap.c:324-328 | The first set bit from the offset on, else the size. |
| Bitmap.FindNextAndBit | Algorithem/bitmap/Basic/bitmap.c:330-335 | The first bit set in both maps from the offset on, else the size. |
| Bitmap.Aligns | Algorithem/bitmap/Basic/bitmap.h:134-135 | The add-and-mask macro yields the least multiple of the power of two at or above its argument. |
| Bitmap.FindNextZeroAreaOff | Algorithem/bitmap/Basic/bitmap.c:398-418 | Ends with the least index from start on that, plus the offset, is aligned and begins nr clear bits within size; a result that leaves no room for nr bits means there is no such index; for nr = 0 it is the least aligned index from the first clear bit on. |
| BitShift.ShiftLeft | Algorithem/bitmap/Basic/bitmap.c:115-138 | Also in place, multiplies the number the words spell by 2^shift, modulo the words' capacity. |
| BitShift.ShiftRight | Algorithem/bitmap/Basic/bitmap.c:71-102 | Also in place, divides the number of the nbits valid bits by 2^shift; the bits beyond do not leak in. |
| Words.ValBit | Algorithem/bitmap/Basic/bitmap.c:12-33 | Bit j of the number the words spell is bit j of the bitmap. |
| BitParse.Parse | Algorithem/bitmap/Basic/bitmap.c:488-550 | Succeeds if and only if the trimmed text is groups of hexadecimal digits between commas, each group is below 2^32 and the base-2^32 numeral is below 2^nmaskbits; the mask is then exactly that number; well-formed text is never called invalid. |
| BitParse.ParsePrinted | Algorithem/bitmap/Basic/bitmap.c:488-550 | Parsing undoes printing: any number, written in groups of eight digits of either case, is parsed to itself if and only if the mask can hold it, and overflows otherwise. |
| BitParse.DigitValue | Algorithem/bitmap/Basic/bitmap.c:462-470 | The k-th character of each hexadecimal alphabet is a digit of value k. |
| BitParse.DigitOf | Algorithem/bitmap/Basic/bitmap.c:462-470 | Only these characters are digits. |
| BitParse.BodyTrimmed | Algorithem/bitmap/Basic/bitmap.c:474-487 | Space around a text, anything after a NUL, and a comma that ends the buffer do not matter. |
| BitParse.Malformed | Algorithem/bitmap/Basic/bitmap.c:474-487 | Space inside a text, an empty group, a leading comma, a comma at the end of the text and the empty text are malformed. |
| BitParse.TooWide | Algorithem/bitmap/Basic/bitmap.c:527-531 | A group of 2^32 or more fits in no mask. |
| BitParse.ReadGroup | Algorithem/bitmap/Basic/bitmap.c:504-535 | Reads one group, or shows that the text is malformed or a group too large whatever follows. |
| BitParse.ShiftIn | Algorithem/bitmap/Basic/bitmap.c:541-542 | Shifting the mask and or-ing the group in is multiplication by 2^32 and addition. |
| Doorbell.EverySchedule | Device-Driver/PCIe/BiscuitOS-PCI-QEMU-DEVICE-MSIX/main.c:58-162 | In every state of every interleaving: the mutex is held by the one agent inside a critical section; accepted doorbells are raised, pending, being raised, or merged into a pending one; a waiting thread with the flag or the stop request set is about to be signalled. |
| Doorbell.DoorbellsConserved | Device-Driver/PCIe/BiscuitOS-PCI-QEMU-DEVICE-MSIX/main.c:58-75 | In every schedule the accepted doorbells are exactly those raised, pending or being raised, if and only if no write sets the flag when it is set already. |
| Doorbell.SerialConserves | Device-Driver/PCIe/BiscuitOS-PCI-QEMU-DEVICE-MSIX/main.c:58-75 | Serialised writes never set a flag already set, so no doorbell is lost. |
| Doorbell.OverlapMerges | Device-Driver/PCIe/BiscuitOS-PCI-QEMU-DEVICE-MSIX/main.c:64-71 | A schedule of two overlapping writes that are both accepted and leave one pending interrupt. |
| Doorbell.RingAlone | Device-Driver/PCIe/BiscuitOS-PCI-QEMU-DEVICE-MSIX/main.c:63-71 | A write that meets no other does nothing when the flag is up; otherwise it is accepted in five steps, even after the stop request, and a waiting thread is awake. |
| Doorbell.WokenForNothing | Device-Driver/PCIe/BiscuitOS-PCI-QEMU-DEVICE-MSIX/main.c:99-101 | A waiting thread may wake without a signal; finding neither the flag nor the stop request it waits again, and nothing else changed. |
| Doorbell.NoLostWakeup | Device-Driver/PCIe/BiscuitOS-PCI-QEMU-DEVICE-MSIX/main.c:97-110 | A thread that waits while the flag or the stop request is set has a writer or the remover about to signal it. |
| Doorbell.NoneAfterJoin | Device-Driver/PCIe/BiscuitOS-PCI-QEMU-DEVICE-MSIX/main.c:150-162 | After the stop request at most one more interrupt is raised, after the join none. |
| Doorbell.RemovalEnds | Device-Driver/PCIe/BiscuitOS-PCI-QEMU-DEVICE-MSIX/main.c:150-162 | After the stop request every schedule without fresh writes is bounded in length, and unless the removal is doomed, called under the iothread lock with the thread on its way to raise, it can go on until the join has returned. |
| Doorbell.RemovalCompletes | Device-Driver/PCIe/BiscuitOS-PCI-QEMU-DEVICE-MSIX/main.c:97-162 | From any reachable state after the stop request, the removal can complete if and only if its caller does not hold the iothread lock or the thread is not on its way to raise. |
| Doorbell.DoomedRuns | Device-Driver/PCIe/BiscuitOS-PCI-QEMU-DEVICE-MSIX/main.c:97-162 | No schedule ends the join of a doomed removal, and after the stop request no step dooms a removal or saves it. |
| Doorbell.NoDeadlock | Device-Driver/PCIe/BiscuitOS-PCI-QEMU-DEVICE-MSIX/main.c:97-162 | Before the end of the join no step but a fresh write can be taken if and only if the thread wants the iothread lock, the remover holds it and waits for the thread, and no write is under way. |
| Doorbell.LockedOut | Device-Driver/PCIe/BiscuitOS-PCI-QEMU-DEVICE-MSIX/main.c:112-117 | A schedule with one doorbell in which the removal, called under the iothread lock, and the thread wait for each other. |

## Left out

- XArrayCode.XArray.ForEach: requires the last index to be empty; with an entry there the macro starts over at 0 and never ends, as FindAfter states.
- XArrayCode.XArray.MarkEntry: marks only indices that have an entry; what the source does otherwise is stated by SetMark.
- IdrRuns.NeverTwice: requires ranges that do not lie below the base; with others an ID is cut to 32 bits and two indices may share one.
- IdrCode.Idr.BothWalks: requires sums of index and base within 64 bits.
- TrieCode.Bits32Trie.LeafInsert: requires an absent key; on a duplicate the source prints a line and goes on to take the highest bit of 0.
- The shape of the IDR's tree as a function of its contents: allocation leaves tall trees where the XArray would not.
- IDA (`Algorithem/IDA/Basic`): shares one bitmap between callers, so it does not keep the promises of the original it was ported from.
- Multi-order and sibling entries, track-free mode, retry entries and RCU in the XArray: unreachable in sequential order-0 use.
- Tagged iteration and preloading in the radix tree: used only by the IDA.
- Set algebra, range set and clear, weight, ordinals, find_first and find_last, and u32 conversion in the bitmap library: easy members of the kind already shown by search and shift.
- The alias list of a trie leaf beyond what insertion puts there, and the parent of the header, which the model makes null as the deletion code expects.
- The MSI-X or legacy line behind the interrupt; raising is one step. What the remover does after the join, and other users of the iothread lock.
- Drawing, colours, the terminal and signals of 2048; snake and tetris.
- Drivers, sockets, demos of kernel interfaces and small list or tree demos: input and output, or easy members only.
