# The data structures of jailfs, verified

This project models the data structures that jailfs keeps in `lsd/`, the package
handle cache built on them and the text buffer of its editor, and proves what they
are for.  `dafny verify dfyconfig.toml` checks everything.

## What is modelled

**Red-black tree** (`lsd/tree.c`).  `TreeShape.dfy` has the pure trees and their
contexts, `TreeImage.dfy` relates them to the pointers of the nodes, `RedBlack.dfy`
and `TreeOrder.dfy` hold the colour and order arguments, and `TreeHeap.dfy` is the
class whose methods rewrite the nodes in place.  Keys are ordered by any total
preorder.  The branch of `rb_delete_fixup` that rotates the sibling paints the near
child RED, which it already is; equal black counts would need it BLACK and the
sibling RED.  The methods of deletion take a flag: `repaired` selects the intended
colours, otherwise the code is as written.  As written the result is a red-black tree
if and only if the deletion does not reach that branch; where it does, `DeletionFate`
says whether it ends at a NULL sibling (`ok` is false) or on an unbalanced tree, and
there is an input for each.

**Dictionary** (`lsd/dict.c`).  `ProbeSeq.dfy` is about the probe sequence,
`DictSizes.dfy` about its 32-bit arithmetic, `DictTable.dfy` about one table and one
lookup, `DictRuns.dfy` about operations and runs, and `Dict.dfy` is the class with the
table changed in place.  The hash function is arbitrary, and counters and products
wrap as they do in the source.  Results that the documentation does not promise: an
absent key gives NULL and not `defval`; deleting an absent key returns 0 and not -1,
leaves a tombstone and lowers `used`, below zero if it must, after which an add may
resize forever; a dictionary can run out of empty slots by adding and deleting alone,
and then no lookup of an absent key ends; enumerating to the end reads past the table.

**Block allocator** (`lsd/balloc.c`) on **intrusive lists** (`lsd/dlink.c`):
`Dlink.dfy`, `Layout.dfy` for the address arithmetic on the 64-bit words of
`Words.dfy`, `Balloc.dfy`.  The heap invariant ties the chain, the two counters, the
per-block lists and the set of live cells together, and every operation keeps it.  The
comment at `lsd/balloc.c:328-329` says the root block is never removed; the loop
removes it like any other, and the model follows the loop.

**Package handle cache** (`src/pkg.c`): `Pkg.dfy` for the calls and `PkgRuns.dfy` for
whole runs of them.  The handles are allocated from the heap of `Balloc.dfy` and listed
on a list of `Dlink.dfy`.  A package whose file cannot be opened or locked is released
while it is on no list, so its cell is never freed; nor is the list node of any
released handle.  A package whose archive is bad stays cached, so the next open of the
same path succeeds.  `pkg_close` does not test `refcnt`: `PkgRuns` says what every run
keeps all the same, and that `refcnt` counts the outstanding opens throughout exactly
where every close matches one.

**Editor rows** (`src/kilo.c`): `KiloText.dfy` for the text, `KiloScreen.dfy` for the
cursor and whole runs, `Kilo.dfy` for the rows with their NUL-terminated buffers.
Joining two rows sets `cx` but not `coloff`, and its shift is wrong for a row longer
than the screen is wide: the cursor leaves the screen, `coloff` turns negative, and a
later join leaves the cursor before column 0.  `KiloScreen` says exactly which runs
stay clear of this.

**Durations** (`lsd/timestr.c`): `Timestr.dfy`, with `strtol` as ISO C defines it.

## Model

| member | source | states |
|---|---|---|
| `TreeShape.RotateOrder` | lsd/tree.c:164-202 | A rotation in either direction keeps the in-order sequence of node/data entries. |
| `TreeImage.RotatedHolds` | lsd/tree.c:164-202 | If the pointers change as a rotation changes them, the heap again holds the whole tree with the rotated subtree in place, parent and child links mutually inverse. |
| `TreeImage.SpliceHolds` | lsd/tree.c:73-82 | Relinking the parent of a node to its only child leaves the heap holding the tree without that node. |
| `TreeImage.LeafHolds` | lsd/tree.c:35-57 | Linking a fresh node at an empty place leaves the heap holding the tree with that leaf there. |
| `TreeHeap.RbTree.constructor` | lsd/tree.c:35-57 | An empty tree, for any comparison that is a total preorder. |
| `TreeHeap.RbTree.LeftRotate` | lsd/tree.c:164-182 | Changes exactly the pointers a left rotation changes, including the grandparent link or the root, and nothing else. |
| `TreeHeap.RbTree.RightRotate` | lsd/tree.c:184-202 | The mirror image of left rotation. |
| `TreeHeap.RbTree.RotateAt` | lsd/tree.c:164-202 | At any position of a held tree a rotation yields the rotated tree, held again, with the same in-order sequence. |
| `TreeHeap.RbTree.TreeInsert` | lsd/tree.c:35-57 | Returns a fresh node hung at the one place that keeps the order: equal keys go right of all their equals. |
| `TreeOrder.InsertedAt` | lsd/tree.c:39-54 | Hanging the leaf there is the stable sorted insertion: the old in-order sequence with the entry after all elements <= it. |
| `TreeHeap.RbTree.TreeMinimum` | lsd/tree.c:98-102 | The first node in-order of the subtree. |
| `TreeHeap.RbTree.TreeMaximum` | lsd/tree.c:104-108 | The last node in-order of the subtree. |
| `TreeHeap.RbTree.TreeSuccessor` | lsd/tree.c:125-138 | From in-order position i, the node at i + 1, or NULL at the end; the climbing loop ends. |
| `TreeHeap.RbTree.TreePredecessor` | lsd/tree.c:110-123 | From in-order position i, the node at i - 1, or NULL at the start: the inverse of the successor. |
| `TreeOrder.Neighbours` | lsd/tree.c:110-138 | Where in the tree the in-order neighbours of a node are found. |
| `TreeHeap.RbTree.Iterate` | lsd/tree.c:98-138 | Minimum followed by successors until NULL meets every node exactly once, in order. |
| `TreeHeap.RbTree.SearchR` | lsd/tree.c:140-150 | The recursive search computes the search function on the held tree. |
| `TreeOrder.SearchCorrect` | lsd/tree.c:140-154 | On a sorted tree the search finds a node comparing equal exactly when one exists, with duplicates on either side. |
| `TreeOrder.SearchTopmost` | lsd/tree.c:140-154 | Of several nodes that compare equal the one nearest the root is found: none of them is outside the subtree it heads. |
| `TreeHeap.RbTree.TreeSearch` | lsd/tree.c:152-154 | NULL exactly when no node of the tree compares equal; otherwise a node of the tree that does, the topmost one. |
| `RedBlack.InsertGrandparent` | lsd/tree.c:225-229 | At each loop head of rb_insert with a red parent, the grandparent exists and is black. |
| `RedBlack.InsertRecolourKeeps` | lsd/tree.c:229-233 | Recolouring at a red uncle moves the one possible fault two levels up. |
| `RedBlack.InsertInnerKeeps` | lsd/tree.c:234-236 | Rotating an inner grandchild outwards keeps the invariant and lowers the measure. |
| `RedBlack.InsertOuterKeeps` | lsd/tree.c:237-241 | Recolouring and rotating the grandparent removes the fault. |
| `RedBlack.InsertDone` | lsd/tree.c:262-264 | When the loop stops, blackening the root gives a red-black tree. |
| `TreeHeap.RbTree.InsertPass` | lsd/tree.c:225-260 | One pass keeps the order and the "one fault only" invariant and lowers the termination measure. |
| `TreeHeap.RbTree.RbInsert` | lsd/tree.c:221-265 | Keeps every invariant (order, links, black root, no red-red, equal black counts); the new in-order sequence is exactly the stable insertion of the new entry. |
| `RedBlack.HeightBound` | lsd/tree.c:221-341 | Every red-black tree of n nodes has 2^height <= (n + 1)^2, that is height <= 2 log2(n + 1). |
| `TreeOrder.PulledOrder` | lsd/tree.c:59-89 | Taking a node out, with the successor's data moved up in the two-children case, removes exactly the requested position from the data sequence. |
| `TreeHeap.RbTree.PullOut` | lsd/tree.c:59-96 | The heap ends up holding that tree, without the node that is returned. |
| `TreeOrder.PulledDeficit` | lsd/tree.c:328-338 | What is left after taking out a black node is a tree short of one black node at the hole; after a red one, a red-black tree. |
| `RedBlack.DeleteSibling` | lsd/tree.c:268-276 | While the loop of rb_delete_fixup runs on a sound tree the sibling is never NULL, and under a red sibling the near nephew exists and is black. |
| `RedBlack.RecolourSiblingKeeps` | lsd/tree.c:278-283 | Recolouring a sibling with two black children moves the deficit to the parent. |
| `RedBlack.FarRedRestores` | lsd/tree.c:288-295 | The terminal rotation restores a red-black tree. |
| `RedBlack.NearRepairedKeeps` | lsd/tree.c:284-287 | With the near child painted BLACK and the sibling RED, rotating the sibling keeps the deficit invariant and leads to the terminal case. |
| `RedBlack.NearAsWrittenSkews` | lsd/tree.c:284-287 | As written (near child painted RED), the same branch loses the invariant. |
| `RedBlack.LoopDone` | lsd/tree.c:267-326 | At the end of the loop the tree is red-black exactly when the branch was repaired or never entered. |
| `TreeHeap.RbTree.RbDeleteFixup` | lsd/tree.c:267-326 | The loop terminates; as written it meets a NULL sibling if and only if the fate computed from the colours says so, and it ends with a red-black tree if and only if the branch is repaired or the walk does not enter it; the order is kept. |
| `RedBlack.FateMeets` | lsd/tree.c:267-326 | That fate is a restored tree if and only if the walk does not meet the faulty branch. |
| `TreeHeap.RbTree.RbDelete` | lsd/tree.c:328-341 | Exactly one node leaves: the given one, or in the two-children case its in-order successor, whose data the given one takes over; all other entries stay as they are. The result is a valid red-black tree if and only if the recolouring is repaired or the deletion does not meet the faulty branch; a NULL sibling is met if and only if its fate says so. |
| `TreeOrder.PulledEntries` | lsd/tree.c:59-89 | The node/data entries after taking a node out: the requested one is gone, and in the two-children case the node stays with the data of its successor. |
| `TreeOrder.FateOfDeletion` | lsd/tree.c:267-338 | A deletion is restored if and only if it does not meet the faulty branch. |
| `TreeOrder.NullSiblingExample` | lsd/tree.c:284-287 | A four-node red-black tree whose deletion meets the branch and ends at a NULL sibling. |
| `TreeOrder.UnbalancedExample` | lsd/tree.c:284-287 | A nine-node red-black tree whose deletion meets it and ends on an unbalanced tree. |
| `ProbeSeq.PerturbGone` | lsd/dict.c:150 | Seven shifts by PERTURB_SHIFT bring any 32-bit hash to 0. |
| `ProbeSeq.PerturbIs` | lsd/dict.c:150 | After n shifts perturb is the hash divided by 2^(5n). |
| `ProbeSeq.ProbeIs` | lsd/dict.c:130-153 | Probe n in closed form: 5^n times the hash and the shifted hashes met on the way, each weighted by 5 to the number of turns that follow it, masked only once. |
| `ProbeSeq.FullCycle` | lsd/dict.c:151-152 | i -> 5i + 1 modulo 2^k reaches every residue within 2^k steps. |
| `ProbeSeq.ReachesAll` | lsd/dict.c:130-153 | For every hash the probe sequence reaches every slot of a table of 2^k slots within 7 + 2^k probes. |
| `ProbeSeq.MaskAfterWrap` | lsd/dict.c:151-152 | Masking the wrapped 32-bit sum equals masking the exact sum. |
| `ProbeSeq.TurnIsProbe` | lsd/dict.c:150-153 | The index computed by one turn of the loop, with 32-bit wrap-around, is the next probe. |
| `DictTable.HaltsIff` | lsd/dict.c:121-164 | dict_lookup returns if and only if the key is present or some slot is empty; with an empty slot, within 7 + size probes. |
| `DictTable.LookupFinds` | lsd/dict.c:121-164 | It returns the slot of a present key, otherwise the first tombstone on its path, and the empty slot at the end only if there is none; nothing earlier on the path would stop a later lookup. |
| `DictTable.DeletedReused` | lsd/dict.c:161-163 | After a delete the lookup of the same key ends at a tombstone. |
| `DictTable.StoreKeeps` | lsd/dict.c:187-206 | Storing or deleting at that slot keeps every live key at the end of its own probe path. |
| `DictTable.LiveUnique` | lsd/dict.c:121-164 | Each key is live in at most one slot. |
| `DictTable.StoreModels` | lsd/dict.c:187-206 | Storing there updates the modelled map at that key only; a tombstone there removes that key only. |
| `DictTable.EnumerationIsMap` | lsd/dict.c:399-421 | Feeding each returned rank to the next call, from 0, meets every key of the map exactly once. |
| `DictRuns.PutKeeps` | lsd/dict.c:171-213 | One insertion refines the map update; a NULL value over an existing key keeps the old value. |
| `DictRuns.RebuildKeeps` | lsd/dict.c:284-288 | Re-insertion after n slots holds exactly the entries of those slots, has no tombstone, and both counters are their exact number. |
| `DictRuns.RebuildReady` | lsd/dict.c:284-288 | Each re-insertion returns, and whatever its load test says it does not change the table again; in a table of 2^31 slots that test always succeeds. |
| `DictRuns.FullRebuildHangs` | lsd/dict.c:284-288 | The bound this needs is sharp: with 2^30 entries the last re-insertion into 2^31 slots starts a doubling that never ends. |
| `DictRuns.ResizeKeeps` | lsd/dict.c:246-292 | With all products and counters taken modulo 2^32, a resize that returns keeps the map; it does nothing exactly when the size exceeds the target, otherwise the table grows, loses its tombstones and has exact counters. |
| `DictSizes.DoublingEndsIff` | lsd/dict.c:261-263 | On 32-bit sizes the doubling loop exceeds its target at some turn if and only if the target is below 2^31; otherwise the size wraps to 0 without ever having done so. |
| `DictSizes.DoublingFinds` | lsd/dict.c:261-263 | Where it ends, it ends at the first power of two above the target, and not at an earlier turn. |
| `DictRuns.AddKeeps` | lsd/dict.c:226-228 | dict_add refines the map update. |
| `DictRuns.DelKeeps` | lsd/dict.c:371-396 | dict_del refines map removal, also of an absent key. |
| `DictRuns.DelTwice` | lsd/dict.c:379-393 | Deleting a key twice leaves the table of deleting it once, so it uses up no empty slot. |
| `DictRuns.GetIs` | lsd/dict.c:338-352 | dict_get returns the last value added, and NULL for an absent key. |
| `DictRuns.DelAsDocumentedIff` | lsd/dict.h:105-113 | The documented result (-1 for an absent key) is met exactly when the key is present or NULL. |
| `DictRuns.GetAsDocumentedIff` | lsd/dict.h:85-94 | The documented result (defval for an absent key) is met exactly when the key is present or defval is NULL. |
| `DictRuns.RunRefines` | lsd/dict.c:171-396 | Every run of adds, gets and deletes whose calls return (their lookups end and the resizing they ask for ends) refines the map, wrapped counters included. |
| `DictRuns.StepCounts` | lsd/dict.c:212-213 | live <= used <= fill and occupied <= fill survive adds, gets and deletes of present keys, as long as fill does not wrap. |
| `DictRuns.AddExactIff` | lsd/dict.c:212-213 | From exact counters, after an add used is still the number of keys if and only if the key was new, and fill that of the slots in use if and only if its slot was empty. |
| `DictRuns.DelExactIff` | lsd/dict.c:379-393 | From exact counters, after a delete used is still exact if and only if the key was present, and fill if and only if no empty slot was taken. |
| `DictRuns.DelAbsentCountsIff` | lsd/dict.c:379-393 | Deleting an absent key keeps those bounds exactly when live < used and, if it fills an empty slot, occupied < fill. |
| `DictRuns.DelAbsentExample` | lsd/dict.c:379-393 | Deleting any key from a new dictionary breaks them: used becomes 2^32 - 1. |
| `DictRuns.DrainedAddHangs` | lsd/dict.c:261-263 | For every hash function, key and value: after seven deletes of an absent key and five adds of it, all of which return, the lookup of the sixth add ends but its doubling loop never does. |
| `DictRuns.CountersHalt` | lsd/dict.c:150-162 | While the counters bound the table and fill is below the size, an empty slot is left and every lookup ends. |
| `DictRuns.CountedRunReturns` | lsd/dict.c:171-396 | A run of adds, gets and deletes of present keys returns while its adds do not use up the size of the table it starts from. |
| `DictRuns.AddReturnsIff` | lsd/dict.c:212-219 | Without deletes an add returns if and only if fewer than 2^30 - 1 adds are counted. |
| `DictRuns.AddStaysRoomy` | lsd/dict.c:212-219 | Without deletes, each crossing of the load test strictly grows a table of less than 2^31 slots. |
| `DictRuns.AddGrowth` | lsd/dict.c:212-263 | Without deletes, an add resizes a table of less than 2^31 slots if and only if two thirds of them are counted in, and then to the least power of two above four times the adds counted, or twice when it has more than 64000 slots. |
| `DictRuns.AddsReturn` | lsd/dict.c:171-352 | Every run of adds and gets that counts fewer than 2^30 adds returns, and an empty slot always remains. |
| `DictRuns.ChurnRun` | lsd/dict.c:265-266 | Eight adds each followed by the delete of the same key fill a new table with tombstones ... |
| `DictRuns.ChurnHangs` | lsd/dict.c:150-162 | ... after which the lookup of any key never ends. |
| `Dict.Dictionary.constructor` | lsd/dict.c:300-314 | An empty table of eight slots that models the empty map. |
| `Dict.Dictionary.Lookup` | lsd/dict.c:121-164 | The probing loop ends and returns the slot the table-level lookup names. |
| `Dict.Dictionary.ProbeOn` | lsd/dict.c:146-163 | The same from the first probe on, with the first tombstone met remembered. |
| `Dict.Dictionary.AddP` | lsd/dict.c:171-222 | With 32-bit counters, the whole new state is that of the insertion, followed by the resize its load test asks for; the mutual recursion with dict_resize ends. |
| `Dict.Dictionary.Resize` | lsd/dict.c:246-292 | The whole new state is that of the rebuild; nested resizes happen and change nothing. |
| `Dict.Dictionary.NewSize` | lsd/dict.c:249-266 | The wrapping doubling loop ends at the least power of two from the current size on that exceeds the target; unchanged exactly when no doubling is needed. |
| `Dict.Dictionary.Add` | lsd/dict.c:226-228 | The modelled map is updated; a NULL key is refused with -1. |
| `Dict.Dictionary.Get` | lsd/dict.c:338-352 | The value the map holds for the key, NULL for an absent one, defval for a NULL key. |
| `Dict.Dictionary.Del` | lsd/dict.c:371-396 | The key leaves the map; the result is 0 also for an absent key and -1 for a NULL one only. |
| `Dict.Dictionary.Enumerate` | lsd/dict.c:399-421 | The first live slot at or after rank, and its successor as the next rank; -1 when there is none, and then, and only then, the loop has read past the table. |
| `Layout.PaddedLeast` | lsd/balloc.c:199-203 | The padded size is the least multiple of the pointer size that is at least the element size. |
| `Layout.MaskClears` | lsd/balloc.c:202 | On 64-bit words, the mask of the source clears exactly the low three bits. |
| `Layout.PaddedWordIff` | lsd/balloc.c:199-203 | The padding as computed on 64-bit words, wrap-around included, is the padded size if and only if the element size is at most the last one whose padded size is representable. |
| `Layout.CellsLaidOut` | lsd/balloc.c:131-158 | For every element size, distinct cells of a block are disjoint, pointer-aligned and inside alloc_size. |
| `Balloc.Block.constructor` | lsd/balloc.c:121-158 | A block of n distinct cells, all free, each pointing back to the block. |
| `Balloc.Block.AddCell` | lsd/balloc.c:144-158 | One more cell on the free list; the used list is untouched. |
| `Balloc.Block.Take` | lsd/balloc.c:258-264 | The cell given back last becomes live and zeroed; all other live cells keep their contents. |
| `Balloc.Block.Give` | lsd/balloc.c:315-318 | The cell leaves the live cells, zeroed, and is the next one to be handed out; all others are untouched. |
| `Balloc.BlockHeap.constructor` | lsd/balloc.c:183-227 | A heap with one block, all of its cells free. |
| `Balloc.BlockHeap.BlockNew` | lsd/balloc.c:121-165 | The new block goes in front of the chain, with elemsPerBlock free cells; counters follow. |
| `Balloc.BlockHeap.FindFree` | lsd/balloc.c:257-258 | The walk of blockheap_alloc finds the first block with a free cell, exactly when freeElems > 0: it never gives up otherwise. |
| `Balloc.BlockHeap.Alloc` | lsd/balloc.c:240-275 | Freshness: the returned cell was not live, is zeroed, and every other live cell keeps its contents; NULL only if nothing is free and the system refuses memory. |
| `Balloc.BlockHeap.Free` | lsd/balloc.c:288-321 | The cell leaves the live set and freeElems grows by one; a NULL pointer is refused with 1. |
| `Balloc.BlockHeap.Store` | lsd/balloc.c:240-275 | Whatever a client writes to its own cell, the heap invariant and every other cell are unaffected. |
| `Balloc.BlockHeap.Unlink` | lsd/balloc.c:352-365 | Taking a wholly free block out of the chain lowers both counters by exactly what was removed. |
| `Balloc.BlockHeap.GarbageCollect` | lsd/balloc.c:335-371 | A block leaves the chain if and only if it is wholly free and not the only one, the others keep their order, and no live cell is dropped; with a single block nothing changes. |
| `Balloc.KeptExactly` | lsd/balloc.c:349-369 | What a sweep keeps: every entry whose count is not n and no other; nothing at all exactly when all are n. |
| `Balloc.KeptTotal` | lsd/balloc.c:366-367 | The total free count falls by n for each entry removed. |
| `Balloc.BlockHeap.Conserved` | lsd/balloc.c:401-409 | Free cells and live cells together are blocksAllocated * elemsPerBlock. |
| `Balloc.BlockHeap.Usage` | lsd/balloc.c:401-420 | The reported used count is the number of live cells. |
| `Dlink.DList.Add` | lsd/dlink.c:65-77 | The described sequence gets the node in front. |
| `Dlink.DList.AddBefore` | lsd/dlink.c:79-93 | The node is inserted right before the given one. |
| `Dlink.DList.AddTail` | lsd/dlink.c:95-107 | The node is appended. |
| `Dlink.DList.Delete` | lsd/dlink.c:109-127 | Exactly that node leaves the sequence. |
| `Dlink.DList.Find` | lsd/dlink.c:129-138 | The first node carrying the data, or NULL exactly when there is none. |
| `Dlink.DList.FindDelete` | lsd/dlink.c:140-165 | The first node carrying the data leaves the sequence and has both links cleared. |
| `Dlink.DList.Length` | lsd/dlink.c:167-169 | The length of the sequence. |
| `Dlink.DList.MoveTo` | lsd/dlink.c:171-201 | The node leaves this list and becomes the head of the other; both stay well-formed. |
| `Dlink.Move` | lsd/dlink.c:171-201 | The same with its test for NULL: with any NULL argument nothing changes. |
| `Dlink.MoveConserves` | lsd/dlink.c:171-201 | A move conserves the multiset of nodes of both lists and keeps them disjoint and free of repeats. |
| `Pkg.Cache.constructor` | src/pkg.c:378-393 | An empty cache, on a heap and a list of its own. |
| `Pkg.Cache.HandleByName` | src/pkg.c:114-125 | The cached handle with that name, or NULL exactly when there is none. |
| `Pkg.Cache.FindNode` | src/pkg.c:63-72 | The list node of a handle, or NULL exactly when it is not listed. |
| `Pkg.Cache.Release` | src/pkg.c:80-107 | A listed handle leaves the list and the heap, its list node is not given back; one that is not listed loses its name, its descriptor becomes -1 unless it was 0, and it stays allocated. |
| `Pkg.Cache.Open` | src/pkg.c:210-313 | A cached package is reused, refcnt and otime updated; a new one is cached with refcnt 1; one that cannot be opened or locked leaves its cell allocated and unlisted; one with a bad archive stays cached at refcnt 0. Names stay unique, and the program exits exactly when a handle or a list node is needed and cannot be had. What the heap and the list gain is newly allocated. |
| `Pkg.Cache.Close` | src/pkg.c:136-139 | One outstanding open fewer, or one stray close more if there is none; refcnt stays opens less stray closes, and the handle stays cached. |
| `Pkg.Cache.Visit` | src/pkg.c:365-370 | One step of the sweep releases the handle under the cursor if and only if its refcnt is 0 and the time read is beyond otime + lifetime. |
| `Pkg.Cache.Gc` | src/pkg.c:361-376 | With the time read anew at each handle, a handle leaves the list if and only if its refcnt is 0 and that time is beyond otime + lifetime, and the others stay in order and unchanged; a handle still held goes only if it had as many stray closes as opens; neither heap loses a live cell or keeps a wholly free block besides others, and the heap of file mappings keeps exactly its other blocks. |
| `Pkg.MatchedKeepsAll` | src/pkg.c:361-376 | Where every close matched an open, a sweep releases no handle that is held. |
| `Pkg.SurvivorsExactly` | src/pkg.c:365-370 | A sweep drops a handle if and only if its refcnt is 0 and the time read at it is beyond otime + lifetime. |
| `PkgRuns.Run` | src/pkg.c:136-376 | Any requests to open, close and sweep are served one after the other on a new cache, which is sound after each; the record gives what each did to the list and to every handle on it. Without stray closes the opens counted are the outstanding ones of the record. It stops early only where a handle or a list node cannot be had. |
| `PkgRuns.FromInit` | src/pkg.c:136-393 | The same from pkg_init on, which creates the cache and the heap of file mappings and reads the lifetime from the configured duration, 60 if there is none. |
| `PkgRuns.Act` | src/pkg.c:136-376 | One request, whatever it is, is served as its step says; names stay unique. |
| `PkgRuns.RefcntIsNet` | src/pkg.c:136-376 | In every run the refcnt of a cached handle is its opens less its closes, and every handle that is not cached has had as many closes as opens. |
| `PkgRuns.SweptExactly` | src/pkg.c:361-376 | In the record of a run a sweep removes a handle if and only if its refcnt is 0 and the time read is beyond otime + lifetime; the others keep their contents. |
| `PkgRuns.StaysCached` | src/pkg.c:136-376 | In every run a package opened at time t stays cached through all sweeps that read no time beyond t + lifetime, closed or not, unless an open of it in between reads an earlier time. |
| `PkgRuns.HeldStaysCached` | src/pkg.c:136-376 | In a run where every close matches an open, refcnt is the number of outstanding opens and no handle with an outstanding open has left the list. |
| `PkgRuns.FaithfulIff` | src/pkg.c:136-376 | refcnt is the number of outstanding opens throughout a run if and only if every close in it matches an open. |
| `Kilo.Editor.constructor` | src/kilo.c:1251-1266 | No rows, the cursor at the origin. |
| `Kilo.Editor.InsertRow` | src/kilo.c:581-599 | The row appears at the position; beyond the end nothing happens. |
| `Kilo.Editor.DelRow` | src/kilo.c:610-620 | Exactly that row disappears; beyond the end nothing happens. |
| `Kilo.Editor.InsertInto` | src/kilo.c:650-668 | In the NUL-terminated buffer: all accesses are in bounds, the character is at its place, the gap is padded with spaces, the terminator is kept. |
| `Kilo.Editor.RowInsertChar` | src/kilo.c:650-670 | The row gets the character (after padding), no other row changes. |
| `Kilo.Editor.RowAppendString` | src/kilo.c:673-680 | The row is extended by the string, no other row changes. |
| `Kilo.Editor.RowDelChar` | src/kilo.c:683-689 | The row loses that character; beyond its end nothing happens. |
| `Kilo.Editor.InsertChar` | src/kilo.c:692-710 | The whole new editor state (rows, cx, cy, rowoff, coloff) is that of typing the character. |
| `Kilo.Editor.InsertNewline` | src/kilo.c:714-747 | The whole new editor state is that of breaking the line; past the row after the last one nothing happens. |
| `Kilo.Editor.DelChar` | src/kilo.c:750-782 | The whole new editor state is that of backspace as the code has it, with coloff not reset by a join. |
| `Kilo.Editor.RowsToString` | src/kilo.c:626-646 | The buffer holds exactly the flat text and a NUL, and is exactly that long. |
| `Kilo.Editor.Open` | src/kilo.c:786-814 | Appends the lines of the file to the rows and leaves the text unmodified; 1 for a missing file, and exit for one that cannot be opened otherwise. |
| `KiloText.TypedFlat` | src/kilo.c:692-710 | Inside the text, typing changes the flat string by exactly that character at the cursor's offset, and the cursor moves past it. |
| `KiloText.TypedOneIff` | src/kilo.c:692-703 | The flat string grows by one character if and only if the cursor is on an existing row and not beyond its end. |
| `KiloText.TypedBeyondRow` | src/kilo.c:650-668 | Typing beyond the end of a row fills the gap with spaces and changes no other row. |
| `KiloText.TypedBeyondText` | src/kilo.c:692-703 | Typing beyond the last row adds empty rows up to a new one of spaces and the character. |
| `KiloText.NothingIff` | src/kilo.c:714-782 | A newline changes no row if and only if the cursor is below the row after the last one, a backspace if and only if it is at the start of the text, below it, or beyond the end of its row. |
| `KiloText.WalksBack` | src/kilo.c:750-782 | Beyond the end of a row backspaces walk the cursor back to that end and delete nothing. |
| `KiloText.BrokenFlat` | src/kilo.c:714-747 | A newline changes the flat string by exactly one newline character at the cursor's offset. |
| `KiloText.ErasedFlat` | src/kilo.c:750-782 | Backspace removes exactly the character before the cursor's offset; the position it is meant to leave the cursor at is that offset. |
| `KiloText.EraseUndoesTypedIff` | src/kilo.c:692-782 | Backspace undoes typing if and only if the cursor was on an existing row and not beyond its end. |
| `KiloText.EraseUndoesBrokenIff` | src/kilo.c:714-782 | Backspace after a newline restores the rows if and only if the newline was not typed on the row after the last one, and the cursor if and only if it was not beyond the end of its row either. |
| `KiloScreen.FollowsIff` | src/kilo.c:704-782 | The editor's cursor goes where the command means it to go if and only if the command is not a join with coloff != 0, which leaves it off by coloff. |
| `KiloScreen.DisplayedIff` | src/kilo.c:704-782 | A displayed cursor stays displayed if and only if the command does not join onto a row longer than the screen is wide. |
| `KiloScreen.ScrollsIff` | src/kilo.c:704-782 | A displayed view is scrolled only when the cursor would leave it and then no further than needed, across if and only if the command does not join onto a row longer than the screen is wide, and up and down always. |
| `KiloScreen.BackspaceUndoesTypeIff` | src/kilo.c:692-782 | On rows and logical cursor (the split into cx and coloff may differ), backspace undoes typing if and only if the cursor was in a row. |
| `KiloScreen.BackspaceUndoesNewlineIff` | src/kilo.c:714-782 | On rows and logical cursor, backspace undoes a newline if and only if the cursor was in a row or so far below the text that neither does anything. |
| `KiloScreen.AgreesIff` | src/kilo.c:692-782 | A run of the editor started in a row edits one string at one offset, step by step, if and only if it never joins rows with coloff != 0. |
| `KiloScreen.RunRefines` | src/kilo.c:692-782 | A run started with the cursor displayed in a row does so, and keeps the cursor displayed, if it never joins onto a row longer than the screen is wide. |
| `KiloScreen.ShownIff` | src/kilo.c:704-782 | The cursor stays displayed throughout a run if and only if the run never does. |
| `KiloScreen.OffScreen` | src/kilo.c:761-773 | For every screen width: typing a row at least two characters wider between two newlines in an empty editor and deleting it all again puts the cursor before column 0, where the next character would be written in front of the row. |
| `KiloText.SaveOpenIff` | src/kilo.c:801-822 | Writing the flat string and opening it again gives the same rows if and only if no row holds a newline. |
| `KiloText.FlatOfLines` | src/kilo.c:801-822 | For every text, reading it and writing it back gives that text with a newline at the end, less a carriage return there if it had no newline: no line is lost, the last one included. |
| `KiloText.OpenSaveIff` | src/kilo.c:801-822 | Opening and saving gives the same text if and only if it is empty or ends in a newline. |
| `Timestr.StrtolReads` | lsd/timestr.c:43 | strtol with base 0 reads blanks, a sign, a prefix for base 8, 16 or none for 10, and the digits of that base; it clamps their value to a long and ignores what follows. |
| `Timestr.StrtolReadsNothing` | lsd/timestr.c:43 | Where no digit follows the blanks and the sign it gives 0. |
| `Timestr.StrtolPrinted` | lsd/timestr.c:43-58 | strtol with base 0 reads back what %d printed, whatever non-digit follows. |
| `Timestr.TextFits` | lsd/timestr.c:75-82 | The printed parts always fit the 64-byte buffer with their NUL. |
| `Timestr.Snprintf` | lsd/timestr.c:75-82 | The text lands at the offset, NUL-terminated, leaving what precedes it. |
| `Timestr.TimeToTimestr` | lsd/timestr.c:62-90 | The buffer holds the text of the time, for every 64-bit time. |
| `Timestr.TextUnits` | lsd/timestr.c:62-90 | The units printed are exactly those of the parts that are not zero, in the order d, h, m, s; every number is followed by its unit and the text ends in one; the text of 0 is 0s. |
| `Timestr.TakePart` | lsd/timestr.c:40-57 | One unit block yields the value of its part and leaves the rest; nothing when the unit is missing. |
| `Timestr.TimestrToTime` | lsd/timestr.c:25-60 | The sum of the parts with the default for NULL; None exactly where a product or a partial sum overflows a long. |
| `Timestr.DefaultIff` | lsd/timestr.c:28-31 | The result depends on the default if and only if the string is NULL; a string without a number gives 0. |
| `Timestr.PartsParsed` | lsd/timestr.c:22-60 | Any parts printed in the documented format, any of them missing, seconds with or without their unit, are read back as their sum, or overflow where it does. |
| `Timestr.SumIff` | lsd/timestr.c:43-58 | Without negative parts the sum is exact if and only if it fits a long. |
| `Timestr.RoundTripIff` | lsd/timestr.c:25-90 | Reading back the printed text of t gives t if and only if its number of days fits an int; in all cases the error is that of the wrapped day count. |
| `Timestr.CaseBlind` | lsd/timestr.c:34-38 | Texts that differ in case only are read alike. |
| `Timestr.DecimalReadIff` | lsd/timestr.c:43 | A digit string is read as the decimal number it spells if and only if it has no leading zero or is worth a single digit below 8. |
| `Timestr.LeadingZeroExample` | lsd/timestr.c:43 | "010" is read as 8 and "08" as 0. |

## Left out

- TreeHeap.RbTree.RbDelete: with `repaired` false the code is as written; with `repaired` true the near child and the sibling get the colours the branch is meant to give.
- TreeHeap.RbTree.InsertPass: the source spells out the left and the right half of the loop; one body with the side as a parameter stands for both.
- TreeHeap.RbTree.TreeSuccessor: the position of the node in-order is a ghost parameter, here and in the other methods that start from a node.
- TreeHeap.RbTree.PullOut: the memory of the removed data and node is not given back; removing a node in the two-children case removes the successor's node and moves its data, as the source does.
- Dict.Dictionary.Add: a call that never ends is excluded by requiring that its lookup and its resizing end; `DictTable.HaltsIff`, `DictSizes.DoublingEndsIff` and `DictRuns.FullRebuildHangs` say when they do.
- Dict.Dictionary.Get: a lookup that never ends is excluded by requiring that it ends; `DictTable.HaltsIff` says exactly when it does.
- Dict.Dictionary.Resize: the failure of calloc, and of strdup elsewhere in `lsd/dict.c`, is not modelled.
- Kilo.Editor.Open: what fopen finds is a parameter; the file name is not kept.
- Timestr.TimestrToTime: nothing is said about the value after an overflow, which C leaves undefined.
- PkgRuns.FromInit: a configured duration that overflows a long is excluded, since C leaves its value undefined.
- Pkg.Cache.Close: the handle must be one that is still cached; a close through a pointer to a released cell is not modelled.
- PkgRuns.Run: a client closes the handle cached under a name; the handles it keeps from its opens are not tracked one by one, so whose open a close ends is not modelled.
- Pkg.Cache.Open: the heap of list nodes (`lsd/dlink.c:36-58`) is a parameter that says whether it is exhausted, and a count of the nodes taken; nothing in `src/pkg.c` gives one back.
- In `lsd/dict.c` the timestamps, blob entries, merging, dumping and the two concrete hash functions; keys are values, so comparing pointers first makes no difference.
- In `lsd/tree.c` `traverse`, `destroy_node` and the copying of data by size.
- In `lsd/balloc.c` the debug magic words, the list of heaps, `blockheap_destroy`, `mmap` itself (a block is an object, a refusal a parameter) and the exit when memory is exhausted (NULL stands for it).
- In `src/pkg.c` the database transactions, the reading of archives, file mappings and logging; the answers of the system during one open are a parameter.
- In `src/kilo.c` the rendering of rows, the `idx` field, syntax colours, searching, key reading and cursor keys.
- `lsd/list.c`, whose pop and poll neither update the length nor handle a single element; `Dlink` covers the same ground.
- `src/vfs.c`, `src/cell.c`, `src/database.c`, `src/shell.c`, `src/conf.c` and the other servers of jailfs.
