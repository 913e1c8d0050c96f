# A verified model of an SPDK blobstore file system

The repository puts a small POSIX-like file system on top of the SPDK
blobstore. Three layers of it are modelled here, in Dafny, in the form they
have in C: classes whose methods change fields and arrays in place, each
method proved against a value-level specification, and lemmas about those
specifications for every input or every run.

* **The radix tree** (`spdk_fs/radix_tree.c`). A base-64 trie over 64-bit keys:
  nodes with 64 cells and an occupancy counter, pointers to cells, growth on
  demand, pruning on delete, an ordered range scan. `Words` defines shift and
  mask bit by bit, `Digits` shows that they select base-64 digits, `MaxIndex`
  covers the height table. `RadixLayout` is a snapshot of the whole structure as
  a value (where every live node sits, what every cell holds), with the tree
  invariant and the effect on it of each pointer write. `RadixTree` is the heap
  version: every write of the source is one write to a node or to the root cell,
  and the ghost map `items` is what the tree stands for. `KeyRange` and `Scan`
  treat the range scan, `TreeRuns` whole runs, `TreeShape` canonical form and
  size.
* **The buffer registry** (`spdk_fs/io_mm.c`). A table of DMA buffers and a radix
  tree from address to table index, inverse to each other over every run
  (`BufferRegistry`).
* **The file layer** (`simple_fs/`). The descriptor table (`FdTable`), directories
  (`Directory`, `DirectoryOps`), path splitting (`PathParts`), and open files with
  the bounce buffer over an I/O-unit-granular blob that grows by clusters
  (`FileModel`, `FileRuns`, `FileAnswers`, `FileOps`).

## What the proofs found

Where a law one would expect does not hold of the code, the model keeps the code
as it is and states exactly when the law holds:

* A range scan over a tree higher than 6 evaluates `1 << shift` with a shift an
  `int` cannot take, unless every 2^36-key block it goes through contains a key
  (`Scan.GangDefined`, `Scan.UndefinedScan`). When it is defined, its answer is
  right at every height.
* `get_fd_from_table` reports a full table although entry 254 is free, when that
  is the only free entry (`FdTable.Table.GetFd`).
* `spdkfs_realloc` breaks the registry exactly when a DMA buffer moved or was
  released (`BufferRegistry.Registry.Reallocate`).
* `spdkfs_malloc` stops the process when a 4096th DMA buffer is wanted: the last
  table entry is never used (`BufferRegistry.Registry.Malloc`).
* `add_dirent` compares I/O units with bytes. That is enough room for every
  interleaving of additions and removals if and only if an I/O unit holds a
  dirent (`DirectoryOps.CapacityExact`), but more than needed: space that a removal
  freed is not counted, and the buffer grows by a unit at almost every addition
  (`DirectoryOps.UnitsCountAdds`).
* `add_dirent` writes no terminator, so a name created in a reused slot can be
  extended by the tail of the old one (`Directory.StaleTail`). A create is a map
  insertion, and a run a run of the map, if and only if the byte after each name
  added was already NUL (`Directory.CreateRefines`, `Directory.DirRunRefines`);
  it is so when names never get shorter and new memory is zeroed
  (`Directory.RisingIsClean`).
* `monopoly_unlink` does not mark the directory dirty (`DirectoryOps.Dir.Unlink`).
* `simple_fs_write` raises `f_size` before the I/O, so a write that fails can leave
  it beyond the blob (`FileRuns.FarWrite`); what can be read ends at the lesser of the
  two (`FileModel.ShortRead`).
* `f_size` records where writes start. Reading back what was just written returns
  all of it if and only if `f_size` already covered it; otherwise exactly the last
  bounce chunk is missing (`FileModel.ReadBack`, `FileRuns.LostChunk`).
* A write grows the blob by one cluster only, so a direct write fails exactly when it
  ends more than one cluster beyond the capacity (`FileModel.DirectWrite`,
  `FileRuns.DirectFails`), and a bounced one when its first chunk does
  (`FileModel.ExactGrowth`).

## Model

| member | source | states |
|---|---|---|
| Words.MaskHigh | spdk_fs/radix_tree.c:225 | ANDing a word with `2^w - 2^s`, digit by digit, keeps exactly what lies above bit s, for all words and all s <= w |
| Words.MaskDigit | spdk_fs/radix_tree.c:29-31 | ANDing any number with the mask 63 gives its remainder modulo 64 |
| Digits.PrefixGalois | spdk_fs/radix_tree.c:198 | dropping l base-64 digits of a key and taking the least key with a given prefix are adjoint: one is at most the key exactly when the other is at most its prefix |
| Digits.PrefixInterval | spdk_fs/radix_tree.c:156 | the keys that share a prefix are one interval of consecutive keys, so distinct keys part somewhere on their paths |
| Digits.SlotIndexIsDigit | spdk_fs/radix_tree.c:156 | `(index >> shift) & MASK` is the base-64 digit at that level, below 64, and together with the longer prefix it determines the shorter one |
| Digits.AdvanceIsNextBlock | spdk_fs/radix_tree.c:225-226 | with the int literal and a shift of at most 30, clearing the low bits and adding `1 << shift` lands on the first key of the next block, in any 64-bit key |
| Digits.NeededHeightLeast | spdk_fs/radix_tree.c:89-93 | a key fits height h exactly when it has at most h base-64 digits |
| Digits.TopLevel | spdk_fs/radix_tree.c:42-43 | sixteen blocks of 64^10 keys are exactly the 64-bit keys |
| MaxIndex.MaxIndexClosed | spdk_fs/radix_tree.c:365-374 | the table is 64^h - 1 up to height 10 and 2^64 - 1 at height 11; the shift amount on line 368 is one a 64-bit word can take exactly up to height 10, and at height 11 its result is overwritten |
| MaxIndex.MaxIndexStrictlyIncreasing | spdk_fs/radix_tree.c:376-383 | the table is strictly increasing over its 12 entries |
| MaxIndex.FitsIsPrefixZero | spdk_fs/radix_tree.c:76-79 | comparing a key with the table entry asks whether the key has at most that many digits |
| MaxIndex.NeededHeightBound | spdk_fs/radix_tree.c:42-45 | no 64-bit key needs more than 11 levels, so table and path array are never overrun |
| MaxIndex.InitMaxIndex | spdk_fs/radix_tree.c:376-383 | the initialised array is the whole table |
| RadixLayout.Node.constructor | spdk_fs/radix_tree.c:53-63 | a fresh node counts 0 and has 64 NULL cells |
| RadixLayout.OccCountUpdate | spdk_fs/radix_tree.c:33-36 | writing one cell changes the occupancy by whether the old and the new content are NULL |
| RadixLayout.Rewired | spdk_fs/radix_tree.c:147 | any single cell write keeps every pointer right if the tree's contents change at exactly that cell |
| RadixLayout.WithChildLinked | spdk_fs/radix_tree.c:141-151 | hanging a blank node into a NULL cell keeps the tree linked and all counters exact |
| RadixLayout.WithItemLinked | spdk_fs/radix_tree.c:161-168 | storing an item of an absent key keeps the tree linked, with the map grown by that key |
| RadixLayout.WithItemCounted | spdk_fs/radix_tree.c:164-168 | the counter increment makes the counters exact again |
| RadixLayout.WithoutItemLinked | spdk_fs/radix_tree.c:350 | clearing an item's cell keeps the tree linked, with the map shrunk by that key |
| RadixLayout.WithoutItemCounted | spdk_fs/radix_tree.c:350 | after clearing, exactly the counter of the node around the cell is one too high |
| RadixLayout.WithoutNodeLinked | spdk_fs/radix_tree.c:351-355 | a node whose counter is 0 has nothing below it, and freeing it leaves the rest linked with only its parent's counter one too high |
| RadixLayout.WithCountCounted | spdk_fs/radix_tree.c:351 | the decrement makes that counter exact again |
| RadixLayout.WithRootLinked | spdk_fs/radix_tree.c:101-105 | a new root with the old one in cell 0 keeps the tree linked and stands for the same map |
| RadixLayout.WithRootCounted | spdk_fs/radix_tree.c:101-105 | and its counter of 1 is exact |
| RadixLayout.RootOccupied | spdk_fs/radix_tree.c:357 | a NULL root means that nothing is stored and no node is live |
| RadixLayout.RootStores | spdk_fs/radix_tree.c:357 | a non-NULL root means that something is stored |
| RadixLayout.PathLive | spdk_fs/radix_tree.c:192-201 | every node on the path of a stored key is live |
| RadixLayout.PathBroken | spdk_fs/radix_tree.c:193-195 | a NULL cell anywhere on a key's path means the key is not stored |
| RadixLayout.PathDown | spdk_fs/radix_tree.c:197-200 | a non-NULL cell above the bottom holds a node, and the cell chosen by shift and mask is the next one on the key's path |
| RadixLayout.KeyFits | spdk_fs/radix_tree.c:185-187 | keys beyond the height's greatest key are not stored |
| RadixLayout.NodeHasKey | spdk_fs/radix_tree.c:351-355 | below every live node of a pruned tree there is a stored key |
| RadixLayout.NodesExact | spdk_fs/radix_tree.c:33-36 | a position has a live node if and only if some stored key has that prefix, at every level up to the height |
| RadixLayout.NodesLeft | spdk_fs/radix_tree.c:351-355 | going to fewer keys at the same height, the nodes that remain are exactly those with a key left below |
| RadixTree.Tree.constructor | spdk_fs/radix_tree.h:25-39 | the empty tree: no items, height 0, nothing allocated |
| RadixTree.Tree.NodeAlloc | spdk_fs/radix_tree.c:53-63 | one more live node, blank and owned by the tree |
| RadixTree.Tree.NodeFree | spdk_fs/radix_tree.c:65-69 | one live node fewer |
| RadixTree.Tree.MountRoot | spdk_fs/radix_tree.c:97-105 | the writes of one round of extend give exactly the layout with a new root on top |
| RadixTree.Tree.RaiseRoot | spdk_fs/radix_tree.c:96-106 | one round keeps the invariant and the map, and raises the height by 1 |
| RadixTree.Tree.Extend | spdk_fs/radix_tree.c:84-112 | ends at the least height whose greatest key covers the index, at most 11, with the same map and the whole invariant |
| RadixTree.Tree.AddChild | spdk_fs/radix_tree.c:141-151 | adds exactly one node at the missing position, keeps the map, and leaves all its cells NULL |
| RadixTree.Tree.Descend | spdk_fs/radix_tree.c:137-159 | reaches the bottom cell of the index; if nothing was missing the tree is untouched, otherwise the index is absent and only the lowest new node is still empty |
| RadixTree.Tree.AddItem | spdk_fs/radix_tree.c:161-169 | binds the index, adds no node and leaves no node empty |
| RadixTree.Tree.Insert | spdk_fs/radix_tree.c:122-170 | a present key gives -EEXIST and leaves every node, cell, counter and the height as they were; an absent one is bound, nothing else changes in the map, and the height becomes the greater of the old one and the key's own |
| RadixTree.Tree.Lookup | spdk_fs/radix_tree.c:179-204 | the map read, NULL for absent keys, for every 64-bit index |
| RadixTree.Tree.FindPath | spdk_fs/radix_tree.c:328-343 | the 12-entry array ends up naming the cell and the node of every level on the index's path; stopping early means the index is absent |
| RadixTree.Tree.ClearItem | spdk_fs/radix_tree.c:350 | unbinds the index; one counter is now one too high |
| RadixTree.Tree.DropCount | spdk_fs/radix_tree.c:351 | counters exact again; the node is empty exactly when its counter reached 0 |
| RadixTree.Tree.RemoveNode | spdk_fs/radix_tree.c:352-354 | frees the one empty node and nothing else |
| RadixTree.Tree.Prune | spdk_fs/radix_tree.c:351-355 | ends with exact counters and no empty node, every remaining node where it was |
| RadixTree.Tree.ResetHeight | spdk_fs/radix_tree.c:357-359 | height 0 if and only if nothing is stored or it was 0, which restores the whole invariant |
| RadixTree.Tree.Delete | spdk_fs/radix_tree.c:317-362 | returns the stored item or NULL, removes only that key, changes nothing for an absent key, frees exactly the nodes whose subtree became empty, and resets the height exactly when nothing is left |
| KeyRange.RangeMembers | spdk_fs/radix_tree.c:263-265 | the reference answer of a scan contains exactly the stored keys of the interval |
| KeyRange.RangeAscending | spdk_fs/radix_tree.c:263-265 | and lists them in strictly ascending order, so none twice |
| KeyRange.RangeSplit | spdk_fs/radix_tree.c:289-303 | the answer for an interval is the answers for its two halves, one after the other |
| Scan.SkipEmpty | spdk_fs/radix_tree.c:219-233 | either stops at the first occupied cell, with no stored key skipped, or leaves the node (wrap-around included) with no stored key in what was skipped, or meets a NULL cell where the shift is undefined |
| Scan.GrabItems | spdk_fs/radix_tree.c:235-247 | delivers the items of the bottom node from the index on, in key order, until as many as are wanted are found or the node ends, and stops right behind the last one |
| Scan.LookupFrom | spdk_fs/radix_tree.c:206-254 | defined if and only if the height is at most 6 or the start shares its upper 28 bits with a stored key; then next_index is beyond the start (or 0 past the last key), and exactly the items of the keys in between were written, in order |
| Scan.GangLookup | spdk_fs/radix_tree.c:269-306 | if and only if `GangDefined`, no undefined shift is evaluated; then the result is min(max_items, n) for the n stored keys >= first_index, and the array holds exactly their items, ascending, none skipped or repeated, the rest untouched; trees of every height |
| Scan.MainGang | spdk_fs/radix_tree.c:289-303 | the loop terminates and joins the portions without gap or overlap, although every step restarts from the root |
| Scan.SmallGang | spdk_fs/radix_tree.c:277-288 | the answer for an empty tree and for one that holds key 0 only |
| Scan.StoppedDefined | spdk_fs/radix_tree.c:289-303 | a scan that stopped normally satisfies the definedness condition |
| Scan.StuckUndefined | spdk_fs/radix_tree.c:225-226 | a scan that met an undefined shift violates it |
| Scan.UndefinedScan | spdk_fs/radix_tree.c:225-226 | keys 0 and 3 * 2^36, start 2^36: height 7, and the very first step is undefined |
| TreeRuns.Execute | spdk_fs/radix_tree.c:122-362 | any sequence of insert, lookup and delete on a tree in the heap is the same run of the abstract machine of height and map, return values included |
| TreeRuns.ReachableRun | spdk_fs/radix_tree.c:122-362 | in every reachable state keys fit the height, the height is at most 11, and an empty tree has height 0 |
| TreeRuns.ValidIsReachable | spdk_fs/radix_tree.c:122-362 | the heap invariant implies the invariant of the abstract machine |
| TreeRuns.RunActsPerKey | spdk_fs/radix_tree.c:122-362 | a run does to each key what its own operations do, as if the others were not there |
| TreeRuns.ReturnsPerKey | spdk_fs/radix_tree.c:122-362 | every return value of a run follows from the earlier operations on the same key alone |
| TreeRuns.DeleteUndoesInsert | spdk_fs/radix_tree.c:317-362 | deleting a key just inserted restores the map always, and the height too if and only if the insert did not have to raise a non-empty tree |
| TreeRuns.InsertsKeepLeast | spdk_fs/radix_tree.c:84-112 | as long as only inserts happen, the height is the least that fits the stored keys |
| TreeRuns.InsertsStore | spdk_fs/radix_tree.c:122-170 | inserting distinct keys into an empty tree stores exactly the given bindings |
| TreeRuns.InsertOrderIrrelevant | spdk_fs/radix_tree.c:122-170 | inserting the same distinct bindings in any two orders gives the same map and the same, least, height |
| TreeRuns.SameStateSameShape | spdk_fs/radix_tree.c:122-170 | two trees in the heap with the same height and map have the same shape |
| TreeRuns.InsertOrdersSameShape | spdk_fs/radix_tree.c:122-170 | two trees built from nothing by inserting the same distinct bindings, in any two orders, are structurally equal |
| TreeShape.Canonical | spdk_fs/radix_tree.c:33-36 | height and map determine positions, counters and cells of a well-formed tree up to node addresses |
| TreeShape.SpaceBound | spdk_fs/radix_tree.c:53-69 | at most height times as many nodes as stored items |
| TreeShape.LiveNodes | spdk_fs/radix_tree.c:53-69 | a node is allocated and not freed if and only if some chain of cells leads from the root cell to it, and there are at most height times as many such nodes as stored items |
| TreeShape.TopSlots | spdk_fs/radix_tree.c:42-43 | the root of a tree of height 11 uses only its first 16 cells |
| BufferRegistry.InverseSize | spdk_fs/io_mm.c:17-18 | as many table entries are used as buffers are registered |
| BufferRegistry.Registry.constructor | spdk_fs/io_mm.c:39-47 | the initial registry: nothing registered, nothing live |
| BufferRegistry.Registry.FindNextEntry | spdk_fs/io_mm.c:20-32 | the first unused entry among the first 4095, or -1 when those are all used |
| BufferRegistry.Registry.FullTable | spdk_fs/io_mm.c:20-32 | the scan fails exactly when 4095 buffers are registered, by counting |
| BufferRegistry.Registry.Find | spdk_fs/io_mm.c:89-95 | true exactly for registered addresses |
| BufferRegistry.Registry.Malloc | spdk_fs/io_mm.c:49-68 | which allocator serves the call, what is returned, when the process stops, and that table and tree stay inverse and equal to the live DMA buffers |
| BufferRegistry.Registry.Register | spdk_fs/io_mm.c:64-66 | table entry and tree binding are added together; the insert never collides |
| BufferRegistry.Registry.Free | spdk_fs/io_mm.c:78-87 | every pointer goes back to the allocator it came from, and nothing else is forgotten |
| BufferRegistry.Registry.Unregister | spdk_fs/io_mm.c:81-82 | the table index is recovered from the tree, in bounds, and both sides forget the buffer |
| BufferRegistry.Registry.Reallocate | spdk_fs/io_mm.c:70-76 | which allocator is asked; the registry stays right if and only if the buffer was not registered, was kept, or came back at the same address |
| BufferRegistry.Serve | spdk_fs/io_mm.c:49-87 | over every run of malloc and free with allocators that hand out no live address, the registry invariant holds and each call goes to the allocator the pointer belongs to |
| FdTable.AllButOne | simple_fs/monopoly_ops.c:13 | all entries but one are used exactly when the count says so, whichever the one is |
| FdTable.LostEntry | simple_fs/monopoly_ops.c:13-23 | the table with only entry 254 free counts 255 |
| FdTable.Table.constructor | spdk_fs/fs.h:70-74 | nothing used, count 0 |
| FdTable.Table.GetFd | simple_fs/monopoly_ops.c:8-24 | fails if and only if 256 entries are used, or 255 with 254 the free one; otherwise marks and returns the first free entry going round from the count, in bounds, and the counter stays exact |
| FdTable.Table.ReturnFd | simple_fs/monopoly_ops.c:26-31 | clears the entry; the counter stays exact if and only if the entry was used |
| FdTable.NextFdFresh | simple_fs/monopoly_ops.c:8-24 | on sets of descriptors: what is handed out is below 256 and was not in use, and nothing is handed out exactly when all are in use or all but 254 |
| FdTable.FdRunInTable | simple_fs/monopoly_ops.c:8-31 | in every run the descriptors in use stay below 256 |
| FdTable.NoDoubleUse | simple_fs/monopoly_ops.c:8-31 | in every run a descriptor in use is not handed out again until it is returned |
| FdTable.Execute | simple_fs/monopoly_ops.c:8-31 | any run of gets, and returns of descriptors in use, on the table is the run on the set of descriptors in use, with the same results |
| Directory.MatchesIs | simple_fs/dir.c:102 | strcmp accepts a stored field exactly when the field holds that string |
| Directory.LookupRefines | simple_fs/dir.c:96-106 | on a directory with distinct names lookup is the map read, and the index found is the only one |
| Directory.CreateRefines | simple_fs/monopoly_ops.c:48-51 | appending an entry adds exactly its binding and keeps names distinct and terminated, if and only if the byte behind the copied name was NUL |
| Directory.NamedWithout | simple_fs/monopoly_ops.c:218-221 | removing an entry keeps the names distinct and terminated |
| Directory.UnlinkRefines | simple_fs/monopoly_ops.c:218-221 | removing an entry removes exactly its binding |
| Directory.DirStepRefines | simple_fs/monopoly_ops.c:57-79 | one create or unlink keeps the directory well named and does to the name-to-blob map what the call says, if and only if a name it adds is copied in front of a NUL |
| Directory.DirRunRefines | simple_fs/monopoly_ops.c:57-222 | a run of creates and unlinks is a run of the name-to-blob map, call by call, if and only if each name added was copied in front of a NUL; what the slots held follows from the first slots and the calls |
| Directory.RisingIsClean | simple_fs/monopoly_ops.c:39-50 | when no slot holds more than w characters, the names created start at w characters and never get shorter, and new memory holds NUL behind the name it was added for, every name is copied in front of a NUL: for any number of creates, on a new directory too |
| Directory.RisingInRoom | simple_fs/monopoly_ops.c:48-50 | the same with nothing assumed of new memory, when there is an unused slot for every create |
| Directory.StaleTail | simple_fs/monopoly_ops.c:50 | the run create "ab", unlink "ab", create "c" stores "cb": lookup does not find "c", and the map differs from what the calls say |
| DirectoryOps.UnitsCoverCount | simple_fs/monopoly_ops.c:39-47 | after every interleaving of additions and removals there are at least as many I/O units as entries |
| DirectoryOps.CapacityExact | simple_fs/monopoly_ops.c:39-47 | the buffer holds all entries after every interleaving if and only if an I/O unit is at least a dirent |
| DirectoryOps.UnitsCountAdds | simple_fs/monopoly_ops.c:43-46 | because units are compared with bytes, the buffer of a directory grows by a unit at every addition, whatever was removed, except at those that find it emptied: exactly so up to 521 units |
| DirectoryOps.UnitsOfAdds | simple_fs/monopoly_ops.c:43-46 | with additions only there are as many units as entries, for any number of them |
| DirectoryOps.AddGrows | simple_fs/monopoly_ops.c:43-46 | from any units and entries, an addition leaves the buffer as it is if and only if there are more units than 520 times the entries |
| DirectoryOps.Dir.constructor | simple_fs/dir.c:51-66 | an empty directory with no slots, for every I/O unit |
| DirectoryOps.Dir.Lookup | simple_fs/dir.c:96-106 | the first entry strcmp accepts, or -1 when none is |
| DirectoryOps.Dir.MakeRoom | simple_fs/monopoly_ops.c:39-47 | the first unit for an empty buffer, one more exactly when there are at most as many units as the entries have bytes; all slots are kept, new ones are added behind them, and one more entry fits if and only if an I/O unit holds a dirent |
| DirectoryOps.Dir.AddDirent | simple_fs/monopoly_ops.c:35-52 | the write is inside the buffer if and only if an I/O unit holds a dirent; then the first unused slot becomes the last entry, its name copied over what the slot held, every other slot is kept, and the directory is dirty |
| DirectoryOps.Dir.PutDirent | simple_fs/monopoly_ops.c:48-51 | id and name of one slot are written, the bytes behind the name and the other slots stay |
| DirectoryOps.Dir.Create | simple_fs/monopoly_ops.c:62-71 | refuses exactly the names some entry matches, changing nothing; else is the value-level create, inside the buffer if and only if an I/O unit holds a dirent |
| DirectoryOps.Dir.ShiftLeft | simple_fs/monopoly_ops.c:218-220 | every entry behind the removed one moves down by one; all other slots stay |
| DirectoryOps.Dir.Unlink | simple_fs/monopoly_ops.c:211-222 | removes the entry lookup finds and keeps the order of the others; the slot of the last entry and all behind it keep their bytes, and the directory is not marked dirty |
| DirectoryOps.Execute | simple_fs/monopoly_ops.c:57-222 | any run of calls on a directory in memory is the run of the same operations on its slots, used and unused, and its buffer has the size of the run of its additions and removals; it stays inside the buffer if and only if an I/O unit holds a dirent or nothing is created |
| DirectoryOps.ExecuteAsMap | simple_fs/monopoly_ops.c:57-222 | on any well-named directory in memory, a run of calls is a run of the name-to-blob map, call by call, if and only if it is clean, and it is clean under either of the two conditions above |
| DirectoryOps.ExecuteNew | simple_fs/monopoly_ops.c:57-222 | a new directory, after any run with names that never get shorter and zeroed new memory, holds exactly the map of the calls; after any run, d_size is one I/O unit per addition that did not find it emptied, up to 521 |
| PathParts.GetNextPart | simple_fs/dir.c:71-94 | skips slashes; 0 at the end, -1 for a part over 512 characters, else the part, terminated, and the position behind it |
| PathParts.SplitPath | simple_fs/dir.c:68-94 | calling it until it stops yields the non-empty slash-separated parts in order, and fails exactly at the first part over 512 characters |
| PathParts.PartsAreWords | simple_fs/dir.c:76-80 | every part is non-empty and free of slashes |
| PathParts.PartsKeepLetters | simple_fs/dir.c:82-89 | nothing but slashes is lost, and the order is kept |
| PathParts.SplitJoin | simple_fs/dir.c:71-94 | joining words with slashes and splitting gives the words back |
| PathParts.SplitJoinSplit | simple_fs/dir.c:71-94 | splitting, joining and splitting again changes nothing |
| FileModel.SpanIs | simple_fs/file.c:15-18 | the recursive size of a blob, one cluster at a time, is clusters times cluster size |
| FileModel.RoundDownIs | simple_fs/monopoly_ops.c:115 | rounding down by repeated subtraction is dividing by the I/O unit and multiplying back |
| FileModel.CeilDivIs | spdk_fs/fs.h:18 | the recursive rounded-up quotient is the arithmetic one |
| FileModel.CeilFits | simple_fs/blob_op.c:163 | q clusters hold a bytes if and only if q is at least the rounded-up quotient |
| FileModel.ReadKeeps | simple_fs/monopoly_ops.c:121-133 | every bounced read, with any I/O failures, moves the position by exactly what it returns and delivers exactly the bytes stored there |
| FileModel.WriteKeeps | simple_fs/monopoly_ops.c:152-164 | every bounced write, with any failures, is one contiguous write of exactly the bytes it reports, and moves the position by that much |
| FileModel.OneRead | simple_fs/file.c:21-37 | one read returns everything if and only if the blob I/O works, its position is not negative and it ends by the lesser of f_size and the capacity; else it returns 0 and changes nothing |
| FileModel.ShortRead | simple_fs/monopoly_ops.c:121-133 | in every state, from every position and for any I/O errors, a bounced read of T bytes at p returns the lesser of the k buffers before the first error and: T if p + T <= m, else the whole buffers in m - p, else 0 (0 for negative p), where m is the lesser of f_size and the capacity: f_size can lie beyond the blob |
| FileModel.DirectReadAgrees | simple_fs/monopoly_ops.c:120-136 | in every state, bounced and direct read agree in bytes, count and state if and only if the read starts at a negative position, ends by m, or m is less than one buffer ahead |
| FileModel.ExactGrowth | simple_fs/file.c:38-57 | a bounced write is complete if and only if its first chunk ends within one cluster of the capacity; then the blob ends with exactly max(old, ceil(end / cluster)) clusters and f_size at the start of the last chunk, else nothing is written but the blob grows by one cluster and f_size is raised |
| FileModel.DirectWrite | simple_fs/monopoly_ops.c:166 | in every state, one write of any size succeeds, and completely, if and only if the I/O works, its position is not negative and it ends inside the blob, or at most one cluster beyond it where the resize works on a device that has that cluster |
| FileModel.ShortWrite | simple_fs/monopoly_ops.c:152-164 | a bounced write with room on the device returns the k buffers before the first I/O error, if its first buffer ends within one cluster of the capacity, else 0 |
| FileModel.WritesCounted | simple_fs/file.c:46 | every chunk write raises the write count by one modulo 2^32, failed ones too, so a bounced write raises it by the chunks it tried |
| FileModel.GrowOnce | simple_fs/file.c:40-46 | one write from any position, with or without working resize and I/O, adds at most one cluster, and does so exactly when its end is not inside the blob, the device has the cluster and the resize works; f_size becomes at least its start, which is huge when negative |
| FileModel.LastStartIs | simple_fs/monopoly_ops.c:152-153 | the last chunk starts at the last multiple of the buffer size below the total |
| FileModel.ReadBack | simple_fs/file.c:44-50 | after any complete write, seeking back and reading returns all of it if and only if f_size already covered it, else all but the last chunk |
| FileRuns.UnitsCover | spdk_fs/fs.h:18 | for aligned position and size, the unit offset and `UPPER_DIV` count cover exactly the bytes asked for |
| FileRuns.RoundOffsetIs | simple_fs/monopoly_ops.c:177 | C's truncating division and multiplication round an offset of either sign toward zero |
| FileRuns.SeekAligned | simple_fs/monopoly_ops.c:177-184 | seeks, of negative offsets too, keep the position a multiple of the I/O unit |
| FileRuns.ReadAligned | simple_fs/monopoly_ops.c:121-133 | every bounced read returns a multiple of the I/O unit, failures included |
| FileRuns.WriteAligned | simple_fs/monopoly_ops.c:152-164 | so does every bounced write |
| FileRuns.StepKeeps | simple_fs/monopoly_ops.c:110-185 | one lseek, read or write, on the bounced or the direct path, keeps alignment and bounds; reads change no data and deliver exactly what is stored, writes are one contiguous write, and both move the position by their return value |
| FileRuns.RunKeeps | simple_fs/monopoly_ops.c:110-185 | every run, mixing both paths and with any failures, keeps alignment and bounds |
| FileRuns.RunIsLatest | simple_fs/monopoly_ops.c:110-185 | after every run, mixing both paths, each byte is the one written last at its position |
| FileRuns.ReadReturnsLatest | simple_fs/monopoly_ops.c:110-138 | a read on either path after any run returns the latest byte at every position it covers |
| FileRuns.FarWrite | simple_fs/file.c:40-46 | on a new file, a seek and one failed write leave f_size at 2048 and a blob of 1024 bytes |
| FileRuns.LostChunk | simple_fs/file.c:44-50 | on a new file, writing 1024 bytes, seeking back and reading 1024 returns 512 |
| FileRuns.DirectFails | simple_fs/monopoly_ops.c:166 | 1536 bytes written to a new file with clusters of 1024: the direct path writes none, the bounce buffer all |
| FileAnswers.TruncDivIs | simple_fs/monopoly_ops.c:177 | the quotient is C's: what is left over is smaller than the divisor and has the sign of the dividend |
| FileAnswers.SeekLands | simple_fs/monopoly_ops.c:172-185 | lseek returns, and the position becomes, the offset rounded toward zero to I/O units for SEEK_SET, the position plus that for SEEK_CUR, and the unchanged position for any other whence |
| FileAnswers.SeekThereAndBack | simple_fs/monopoly_ops.c:181-183 | a relative seek by any offset and one by its negation cancel, from any position |
| FileAnswers.SeekSums | simple_fs/monopoly_ops.c:177-183 | seeking to p and then by q - p is seeking to q, for aligned p and q |
| FileAnswers.DirectReadAnswer | simple_fs/monopoly_ops.c:110-138 | a read into DMA memory is one transfer of the length rounded down to I/O units: its return value in closed form for every state and blobstore answer, the bytes it delivers, and the position it leaves |
| FileAnswers.BouncedReadAnswer | simple_fs/monopoly_ops.c:110-138 | a read into other memory: the same in closed form, with rounding to I/O units, whole buffers beyond the end, and the first I/O error |
| FileAnswers.DirectWriteAnswer | simple_fs/monopoly_ops.c:141-169 | a write from DMA memory is one transfer of the length rounded down to I/O units: return value, data, position, f_size, clusters and write count in closed form, for every state and blobstore answer |
| FileAnswers.BouncedWriteAnswer | simple_fs/monopoly_ops.c:141-169 | a write from other memory on a device with room: return value, data, position and write count in closed form, up to the first I/O error |
| FileAnswers.BouncedWriteLeaves | simple_fs/monopoly_ops.c:141-169 | with working I/O it leaves exactly the clusters it needs and f_size at the start of its last buffer, or one more cluster and f_size at its own start if it cannot begin |
| FileOps.UnitBound | simple_fs/blob_op.c:108-118 | the bound check in units is the bound check in bytes, also for positions that turned huge as unsigned |
| FileOps.OpenFile.constructor | simple_fs/file.c:65-76 | a new file: position, size and write count 0 |
| FileOps.OpenFile.BlobRead | simple_fs/blob_op.c:108-132 | copies exactly the addressed bytes or changes nothing |
| FileOps.OpenFile.BlobWrite | simple_fs/blob_op.c:108-132 | writes exactly the addressed bytes or changes nothing |
| FileOps.OpenFile.BlobResize | simple_fs/blob_op.c:158-177 | the clusters that hold the given size, or no change |
| FileOps.OpenFile.ReadOnce | simple_fs/file.c:21-37 | is one chunk read of the value-level file, its bytes delivered to the buffer |
| FileOps.OpenFile.PrepareWrite | simple_fs/file.c:40-46 | grows, raises f_size and counts the write as the value-level file does, before any I/O |
| FileOps.OpenFile.WriteOnce | simple_fs/file.c:38-57 | is one chunk write of the value-level file, size and write count included |
| FileOps.OpenFile.ReadBounced | simple_fs/monopoly_ops.c:121-133 | the loop of bounded chunks through the shared buffer is the recursive chunked read, delivered to the caller's buffer in place |
| FileOps.OpenFile.ReadUser | simple_fs/monopoly_ops.c:110-138 | rounds down and takes the right path; the rest of the caller's buffer is untouched |
| FileOps.OpenFile.WriteRound | simple_fs/monopoly_ops.c:153-160 | one chunk out of the caller's buffer and back leaves that buffer unchanged |
| FileOps.OpenFile.WriteBounced | simple_fs/monopoly_ops.c:152-164 | the loop is the recursive chunked write of the caller's bytes |
| FileOps.OpenFile.WriteUser | simple_fs/monopoly_ops.c:141-169 | rounds down, takes the right path, and leaves the caller's buffer unchanged |
| FileOps.OpenFile.Lseek | simple_fs/monopoly_ops.c:172-185 | moves to the offset rounded toward zero, counted from 0 for whence 0 and from the current position for whence 1, and nowhere else; returns the position |
| FileOps.Execute | simple_fs/monopoly_ops.c:110-185 | any run of lseek, read and write on an open file in the heap, with DMA buffers and others, is the run of the value-level file, with the same return values and the same bytes delivered |

## Left out

Parts of the repository that are not modelled:

- SPDK callbacks, threads, polling, subsystem start and stop, file system initialisation (`spdk_fs/fs.c`, `simple_fs/super.c`, `simple_fs/thread_poller.c`): one blob operation is one atomic step that succeeds or fails, and the answers (`Env`) are parameters.
- The libc interposition (`simple_fs/interface.c`) and the fio plugins: wrappers around other libraries.
- `find_path` in `simple_fs/dir.c`: it has no caller. `find_dir`, which `monopoly_unlink` calls, is not defined in the repository; it is taken to be `spdkfs_dir_lookup`.
- stat, mkdir, chdir, timestamps, ownership, the extended attributes, and the reading, writing and closing of directories: each copies fields or passes one buffer to the blobstore, and no property above depends on them.
- `spdkfs_mm_free`: it returns at once, because `mm_table_count` stays 0.
- The glue of `monopoly_create` and `monopoly_open` that combines a directory step, a descriptor and a fresh file: its parts are modelled separately, the `open_files` array is not.
- Concurrent use of the shared bounce buffer: the source is written for one thread.
- Allocation failure in the radix tree: the source aborts, so its -ENOMEM branches cannot be taken. Items are non-NULL, which the source needs of its callers.
- A range scan with a 64-bit literal in place of `1`: the source has an `int` literal, and that one is modelled, undefined cases included.

Where the model is narrower than the source:

- RadixLayout.Node.constructor: the cells of a node are a separate array object, since a Dafny object cannot embed one; the C node is one block.
- Scan.GangLookup: on an undefined shift it reports `defined == false` and states nothing more, as the C standard does; the descent that line 249 makes after the bottom level reads a cell that is never used and is not modelled.
- BufferRegistry.Registry.Reallocate: the `Valid` it may break is the registry invariant; later calls on a broken registry are not modelled.
- FdTable.Table.ReturnFd: a negative descriptor, which the source does not check for either, is excluded.
- DirectoryOps.Dir.AddDirent: with an I/O unit smaller than a dirent the source writes beyond its buffer; the model reports `defined == false` there and states nothing more. Of the slots a reallocation adds nothing is known, so what they held is a result of the call (`grown`).
- Directory.CreateRefines: names of 512 characters and more are excluded, since the copied field then has no terminator and strcmp reads beyond it.
- DirectoryOps.Dir.Unlink: the missing return value of `monopoly_unlink` and the release of the blob are not modelled.
- FileModel.ExactGrowth: the device has room for the write. When it has not, a resize fails, and what holds then is `FileModel.WriteKeeps`.
- FileOps.OpenFile.ReadUser: buffer and loop counter fit an `int`, which the fixed buffer of 0x10000 bytes ensures up to 2^31 rounds; the buffer size is a multiple of the I/O unit, and that of 512, which `simple_fs_read` asserts.
- FileOps.OpenFile.Lseek: seeks that overflow an `off_t` are excluded.
- FileOps.OpenFile.BlobWrite: a failed blob write leaves the data as it was, and the blobstore rejects transfers beyond its clusters; both are facts about SPDK, which is not part of this model. The device has a fixed size below 2^63 bytes, and growing beyond it fails.
