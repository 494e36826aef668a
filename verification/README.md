# securefs in Dafny

securefs keeps encrypted file systems in two formats. This project models the parts of it whose
correctness is hardest to see from the code, and proves what they promise.

`Common` and `Arith` hold what all parts share.

**The B-tree directory of the full format.** A directory is a paged B-tree of at most 13 entries per
node. Pages are 4096-byte blocks of a stream; unused pages form a doubly linked list threaded through
the blocks; a cache of nodes overlays them and is written back on a flush. The main result is
`Runs.RunBoth`: starting from nothing, any sequence of adding, looking up, removing, listing, asking for
emptiness, flushing, rebuilding and reopening gives answer for answer what `SimpleDirectory`, a plain
map (`SimpleDirectories`), gives. It rests on

- `Names`, `Entries`, `Forest`: names embedded in the reals, and a B-tree invariant that is local to a node and
  its children, over a map from page numbers to nodes;
- `Steps`, `RootSteps`, `Contents`, `Search`, `Insertion`, `Deletion`, `Traversal`, `Size`: what each
  structural change (split, merge, rotation, root growth and collapse, predecessor replacement) does
  to the invariant and to the set of stored entries, and how high a tree can be;
- `Codec`, `Layout`, `Buffers`, `Store`: the block layout byte by byte, the free list and the cache;
- `Checks`: what the two consistency checks decide;
- `Directory`: the class, method by method as in `btree_dir.cpp`, each operation proved to keep
  tree, cache, pages and free list coherent. The corruption checks of the source (`dir_check`)
  appear as assertions, so none of them ever fires on a reachable state;
- `Theorems`: the invariant restated in textbook form over what a reader of cache and blocks sees.

**The lite format.** `LiteSizes`, `ByteStreams`, `LiteBlocks`, `LiteStreams`: an encrypted stream with its all-zero
sparse blocks, read, written and resized at byte granularity, behaves as a plain byte string over whole
runs (`StreamRuns.Run`), and no two blocks are ever sealed under the same draw of random bytes.
`LitePaths`, `LiteNames`, `Base32`: encrypted paths are translated component by component and back.

**Cryptographic glue.** `Xor`, `Doubling`, `Siv`, `Hkdf`: AES-SIV (RFC 5297) over an abstract CMAC and keystream,
with the in-place doubling in GF(2^128), and HKDF expansion (RFC 5869) over an abstract HMAC.

**The table of open files.** `FileTables`: reference counts, the queue of closed files and eviction.

## Where the code differs from its description

- Page offsets are products of two 32-bit numbers (`sources/myutils.h:123`), so pages numbered 2^20 and
  up alias lower ones. `PagesDistinct` says exactly when pages stay apart. Adding a new name therefore
  requires nine unused pages below 2^20 (`HasRoom`), which a caller reads off the stream size and the
  header; a directory of fewer than 6 * (2^20 - 16) entries always has them (`RoomForEntries`), and so
  does a rebuild that a flush starts (`FewLeft`).
- The interface promises that an iteration ends when the callback answers no
  (`sources/files.h:392-394`); the B-tree ignores the answer. `AnswersIgnored` shows it on any two
  names. `IterateAsked` says when the visit is nevertheless the promised one: exactly if the callback
  refuses nothing in the table but, at most, the entry with the greatest name, which is visited last.
- The structure check (`validate_node`) drops the verdicts on the children. `ValidateNode` states its
  exact verdict on any readable tree: it depends on the node and its children's outermost entries
  alone. `BrokenPasses` is a tree out of order two levels down that passes, and `Unnoticed` says that
  no change to a leaf further down than a child is ever noticed. The free-list check is different:
  `ValidateFreeList` passes exactly if the header describes a doubly linked list, and `ListIsFree`
  shows that back links alone keep such a list free of repetitions.
- On names of more than 255 bytes a lookup in the B-tree is an error and one in the plain map a miss;
  `LookupBoth` says that they agree on exactly the other names.
- A name survives being stored exactly if it holds no NUL (`EntryRoundTrip`). Names with NUL can be
  added, found and removed, but a flush requires that there are none; names reach a directory as C
  strings.
- Releasing a page shortens the stream only if the page number equals the page count, which no page
  of the stream does; the stream shrinks only in a rebuild. `DeallocatePage` has both branches.
- Decrypting a component that decodes to fewer bytes than an IV reads behind the end of a buffer
  (`sources/lite_fs.cpp:113-121`). `OverrunExactly` says that these are the base-32 texts of fewer than
  26 characters; `NoOverrun` says that no encrypted path has such a component.
- Blocks are numbered up to 2^31 - 1. Writing or resizing beyond that fails half way; the contracts of
  `LiteStream` say exactly when, and what text is left.
- Opening a file under another type drops the cached object even if it is held. `OpenAs` keeps the
  table in order exactly if the object is not held (`HeldOtherwise`).

## Model

| member | source | states |
|---|---|---|
| `Runs.RunBoth` | sources/btree_dir.cpp:362-756 | every sequence of operations from a fresh directory gives the answers of the reference map, listings as multisets, across flushes, rebuilds and reopening |
| `Runs.RunFrom` | test/test_btree.cpp:16-90 | the same from any valid directory whose table is the reference's |
| `Runs.StepBtree` | sources/btree_dir.cpp:362-425 | one operation keeps the directory valid, leaves the specified table and gives the specified answer; reopening reads back only blocks and header |
| `Runs.StepSimple` | sources/files.cpp:394-424 | the reference map answers every operation as specified |
| `Runs.ListingOf` | sources/btree_dir.cpp:706-731 | a listing without repetitions is, as a multiset, the set of entries of the table |
| `Runs.IterateAsked` | sources/files.h:392-400 | over any valid directory and callback: the visit is the documented one, ending at the first refusal, iff nothing in the table is refused except, at most, the entry with the greatest name |
| `Runs.StopsExactly` | sources/btree_dir.cpp:706-731 | the same of any full listing that ends with its greatest entry |
| `Runs.RefusedCases` | sources/files.h:392-400 | nothing refused: documented; two entries refused: not |
| `Runs.AnswersIgnored` | sources/btree_dir.cpp:706-714 | with a callback that always refuses, the B-tree visits both of any two entries and the reference one |
| `Runs.LookupBoth` | sources/btree_dir.cpp:362-366 | B-tree and reference lookups agree iff the name has at most 255 bytes |
| `SimpleDirectories.SimpleDirectory.GetEntry` | sources/files.cpp:394-402 | finds exactly what the map holds |
| `SimpleDirectories.SimpleDirectory.AddEntry` | sources/files.cpp:404-412 | overlong names are an error; a present name is refused and the map unchanged; otherwise exactly one binding is added |
| `SimpleDirectories.SimpleDirectory.RemoveEntry` | sources/files.cpp:414-424 | reports the binding and removes exactly it |
| `SimpleDirectories.SimpleDirectory.IterateOverEntries` | sources/files.h:444-451 | visits distinct entries of the map, all unless the callback refuses, and none after a refusal |
| `SimpleDirectories.SimpleDirectory.Empty` | sources/files.h:453 | true iff the map is empty |
| `Directory.BtreeDirectory.GetEntry` | sources/btree_dir.cpp:362-382 | returns exactly what the table holds, an error for overlong names, and changes no tree |
| `Directory.BtreeDirectory.AddEntry` | sources/btree_dir.cpp:402-425 | keeps validity; adds exactly one binding iff the name is new, whatever bytes it has; pages come from the front of the free list, and the stream grows only once that is used up |
| `Directory.BtreeDirectory.RemoveEntry` | sources/btree_dir.cpp:612-631 | keeps validity; reports and removes exactly the named binding; freed pages go in front of the free list and the stream keeps its size |
| `Directory.BtreeDirectory.IterateOverEntries` | sources/btree_dir.cpp:726-731 | visits the tree in preorder, and so every entry of the table exactly once, whatever the callback answers |
| `Directory.BtreeDirectory.WalkLists` | sources/btree_dir.cpp:706-731 | the walk lists the table and ends with the greatest name |
| `Directory.BtreeDirectory.RecursiveIterate` | sources/btree_dir.cpp:706-714 | visits a subtree in preorder; the depth guard never fires |
| `Directory.BtreeDirectory.Empty` | sources/btree_dir.cpp:752-756 | a root without entries means an empty table, and conversely |
| `Directory.BtreeDirectory.FindNode` | sources/btree_dir.cpp:337-352 | finds the entry, or a leaf slot whose neighbours enclose a name stored nowhere in the tree; the loop never runs out |
| `Directory.BtreeDirectory.StepDown` | sources/btree_dir.cpp:342-350 | the child chosen encloses the name, which no node above stores |
| `Directory.BtreeDirectory.Locate` | sources/btree_dir.cpp:362-382 | a lookup succeeds iff the name is in the table, and then at an entry with its id and type |
| `Directory.BtreeDirectory.GetRootNode` | sources/btree_dir.cpp:354-360 | the root, if any, is cached and shows the tree |
| `Directory.BtreeDirectory.RetrieveNode` | sources/btree_dir.cpp:313-327 | the cached or freshly read node shows the tree and its parent; nothing else in the cache changes; the parent check holds |
| `Directory.BtreeDirectory.ReadNode` | sources/btree_dir.cpp:384-391 | reads the node that the bytes of the block give |
| `Directory.BtreeDirectory.WriteNode` | sources/btree_dir.cpp:393-400 | the block has the bytes of the node and decodes to it; other blocks are unchanged |
| `Directory.BtreeDirectory.SetNode` | sources/btree_dir.h:83-111 | changing a cached node makes it dirty, so cache over blocks still shows the changed tree |
| `Directory.BtreeDirectory.SetParent` | sources/btree_dir.h:83-111 | changing a parent number keeps cache and tree coherent |
| `Directory.BtreeDirectory.AdjustChildrenInCache` | sources/btree_dir.cpp:427-435 | exactly the cached children are given the new parent, which re-parents all of them in the tree |
| `Directory.BtreeDirectory.AdoptInCache` | sources/btree_dir.cpp:427-435 | of the listed nodes exactly the cached ones get the new parent and become dirty; every other cached node is as before |
| `Directory.BtreeDirectory.InsertAndBalance` | sources/btree_dir.cpp:438-477 | after cascading splits the tree is a B-tree again, occupied 6 to 13, with exactly the new entry gained; the stream grows only once the free list is used up |
| `Directory.BtreeDirectory.PlaceEntry` | sources/btree_dir.cpp:441-444 | entry and new child go to the slot between the keys that enclose the entry |
| `Directory.BtreeDirectory.SplitUp` | sources/btree_dir.cpp:446-476 | splitting an overfull node upwards loses and gains nothing and restores occupancy |
| `Directory.BtreeDirectory.SplitNode` | sources/btree_dir.cpp:448-457 | 14 entries become 6 and 7 around the entry at index 6, in a page taken from the free list if it has one |
| `Directory.BtreeDirectory.MoveHalf` | sources/btree_dir.cpp:451-457 | entries and children behind the middle move to the new node, which becomes the parent of those children |
| `Directory.BtreeDirectory.GrowRoot` | sources/btree_dir.cpp:458-468 | a fresh root holds the middle entry over the two halves |
| `Directory.BtreeDirectory.PlantRoot` | sources/btree_dir.cpp:412-419 | the first entry makes a one-leaf tree |
| `Directory.BtreeDirectory.ReplaceWithSubEntry` | sources/btree_dir.cpp:479-496 | exactly the entry is lost, its predecessor takes its place, and only the returned leaf may have one entry too few |
| `Directory.BtreeDirectory.LastLeaf` | sources/btree_dir.cpp:488-490 | reaches the leaf at the end of the path of last children |
| `Directory.BtreeDirectory.MoveUp` | sources/btree_dir.cpp:491-493 | the last entry of the leaf replaces the entry above it |
| `Directory.BtreeDirectory.DelNode` | sources/btree_dir.cpp:498-504 | exactly the node leaves tree and cache, its page becomes the head of the free list |
| `Directory.BtreeDirectory.FindSibling` | sources/btree_dir.cpp:506-521 | the right neighbour, or for a last child the left one, with the index of the entry between; the checks hold |
| `Directory.BtreeDirectory.FindChild` | sources/btree_dir.cpp:506-513 | finds the first position of a page number, or the end iff it does not occur |
| `Directory.BtreeDirectory.RotateNodes` | sources/btree_dir.cpp:523-553 | both neighbours and the entry between are joined and divided at the middle; moved children get their new parent |
| `Directory.BtreeDirectory.RotateData` | sources/btree_dir.cpp:525-550 | the joined entries and children are divided at the middle and the middle entry becomes the separator |
| `Directory.BtreeDirectory.MergeNodes` | sources/btree_dir.cpp:555-569 | left takes separator, entries and children of right, and the page of right becomes the head of the free list |
| `Directory.BtreeDirectory.MergeData` | sources/btree_dir.cpp:560-567 | the parent loses separator and child, the left node holds the joined contents |
| `Directory.BtreeDirectory.Rebalance` | sources/btree_dir.cpp:585-609 | with that neighbour: merged iff they have fewer than 13 entries together, evened out otherwise; no entry is lost and at most the parent is short by one |
| `Directory.BtreeDirectory.BalanceUp` | sources/btree_dir.cpp:572-610 | restores the B-tree with occupancy 6 to 13 from any tree short by one entry in one node, keeping all entries; pages are only freed; the depth guard never fires |
| `Directory.BtreeDirectory.DropRoot` | sources/btree_dir.cpp:576-583 | the only child of an empty root becomes the root; the root page becomes the head of the free list |
| `Directory.BtreeDirectory.ReadFreePage` | sources/btree_dir.cpp:131-139 | reads bytes 4 to 7 and 8 to 11 as little-endian page numbers |
| `Directory.BtreeDirectory.WriteFreePage` | sources/btree_dir.cpp:141-147 | the block becomes four zeros, the two little-endian page numbers and zeros; it also reads as an empty node |
| `Directory.BtreeDirectory.AllocatePage` | sources/btree_dir.cpp:149-169 | never a live page: the head of the free list, or the page behind the stream's end iff the list is empty; pages stay partitioned and the free list well linked |
| `Directory.BtreeDirectory.TakePage` | sources/btree_dir.cpp:149-169 | with free pages: the head, the list loses exactly it, the stream keeps its size; without: the page behind the end, the stream grows by one; it reads as an empty node and live pages are untouched |
| `Directory.BtreeDirectory.PopFreePage` | sources/btree_dir.cpp:152-168 | exactly the head leaves the free list, whose new head gets its back link cleared |
| `Directory.BtreeDirectory.DeallocatePage` | sources/btree_dir.cpp:171-194 | a live page goes in front of the free list; only a number equal to the page count shortens the stream |
| `Directory.BtreeDirectory.PushFreePage` | sources/btree_dir.cpp:178-193 | the page becomes the head, and the former head links back to it |
| `Directory.BtreeDirectory.FlushCache` | sources/btree_dir.cpp:262-275 | every page of the tree is seen as before, the blocks alone hold the tree, only blocks of dirty nodes change, a cache of more than 8 nodes is empty afterwards and another one kept, clean |
| `Directory.BtreeDirectory.WriteDirty` | sources/btree_dir.cpp:264-272 | all cached nodes are clean afterwards and otherwise the same, and only blocks of dirty nodes change |
| `Directory.BtreeDirectory.WriteBack` | sources/btree_dir.cpp:264-270 | one node's block gets the node's bytes, the node is clean, all other blocks and the directory are unchanged |
| `Directory.BtreeDirectory.BlockOf` | sources/btree_dir.cpp:393-400 | a buffer with any previous contents decodes to the node after serialization |
| `Directory.BtreeDirectory.AllRecordable` | sources/btree_dir.h:19-22 | every node of a valid directory of NUL-free names fits a block and survives serialization |
| `Directory.BtreeDirectory.Rebuild` | sources/btree_dir.cpp:733-750 | the table is unchanged and, if there was a root, no page is free: there are as many blocks as nodes |
| `Directory.BtreeDirectory.Subflush` | sources/btree_dir.cpp:329-335 | rebuilds, leaving no free page, iff there is a root and more than five pages and more than two thirds of all are free; otherwise tree, free list and stream size stay; the table is unchanged and the blocks alone hold the tree |
| `Directory.BtreeDirectory.Flush` | sources/files.cpp:230-259 | blocks and header alone are an image of the table, although the header is written only if a word was set; when it rebuilds is stated as for Subflush |
| `Directory.BtreeDirectory.constructor` | sources/files.cpp:160-192 | opening an image gives a valid directory with the image's table |
| `Directory.FreshImage` | sources/files.cpp:160-169 | a missing header over an empty stream is an image of the empty directory |
| `Directory.BtreeDirectory.SetRootPage` | sources/files.h:56-62 | sets the word and marks the header for writing |
| `Directory.BtreeDirectory.SetStartFreePage` | sources/files.h:64-70 | sets the word and marks the header for writing |
| `Directory.BtreeDirectory.SetNumFreePage` | sources/files.h:72-78 | sets the word and marks the header for writing |
| `Directory.BtreeDirectory.Sound` | sources/btree_dir.h:15-17 | a valid directory has as many blocks as nodes and free pages, at most 2^20, and at most 8 levels |
| `Directory.BtreeDirectory.RoomForEntries` | sources/btree_dir.cpp:149-169 | fewer than 6 * (2^20 - 16) entries leave room for any insertion |
| `Directory.BtreeDirectory.FewLeft` | sources/btree_dir.cpp:329-335 | when a flush decides to rebuild, so few nodes are left that the new tree has room |
| `Directory.DueExactly` | sources/btree_dir.cpp:331-332 | the rebuilding test means more than five pages and more than two thirds of all |
| `Directory.BtreeDirectory.ValidateFreeList` | sources/btree_dir.cpp:633-647 | on any blocks and header words: passes iff a doubly linked list of that many free pages starts at the head |
| `Directory.BtreeDirectory.ValidateBtreeStructure` | sources/btree_dir.cpp:649-655 | on any readable tree: passes iff the root passes by itself |
| `Directory.BtreeDirectory.ValidateNode` | sources/btree_dir.cpp:277-301 | on any readable tree: passes iff the depth is at most 32, the names never decrease, a node with a parent has 6 to 13 entries, and each entry lies between the last and first entries of its two children |
| `Directory.BtreeDirectory.ValidateAround` | sources/btree_dir.cpp:289-298 | one entry against its two children, whatever the verdicts on them |
| `Directory.BtreeDirectory.ValidPasses` | sources/btree_dir.cpp:633-655 | both checks pass every valid directory |
| `Checks.BrokenPasses` | sources/btree_dir.cpp:294-295 | a tree out of order two levels down passes |
| `Checks.Unnoticed` | sources/btree_dir.cpp:277-301 | whatever replaces the entries of a leaf that does not hang from the root, the verdict is the same |
| `Checks.BtreePasses` | sources/btree_dir.cpp:277-301 | every node of a B-tree is readable and passes |
| `Checks.TrackStep` | sources/btree_dir.cpp:638-645 | following one link stays on every list there is, or shows that there is none |
| `Checks.ListApart` | sources/btree_dir.cpp:633-647 | right back links keep a list from running into itself |
| `Checks.ListIsFree` | sources/btree_dir.cpp:633-647 | a list of pages of the stream that passes is a free list in good order |
| `Directory.BtreeDirectory.IsSorted` | sources/btree_dir.cpp:281-282 | true iff names never decrease |
| `Theorems.ValidIsBtree` | sources/btree_dir.cpp:479-610 | what cache over blocks shows from the root of any valid directory is a B-tree: 6 to 13 entries, one child more than entries, leaves at equal depth, names strictly ordered across the tree, at most 8 levels |
| `Theorems.SubtreeIsBtree` | sources/btree_dir.cpp:277-301 | the same of every subtree within its key interval |
| `Theorems.Conservation` | sources/btree_dir.cpp:131-194 | pages = nodes + free pages; every page is exactly one of the two; the free list is duplicate-free, linked both ways and as long as the header says |
| `Store.PageCount` | sources/btree_dir.cpp:149-194 | a partition of the pages counts up |
| `Theorems.OneParent` | sources/btree_dir.cpp:427-435 | every node but the root is in exactly one slot of exactly one node, its recorded parent |
| `Theorems.CachedParent` | sources/btree_dir.cpp:437-471 | a cached node names its true parent, which is cached, and only the root names none |
| `Forest.UniqueKey` | sources/btree_dir.h:37-42 | no name is stored twice anywhere in a tree |
| `Forest.UniqueAt` | sources/btree_dir.cpp:342-350 | at each height at most one node's interval contains a key |
| `Forest.KeyNotBelow` | sources/btree_dir.cpp:342-350 | no entry of a higher node lies in the interval of a lower one |
| `Names.RankEmbedsOrder` | sources/btree_dir.h:37-42 | the order of names of any length embeds in the reals, equal ranks meaning equal names |
| `Names.LessMeans` | sources/btree_dir.h:37-42 | a name comes before another iff at their first difference it ends or has the smaller byte |
| `Search.LowerBound` | sources/btree_dir.cpp:344 | binary search: everything before the index is smaller, nothing from it on is |
| `Search.Descend` | sources/btree_dir.cpp:344-350 | the slot found by the search leads to the only child that can hold the name |
| `Search.AbsentHere` | sources/btree_dir.cpp:345-349 | a name missing from a node that encloses it is missing from the whole level |
| `Steps.SplitOk` | sources/btree_dir.cpp:446-457 | splitting keeps every node well formed, the new node pending |
| `Steps.ChildInsertOk` | sources/btree_dir.cpp:438-444 | hanging a pending node behind its left half keeps the tree well formed |
| `Steps.LeafInsertOk` | sources/btree_dir.cpp:438-444 | inserting into a leaf slot keeps the tree well formed |
| `Steps.MergeOk` | sources/btree_dir.cpp:555-569 | merging keeps every node and link well formed |
| `Steps.RotateOk` | sources/btree_dir.cpp:523-553 | evening out keeps every node and link well formed |
| `Steps.RotateIsMergeSplit` | sources/btree_dir.cpp:523-569 | evening out equals merging, splitting and hanging the right node again |
| `RootSteps.NewRootOk` | sources/btree_dir.cpp:458-468 | a new root over a split root is a well-formed tree |
| `RootSteps.CollapseOk` | sources/btree_dir.cpp:576-583 | the only child of an empty root is a well-formed tree |
| `RootSteps.LeafEraseOk` | sources/btree_dir.cpp:482-486 | erasing from a leaf keeps the tree well formed |
| `RootSteps.ReplaceOk` | sources/btree_dir.cpp:487-495 | drawing the predecessor up keeps order throughout the path down to its leaf |
| `Contents.SplitGains` | sources/btree_dir.cpp:446-457 | splitting removes the middle entry and nothing else |
| `Contents.MergeSame` | sources/btree_dir.cpp:555-569 | merging keeps the set of stored entries |
| `Contents.RotateSame` | sources/btree_dir.cpp:523-553 | evening out keeps the set of stored entries |
| `Contents.ReplaceLoses` | sources/btree_dir.cpp:487-495 | predecessor replacement loses exactly the replaced entry |
| `Contents.LeafEraseLoses` | sources/btree_dir.cpp:482-486 | erasing from a leaf loses exactly the erased entry |
| `Insertion.InsertStepShape` | sources/btree_dir.cpp:438-444 | one insertion step, with or without a new child, keeps the shape |
| `Insertion.SplitBelow` | sources/btree_dir.cpp:446-476 | after a split the separator and the new node are ready for insertion one level up |
| `Insertion.SplitAtRoot` | sources/btree_dir.cpp:458-468 | splitting the root and growing a new one gives a tree of legal occupancy with the same entries |
| `Deletion.MergeBalances` | sources/btree_dir.cpp:591-597 | merging a node short by one moves the shortage, if any, to the parent |
| `Deletion.RotateBalances` | sources/btree_dir.cpp:599-606 | evening out a node short by one leaves no shortage at either neighbour |
| `Deletion.HasNeighbour` | sources/btree_dir.cpp:506-521 | every node but the root has a neighbour under its parent |
| `Deletion.LeftOrRight` | sources/btree_dir.cpp:593-605 | comparing last and first entry tells which neighbour is the left one |
| `Traversal.PreorderVisitsAll` | sources/btree_dir.cpp:706-714 | the walk visits every stored entry and no key twice |
| `Traversal.PreorderLast` | sources/btree_dir.cpp:706-714 | the walk ends with the greatest entry, the last of the rightmost leaf |
| `Traversal.TreeInOrder` | sources/btree_dir.h:37-42 | read in order, the tree is the strictly increasing sequence of what it stores |
| `Size.TreeSize` | sources/btree_dir.h:15-17 | a tree of height h needs at least 1 + 2 * (1 + 7 + ... + 7^(h-1)) pages |
| `Size.DepthBound` | sources/btree_dir.h:15-17 | at most 12 levels with 32-bit page numbers, at most 8 with 2^20 pages |
| `Size.ThirteenNamesPerPage` | sources/btree_dir.h:15-17 | no page holds more than 13 of the distinct names |
| `Size.SixNamesPerPage` | sources/btree_dir.h:15-17 | non-root pages hold at least six distinct names each |
| `Tables.FewPages` | sources/btree_dir.cpp:149-169 | a table within the entry limit stays at least 15 pages below 2^20 |
| `Tables.TreeRecordable` | sources/btree_dir.h:19-22 | every node of a legal tree fits its block |
| `Tables.EmptyRoot` | sources/btree_dir.cpp:752-756 | a root without entries iff an empty table |
| `Store.PagesDistinct` | sources/btree_dir.cpp:131-147 | page offsets are pairwise distinct iff there are at most 2^20 pages |
| `Store.PageIndexWraps` | sources/btree_dir.cpp:384-400 | page numbers address blocks modulo 2^20 |
| `Store.TreeSeen` | sources/btree_dir.cpp:313-327 | cache over blocks shows the tree whatever is cached |
| `Store.CacheDropped` | sources/btree_dir.cpp:262-275 | if nothing cached is dirty the blocks alone hold the tree |
| `Store.PopPages` | sources/btree_dir.cpp:149-169 | taking the head of the free list keeps the partition and touches no live page |
| `Store.PushPages` | sources/btree_dir.cpp:171-194 | freeing a page keeps the partition and touches no other live page |
| `Store.ExtendPages` | sources/btree_dir.cpp:152-158 | a zero page appended to a stream without free pages is a fresh empty node |
| `Codec.NodeRoundTrip` | sources/btree_dir.cpp:196-249 | a serialized node reads back whatever follows it in the block |
| `Codec.EncodeNode` | sources/btree_dir.h:19-22 | every storable node fits one block |
| `Codec.EntryRoundTrip` | sources/btree_dir.cpp:210-221 | an entry reads back iff its name holds no NUL |
| `Codec.FreeRoundTrip` | sources/btree_dir.cpp:124-147 | a free page reads back its links and decodes to an empty node |
| `Codec.ZeroPage` | sources/btree_dir.cpp:196-203 | a zero page decodes to an empty node |
| `Buffers.ToBuffer` | sources/btree_dir.cpp:224-249 | the buffer starts with the word 1 and the two counts, then the children as little-endian words, then 292 bytes per entry (name filled up with zeros, id, type); the rest keeps its bytes, no write is out of bounds |
| `Buffers.FromBuffer` | sources/btree_dir.cpp:196-222 | on any bytes: nothing if too short for the counts, an empty node if the first four bytes are zeros, and otherwise the node with the counts, words, names up to the first NUL, ids and types at their places |
| `Layout.NodeLaidOut` | sources/btree_dir.cpp:224-249 | an encoded node has the bytes stated, position by position |
| `Layout.NodeIsRead` | sources/btree_dir.cpp:196-222 | what any bytes decode to, position by position |
| `Layout.FreeLaidOut` | sources/btree_dir.cpp:141-147 | a free page has the bytes stated |
| `Layout.EntryIsRead` | sources/btree_dir.cpp:210-221 | what the 292 bytes of an entry read as |
| `LiteSizes.SizeRoundTrip` | sources/lite_stream.cpp:156-177 | the reported length undoes the stored size, for every length, block size and overhead |
| `LiteSizes.RealSizeMonotone` | sources/lite_stream.cpp:164-177 | longer streams never report less |
| `LiteSizes.MinimalSize` | sources/lite_stream.cpp:156-177 | the size needed for the reported length never exceeds the actual size |
| `LiteSizes.SizeIsSum` | sources/lite_stream.cpp:156-162 | the size formula is the header plus the stored forms of all blocks, added up |
| `LiteSizes.SizeAtBlock` | sources/lite_stream.cpp:113-162 | the stored size compared with the place of any block |
| `LiteBlocks.Params.WriteRep` | sources/lite_stream.cpp:113-149 | writing one block changes its text and no other block's, gaps becoming zero blocks |
| `ByteStreams.Written` | sources/streams.h:28-33 | the bytes of a write, one by one, a gap being zeros |
| `ByteStreams.Resized` | sources/streams.h:38-42 | the bytes of a resize, one by one |
| `LiteStreams.LiteStream.Open` | sources/lite_stream.cpp:15-62 | fails iff a size is out of range or the header is cut short; otherwise an empty stream gets the new header and holds no text, and another is kept and holds the text it stores under the key of its header |
| `LiteStreams.LiteStream.constructor` | sources/lite_stream.cpp:15-62 | an underlying stream that stores a text gives a valid object with that text |
| `LiteStreams.LiteStream.ReadBlock` | sources/lite_stream.cpp:70-111 | returns the block's part of the text, or the error for block numbers out of range |
| `LiteStreams.LiteStream.OpenStored` | sources/lite_stream.cpp:80-110 | stored bytes open to the text they stand for, zeros included; verification never fails |
| `LiteStreams.LiteStream.WriteBlock` | sources/lite_stream.cpp:113-149 | after a full or final block the text is the old one with the block overwritten, stored exactly as stated for StoreBlock; or the error for block numbers out of range |
| `LiteStreams.LiteStream.StoreBlock` | sources/lite_stream.cpp:113-149 | zeros are stored as zeros without a draw; other text as IV, ciphertext and tag, the IV being the first of the strings drawn now that is not all zeros; nothing else is written, and no draw is used twice |
| `LiteStreams.LiteStream.DrawIv` | sources/lite_stream.cpp:133-136 | the IV is the first of the random strings drawn that is not all zeros |
| `LiteStreams.ZeroBlock` | sources/lite_stream.cpp:88-92 | raw zeros never come from sealed text |
| `LiteStreams.LiteStream.AdjustLogicalSize` | sources/lite_stream.cpp:156-162 | the underlying stream is resized to the size the length needs |
| `LiteStreams.LiteStream.Size` | sources/lite_stream.cpp:151-154 | the reported size is the length of the text |
| `LiteStreams.LiteStream.ReadPart` | sources/streams.cpp:170-190 | reads part of a block, short at the end of the text; an error only if something is to be read from a block out of range |
| `LiteStreams.LiteStream.Read` | sources/streams.cpp:218-238 | reads exactly the range of the text, short only at its end; an error iff a block out of range is reached |
| `LiteStreams.LiteStream.ReadThenWrite` | sources/streams.cpp:200-216 | overwrites part of a block and keeps the rest, or changes nothing if the block is out of range |
| `LiteStreams.LiteStream.UncheckedWrite` | sources/streams.cpp:249-263 | block-wise writing is one write into the text of what fits below the last block; an error iff not all does |
| `LiteStreams.LiteStream.ZeroFill` | sources/streams.cpp:265-279 | extends the text with zeros as far as blocks go; an error iff that is not far enough |
| `LiteStreams.LiteStream.Resize` | sources/streams.cpp:281-311 | cuts the text or extends it with zeros, on sparse and other streams; exactly when that fails, and what text is then left |
| `LiteStreams.LiteStream.Shrink` | sources/streams.cpp:287-297 | the text becomes its prefix, its last block stored anew; fails iff that block is partial and out of range |
| `LiteStreams.LiteStream.Grow` | sources/streams.cpp:298-310 | the text is extended with zeros, either written or left as a sparse gap; exactly when that fails |
| `LiteStreams.LiteStream.Write` | sources/streams.cpp:240-247 | overwrites and extends the text, a gap reading as zeros; exactly when that fails, and what has then been written |
| `StreamRuns.Run` | sources/streams.cpp:170-311 | any run of reads, writes, resizes and size queries in range gives the answers of a plain byte string, and no two blocks sealed on the way share a draw |
| `StreamRuns.Step` | sources/streams.cpp:170-311 | the same of one operation |
| `LitePaths.TranslatePath` | sources/lite_fs.cpp:62-91 | the scanning loop translates component by component and stops at the first failure |
| `LitePaths.TranslateJoin` | sources/lite_fs.cpp:62-131 | translation of two paths joined by a slash is the join of the translations |
| `LitePaths.TranslateBack` | sources/lite_fs.cpp:62-131 | translators that undo each other on components undo each other on paths |
| `LitePaths.FailsWith` | sources/lite_fs.cpp:62-131 | translation fails with an error iff the first component that fails does |
| `LitePaths.FailsExactly` | sources/lite_fs.cpp:62-131 | translation fails iff some component's does |
| `LiteNames.EncryptPath` | sources/lite_fs.cpp:62-91 | encrypts every non-empty component and keeps all slashes |
| `LiteNames.DecryptPath` | sources/lite_fs.cpp:93-131 | decrypts every non-empty component and keeps all slashes |
| `LiteNames.EncryptSlice` | sources/lite_fs.cpp:72-83 | an error iff longer than 2000 bytes; otherwise the text decodes to the synthetic IV of the component followed by the component masked with the keystream of that IV |
| `LiteNames.DecryptSlice` | sources/lite_fs.cpp:104-124 | the exact outcome for every text: not base 32, too long, overrun, or accepted iff the first 16 bytes are the synthetic IV of what the rest unmasks to |
| `LiteNames.PathRoundTrip` | sources/lite_fs.cpp:62-131 | encryption fails iff a component exceeds 2000 bytes; otherwise decryption returns the path |
| `LiteNames.PathJoin` | sources/lite_fs.cpp:62-91 | encrypting a/b is encrypting a and b separately |
| `LiteNames.OverrunExactly` | sources/lite_fs.cpp:111-121 | a component is read behind its end iff it is base-32 text of fewer than 26 characters |
| `LiteNames.NoOverrun` | sources/lite_fs.cpp:93-131 | paths whose components are empty or have 26 characters are decrypted without overrun, and all encrypted paths are such |
| `LiteNames.ComponentBack` | sources/lite_fs.cpp:74-123 | an encrypted component has at least 26 characters, has no slash and decrypts to the component |
| `Base32.RoundTrip` | sources/mystring.cpp:242-318 | decoding the text form gives every byte string back |
| `Base32.PlainText` | sources/mystring.cpp:215-259 | the text form has no slash and is empty only for the empty string |
| `Base32.EncodeLoop` | sources/mystring.cpp:242-259 | ceil(8n / 5) characters; character g is the letter of the alphabet at the number that bits 5g to 5g + 4 make |
| `Base32.DecodeLoop` | sources/mystring.cpp:285-318 | the loop ors every character's bits into place or fails on the first foreign character |
| `Base32.DigitIs` | sources/mystring.cpp:292-310 | a character has value v below 32 iff it is at place v of the capital or the small alphabet |
| `Base32.DigitRange` | sources/mystring.cpp:292-310 | only NUL has a value above 31, namely 32 |
| `Base32.GroupIs` | sources/mystring.cpp:218-259 | the index of a character is the number of its five bits |
| `Base32.SpreadBack` | sources/mystring.cpp:218-283 | spreading five bits over two bytes undoes extracting them |
| `Doubling.BitshiftLeft` | sources/crypto.cpp:47-57 | the in-place loop shifts the buffer's first bytes and leaves the rest |
| `Doubling.ShiftDoubles` | sources/crypto.cpp:47-57 | the shift doubles the big-endian value modulo 256^length, for every length |
| `Doubling.SivDbl` | sources/crypto.cpp:59-65 | the buffer becomes its doubled block |
| `Doubling.DblIsFieldDouble` | sources/crypto.cpp:59-65 | doubling is multiplication by x in GF(2^128) with the polynomial of section 2.3 of RFC 5297 |
| `Doubling.DblInjective` | sources/crypto.cpp:59-65 | doubling loses nothing |
| `Xor.XorByteBit` | sources/crypto.cpp:59-65 | each bit of an exclusive or is set iff it is set on exactly one side |
| `Siv.ComputeS2V` | sources/crypto.cpp:75-111 | S2V of section 2.4 of RFC 5297 on the associated data, if any, and the text |
| `Siv.EncryptAndAuthenticate` | sources/crypto.cpp:113-131 | section 2.6 of RFC 5297: the synthetic IV, and byte for byte the text masked with the keystream from the IV with the top bits of bytes 8 and 12 cleared |
| `Siv.DecryptAndVerify` | sources/crypto.cpp:133-152 | section 2.7 of RFC 5297: the text unmasked in the same way, accepted iff its synthetic IV is the given one |
| `Siv.SameKeystream` | sources/crypto.cpp:122-145 | IVs that differ in the two cleared bits only give the same result |
| `Siv.RoundTrip` | sources/crypto.cpp:113-152 | decryption of an encryption succeeds with the text, for every length and associated data |
| `Siv.AcceptedIffEncrypted` | sources/crypto.cpp:113-152 | a message is accepted with a text iff it is what that text encrypts to |
| `Hkdf.Expand` | sources/crypto.cpp:232-257 | the first bytes of T(1), T(2), ... of section 2.3 of RFC 5869: each output block is the HMAC of the block before it, the info and its number from 1 on; an error iff more than 255 digests are asked for; the one-byte counter never wraps before use |
| `Hkdf.OkmChained` | sources/crypto.cpp:245-256 | every block of the output continues the chain |
| `Hkdf.ExpandTwice` | sources/crypto.cpp:232-257 | of two expansions of the same key and info the shorter output is a prefix of the longer |
| `Hkdf.Derive` | sources/crypto.cpp:259-279 | extraction is applied iff there is a salt |
| `FileTables.FileTable.OpenAs` | sources/file_table.cpp:175-209 | reuses the cached object of the type or makes a new one; the id leaves the queue, whose order is kept; the table stays in order iff no object of another type is held |
| `FileTables.FileTable.Unqueue` | sources/file_table.cpp:180-183 | the id leaves the queue of closed files and the others keep their order |
| `FileTables.FileTable.Reuse` | sources/file_table.cpp:187-191 | one more hold on the cached object, counted |
| `FileTables.FileTable.Insert` | sources/file_table.cpp:194-208 | a new object with exactly one hold joins the table |
| `FileTables.FileTable.CreateAs` | sources/file_table.cpp:211-233 | read-only and already cached ids are errors, in this order; otherwise exactly one held object is added |
| `FileTables.FileTable.Close` | sources/file_table.cpp:235-262 | unknown objects and closed ones are errors; otherwise the hold goes, and with the last one the file is removed if unlinked, or saved and queued; no other file leaves while at most 100 are queued, and the 101st drives out exactly the eight queued longest, all saved and held by nobody |
| `FileTables.FileTable.Release` | sources/file_table.cpp:245-261 | the exact table and queue after a hold ends |
| `FileTables.FileTable.Finalize` | sources/file_table.cpp:247-290 | the exact table and queue after a last hold ends |
| `FileTables.FileTable.Eject` | sources/file_table.cpp:264-273 | exactly the (at most 8) files closed longest leave the table; none is held, all are saved |
| `FileTables.FileTable.Gc` | sources/file_table.cpp:292-296 | below 101 queued files nothing changes; with 101 exactly the first eight leave table and queue |
| `FileTables.FileTable.Unlink` | sources/files.h:254-261 | the 32-bit link count falls by one, wrapping at zero, and the file has to be saved |
| `FileTables.FileTable.SetLinks` | sources/files.h:175-182 | a changed link count has to be saved, an unchanged one not |
| `FileTables.QueueTail` | sources/file_table.cpp:264-273 | dropping the front of the queue keeps queue, counts and holds in agreement |
| `FileTables.Orphan` | sources/file_table.cpp:185-186 | a hold on an object that is no longer in the table breaks the table |

## Left out

- Command line, mounting, passwords, JSON configuration, repair, FUSE operations, platform services, logging.
- AES, GCM, CMAC, HMAC, SHA-256, scrypt and random numbers are parameters with the laws stated where they are used; nothing is claimed about secrecy or unforgeability.
- Crash consistency, concurrent access, locks, and I/O errors.
- The full format's encrypted and authenticated streams, its file header layout, extended attributes, permissions and timestamps; a directory's stream is a sequence of blocks.
- Regular files, symbolic links, and the on-disk form of `SimpleDirectory`.
- Node objects are values kept under their page number; pointers to nodes become page numbers, so the lifetime of node memory is not modelled.
- Directory.BtreeDirectory.constructor: opens images that a flush left, or nothing; corrupted or foreign on-disk data is met only in the two consistency checks.
- Directory.BtreeDirectory.Rebuild: collects the entries with the read-only walk; that the source moves them out of nodes it is about to discard is not modelled. The order in which they are added again is not stated, so neither is the shape of the new tree. Called directly, it requires at most 6 * (2^20 - 16) entries, because a fuller tree may need more pages than can be told apart.
- Directory.BtreeDirectory.AddEntry: a new name requires `HasRoom`, because pages from 2^20 on alias others; ids have 32 bytes and types are non-negative.
- Directory.BtreeDirectory.Flush: requires NUL-free names, because others do not survive storage.
- Runs.RunBoth: covers names of at most 255 bytes, with room for what is added and NUL-free names where something is written out, because elsewhere the two directories do differ.
- Directory.BtreeDirectory.ValidateNode: children are required to have entries, because the source looks at their first and last ones unchecked.
- LiteStreams.LiteStream.WriteBlock: is for blocks that are full or end the text and leave no gap behind a partial block, as all its callers' are; what is read after another one depends on the cipher.
- LiteStreams.LiteStream.Open: the derivation of the session key is a function of the header; the option to skip verification is not modelled.
- LiteNames.DecryptPath: `OutOfBounds` stands for whatever reading behind the buffer does.
- LiteNames.EncryptPath: the caching of translated names and the handling of a leading slash outside the loop are not modelled.
- FileTables.FileTable.OpenAs: opening the underlying files always succeeds, and what a file object holds is reduced to its link count and whether it is saved.
- The destructor of the file table, and the drawing of directories as graphs.
