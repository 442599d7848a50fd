# henDB/cpplite, verified

cpplite is a small storage engine in C++: a B+tree over a paged file, a buffer pool with an
LRU-K evictor, tables in segment files behind a bounded cache of file handles, and the codecs
and the catalog above them. This project models those parts in Dafny and proves what they are
for. `dafny verify dfyconfig.toml` verifies the whole project.

## How it is built

**Pages and the pager.** `Pages` has the page images, `PagerModel` the class `Pager`: the page
map of one file, the list of free pages, overflow chains and the cell operations of the two page
managers, each with its error results (page full, duplicate key, key not found).

**The B+tree.** `TreeShape` states what a well-formed tree is, page by page: every page of the
tree has a ghost span (its height and the key range it owns), and every condition is about one
page and its children. `TreeSteps` has the elementary changes of a tree as functions on values
(add or drop a cell, split a leaf or node in its parent, merge two siblings, grow or collapse the
root; borrowing is a merge followed by a split elsewhere) and proves that each keeps the shape.
`TreePaths` treats the cursor stack as a path from the root. `TreeSplits` and `TreeMerges` add
the occupancy bounds and connect the steps to what the program writes to pages. `TreeStore` keeps
the overflow chains of different keys apart, and `TreeAside` says what the operations leave alone
beside the tree. `BTreeModel` is the program: the class `BTreeCursor`
with its search, stepping, insertion with cascading splits and removal with borrowing, merging
and rebalancing. `TreeRuns` performs any sequence of insertions and removals from a new file.
`TreeTheorems` derives from the page-by-page definition an in-order walk, the leaf list and the
single use of every page, and `TextbookTrees` proves that definition equivalent to the textbook's
recursive one.

**Buffer pool.** `EvictorModel` is the LRU-K evictor; its victim is specified on the trace of all
that happened to it. `PoolState` has the invariants of the pool on values, `BufferPoolModel` the
classes `BufferPool` and `PageGuard`. Every method is one step under the pool latch, so that an
interleaving of threads is a sequence of them. The pool runs on the storage engine below.

**Storage.** `FileCacheModel` is the doubly linked list with its map; `StorageModel` the engine on
segment files, with the flat page map as its ghost field `flat`.

**Codecs and catalog.** `Encoding`, `RecordModel` and `TableCodec` are the byte formats: loops in
methods, what they compute in functions, the round trips in lemmas. `CatalogModel` keeps the live
tables and the schema tree, which is a `BTreeCursor`, in step; `CatalogRuns` creates and drops
tables in a new file and opens the catalog again on what is left, and `CatalogCases` has the cases
in which that is not what was there before.

## Where the code does not do what it says

* `borrow_from_leaf_sibling` asserts that the leaf is not the last child of its parent
  (lib/btree/utils.cpp:332), while the code behind it handles the last child. The constant
  `asserts` of a cursor says whether assertions are compiled in. `Remove` ends in a failed
  assertion if and only if they are and the leaf underflows as the last child; otherwise it does
  all that is promised. `Run` stops exactly at the first such operation. The largest key is always
  in a last child, and `AbortingRun` reaches the failure with two insertions and a removal.
* `ensure_free_frame` takes a frame from the evictor without erasing its entry in the frame table
  or writing it back (lib/pager/bufferpool/bufferpool.cpp:49-53). The model does the same.
  `FetchPage` and `NewPage` keep the partition of frames asserted at
  lib/pager/bufferpool/bufferpool.cpp:21 if and only if that branch is not taken, and after it two
  pages share one frame, which holds the stored bytes of the page that was fetched: what was written
  to the other one and not flushed is lost. `SharedFrameExample` reaches the branch with one frame
  and two pages, and `SizeAssertExample` reaches the failed assertion.
* `evict_page` drops a frame without writing it back: what was written and not flushed is lost
  (`LostWriteExample`).
* `FileCache::put` on a key that is there loses the map entry (lib/storage/filecache.cpp:66-71).
  `Put` keeps the cache valid if and only if the key is not there (`PutTwiceExample`).
* `CatalogManager::create_table` under a name in use leaves the old entry in the schema tree:
  `CreateTable` keeps memory and tree in step if and only if the name is new (`NameInUseExample`).
* A catalog looks for the schema tree on page 2 (lib/catalog/catalog.cpp:11-16 and 34-35). The first
  creation that finds as many live tables as a leaf holds splits the leaf there and moves the root
  away, and page 2 stays as it was (lib/btree/utils.cpp:127-128, 160-169 and 574-578). A catalog
  opened again has the tables of before that creation, and so those of the catalog that ran if and
  only if they are the same: always when there was no such creation (`RunAndReopen`). Of more tables
  than a leaf holds it has the first ones only (`CreateAll`, `LostTableExample`).
* Names and column lists are written with 16-bit lengths: a table is read back as it was written
  if and only if its lengths fit (`TableRoundTrip`), and the tables in a schema tree are read back
  if and only if the lengths of all of them fit (`Reopened`). A name of 65536 bytes is lost
  (`LongNameIsLost`).
* `drop_table` leaves the names it dropped in the lists of dependencies: the lists are those of the
  live tables if and only if nothing was dropped (`DropLeavesNames`, `StaleListExample`). A name
  that is created again under another table is still dropped with the first one (`StillDropped`),
  which does not happen where the lists are right, as they are in a catalog opened again
  (`KeptByOthers`).

Occupancy limits are any that meet `Config.Sound`: both minima at least 1,
`2 * leafMin <= leafMax + 1`, `2 * nodeMin <= nodeMax`, and maxima no larger than a page holds.
The default limits do.

## Model

| member | source | states |
|---|---|---|
| `PagerModel.SearchCells` | lib/btree/btree.cpp:107-121 | the binary search finds a key exactly when it is there, and otherwise the place where it belongs |
| `PagerModel.FindChildToTraverse` | lib/btree/btree.cpp:93-105 | the upper-bound search: separators up to the index are at most the key, those from it on are larger |
| `PagerModel.Pager.InsertFreelist` | lib/pager/pager.cpp:86-108 | the page becomes the head of the free list, which stays linked and acyclic |
| `PagerModel.Pager.PopFreelist` | lib/pager/pager.cpp:110-143 | takes the head off the free list, or the null page when it is empty |
| `PagerModel.Pager.CreateFreePage` | lib/pager/pager.cpp:162-224 | appends a page to the file and puts it in front of the free list |
| `PagerModel.Pager.CreateNodePage` | lib/pager/pager.cpp:162-224 | appends an empty node page and changes no other page |
| `PagerModel.Pager.CreateLeafPage` | lib/pager/pager.cpp:162-224 | appends an empty leaf page and changes no other page |
| `PagerModel.Pager.CutChunks` | lib/pager/pager.cpp:226-245 | the chunks are exactly ceil(n / chunk) many, none empty or too long, and their concatenation is the stored payload |
| `PagerModel.Pager.TakePages` | lib/pager/pager.cpp:246-272 | the pages of a chain are a prefix of the free list and then new ones, all different and none still free |
| `PagerModel.Pager.WriteOverflowChain` | lib/pager/pager.cpp:226-293 | the chain reads as the payload, lies on exactly those pages, and no other page and nothing but the head of the free list changes |
| `PagerModel.TakenDistinct` | lib/pager/pager.cpp:246-272 | pages taken for a chain are distinct, no longer free, and were free or did not exist before |
| `PagerModel.ChainFrame` | lib/pager/leaf_page/leaf_page_manager.cpp:251-279 | a chain none of whose pages changed still reads the same |
| `PagerModel.FlattenIsChainBytes` | lib/pager/pager.cpp:273-293 | chunks written to linked pages read as their concatenation |
| `PagerModel.Pager.GetPayload` | lib/pager/leaf_page/leaf_page_manager.cpp:251-279 | following the chain of a cell gives its bytes; nothing exactly when the key is not on the page |
| `PagerModel.Pager.InsertNodeCell` | lib/pager/node_page/node_page_manager.cpp:56-115 | adds the cell in key order; page full and duplicate key exactly when they apply, and then nothing changes |
| `PagerModel.Pager.SetCellLeftChild` | lib/pager/node_page/node_page_manager.cpp:132-161 | replaces the child of the cell with the key, or fails when there is none |
| `PagerModel.Pager.SetNodeRightChild` | lib/pager/node_page/node_page_manager.cpp:163-184 | replaces the right child and nothing else |
| `PagerModel.Pager.DeleteNodeCell` | lib/pager/node_page/node_page_manager.cpp:186-227 | removes the cell with the key, or fails when there is none |
| `PagerModel.Pager.UpdateCellKey` | lib/pager/node_page/node_page_manager.cpp:229-253 | replaces the key of a cell in place, or fails when there is none |
| `PagerModel.Pager.WriteCell` | lib/pager/leaf_page/leaf_page_manager.cpp:134-192 | adds the cell in key order; page full and duplicate key exactly when they apply |
| `PagerModel.Pager.InsertLeafCell` | lib/pager/leaf_page/leaf_page_manager.cpp:68-132 | stores the payload in a new chain and adds its cell; on page full or duplicate key nothing changes |
| `PagerModel.Pager.StorePayload` | lib/pager/pager.cpp:295-300 | writes a chain that takes no page in use |
| `PagerModel.Pager.DeleteCell` | lib/pager/leaf_page/leaf_page_manager.cpp:194-249 | removes the cell with the key; on an empty page it does nothing, on a missing key it fails |
| `PagerModel.Pager.SetPrevPage` | lib/pager/leaf_page/leaf_page_manager.cpp:293-327 | replaces the previous-leaf link and nothing else |
| `PagerModel.Pager.SetNextPage` | lib/pager/leaf_page/leaf_page_manager.cpp:293-331 | replaces the next-leaf link and nothing else |
| `SplitCells.SplitCell` | lib/btree/utils.cpp:13-63 | the keys of a page and a new one, sorted and cut: a leaf keeps the larger half left, a node the smaller one, and every key leads to its cell |
| `TreeShape.ChildUnique` | lib/btree/btree.cpp:123-155 | a page hangs in one slot of one parent |
| `TreeShape.LinksMutual` | lib/btree/utils.cpp:146-158 | neighbours in the leaf list name each other, and nobody else does |
| `TreeSteps.AddCellShape` | lib/btree/btree.cpp:354-372 | a new key in the leaf that owns it keeps the tree in shape |
| `TreeSteps.DropCellShape` | lib/btree/btree.cpp:385-400 | taking a cell out of its leaf keeps the tree in shape |
| `TreeSteps.GrowShape` | lib/btree/utils.cpp:160-169 | a new root over one page keeps the tree in shape |
| `TreeSteps.CollapseShape` | lib/btree/utils.cpp:478-481 | a root without cells can be replaced by its only child |
| `TreeSteps.SplitLeafShape` | lib/btree/utils.cpp:102-186 | two new leaves in place of one, linked between its neighbours, keep the tree in shape |
| `TreeSteps.SplitNodeShape` | lib/btree/utils.cpp:188-272 | two new nodes in place of one, with the middle key in the parent, keep the tree in shape |
| `TreeSteps.MergeLeafShape` | lib/btree/utils.cpp:508-564 | two sibling leaves in one, the left one out of the leaf list, keep the tree in shape |
| `TreeSteps.MergeNodeShape` | lib/btree/utils.cpp:431-476 | two sibling nodes and the separator between them in one node keep the tree in shape |
| `TreeSteps.ShiftLeafShape` | lib/btree/utils.cpp:274-318 | moving cells between sibling leaves, with the separator adjusted, keeps the tree in shape |
| `TreeSteps.ShiftNodeShape` | lib/btree/utils.cpp:352-398 | rotating cells between sibling nodes through the separator keeps the tree in shape |
| `TreeSplits.SplitFullLeaf` | lib/btree/utils.cpp:52-54 | both halves of an overfull leaf are within their bounds |
| `TreeSplits.SplitFullNode` | lib/btree/utils.cpp:52-54 | both halves of an overfull node, less the cell that goes up, are within their bounds |
| `TreeMerges.MergeLeafOccupied` | lib/btree/utils.cpp:546-548 | an underfull leaf and a minimal sibling fit one leaf |
| `TreeMerges.MergeNodeOccupied` | lib/btree/utils.cpp:466-470 | an underfull node, a minimal sibling and the separator fit one node |
| `TreePaths.PathPush` | lib/btree/btree.cpp:123-155 | a valid stack with the chosen child on top is a valid stack |
| `TreePaths.PathPop` | lib/btree/btree.cpp:157-190 | a valid stack without its top leads to the parent and the slot of the top |
| `TreeStore.StoreAdd` | lib/btree/btree.cpp:354-383 | a new chain for a new key adds that payload and leaves the payloads of all other keys |
| `TreeStore.StoreDrop` | lib/btree/btree.cpp:385-396 | dropping a key leaves the payloads of all other keys |
| `BTreeModel.BTreeCursor.constructor` | lib/btree/btree.cpp:10-19 | a cursor on a well-formed tree of the file is valid |
| `BTreeModel.BTreeCursor.MoveToKey` | lib/btree/btree.cpp:123-155 | true exactly when the key is in the tree; the stack ends at the leaf that owns the key's range, at the number of smaller keys in it |
| `BTreeModel.BTreeCursor.IsEmpty` | lib/btree/btree.cpp:287-294 | true exactly when the tree maps no key |
| `BTreeModel.BTreeCursor.CurrentKey` | lib/btree/btree.cpp:296-308 | the key under the cursor, which the tree maps; nothing behind the end of a leaf |
| `BTreeModel.BTreeCursor.CurrentValue` | lib/btree/btree.cpp:335-352 | the payload that the tree maps the key to |
| `BTreeModel.BTreeCursor.MoveToFirst` | lib/btree/btree.cpp:23-53 | the stack ends at the least key of the tree |
| `BTreeModel.BTreeCursor.MoveToLast` | lib/btree/btree.cpp:55-91 | the stack ends at the largest key of the tree |
| `BTreeModel.BTreeCursor.Next` | lib/btree/btree.cpp:219-285 | moves to the successor; false exactly at the largest key, with an empty stack |
| `BTreeModel.BTreeCursor.Prev` | lib/btree/btree.cpp:157-217 | moves to the predecessor; false exactly at the least key, with an empty stack |
| `BTreeModel.BTreeCursor.ReadAll` | lib/catalog/catalog.cpp:22-31 | first and next read every key and payload of the tree once, in ascending order |
| `TreeScan.StackOfKey` | lib/btree/btree.cpp:123-155 | a key has one stack |
| `TreeScan.PrevUndoesNext` | lib/btree/btree.cpp:157-285 | a step forward and one back restore the whole stack |
| `TreeScan.NextUndoesPrev` | lib/btree/btree.cpp:157-285 | a step back and one forward restore the whole stack |
| `TreeRuns.NextThenPrev` | lib/btree/btree.cpp:157-285 | `next` and then `prev` leave the cursor as it was, unless the key was the largest |
| `TreeRuns.PrevThenNext` | lib/btree/btree.cpp:157-285 | `prev` and then `next` leave the cursor as it was, unless the key was the least |
| `BTreeModel.BTreeCursor.AssignChildrenNodes` | lib/btree/utils.cpp:65-100 | makes the right half the child of the slot and returns the cell for the left one |
| `BTreeModel.BTreeCursor.SplitLeafPages` | lib/btree/utils.cpp:102-158 | two new leaves hold the cells of a full leaf and one more and are linked in its place |
| `BTreeModel.BTreeCursor.SplitNodePages` | lib/btree/utils.cpp:188-240 | two new nodes hold the cells of a full node and one more, less the one that goes up |
| `BTreeModel.BTreeCursor.SplitCursorLeaf` | lib/btree/utils.cpp:102-186 | a full leaf takes one more cell through any cascade, the tree is well-formed with exactly that cell added, and the leaf is left outside the tree as it was |
| `BTreeModel.BTreeCursor.SplitCursorNode` | lib/btree/utils.cpp:188-272 | a full node takes the pending cell, splitting its ancestors and the root as needed; the recursion ends with the stack |
| `BTreeModel.BTreeCursor.Insert` | lib/btree/btree.cpp:354-383 | on every well-formed tree: refused exactly when the key is there; otherwise the tree is well-formed, its map is the old one plus the key and payload, and the cursor is on the key; pages beside the tree stay, and a root that is a leaf is left behind exactly when it is full |
| `BTreeModel.BTreeCursor.BorrowFromLeafSibling` | lib/btree/utils.cpp:320-350 | borrows exactly when a sibling has a cell to spare, and then the tree is well-formed; the assertion fails exactly at the last child |
| `BTreeModel.BTreeCursor.BorrowFromNodeSibling` | lib/btree/utils.cpp:400-429 | borrows exactly when a sibling node has a cell to spare, and then the tree is well-formed |
| `BTreeModel.BTreeCursor.MergeWithLeafSibling` | lib/btree/utils.cpp:508-573 | merges the leaf, puts the left page in front of the free list, collapses an empty root or rebalances the parent, up to a well-formed tree |
| `BTreeModel.BTreeCursor.MergeWithNodeSibling` | lib/btree/utils.cpp:431-481 | merges the node: the left page becomes the head of the free list, the right one is returned and holds what remains |
| `BTreeModel.BTreeCursor.BalanceNode` | lib/btree/utils.cpp:483-506 | repairs an underfull node and all ancestors that become underfull; the recursion ends with the stack |
| `BTreeModel.BTreeCursor.Remove` | lib/btree/btree.cpp:385-424 | on every well-formed tree: the map loses exactly the key under the cursor, the tree is well-formed and the cursor at the key's place; or the assertion of utils.cpp:332 fails, exactly when the leaf underflows as last child; pages beside the tree stay |
| `TreeRuns.Run` | lib/btree/btree.cpp:354-424 | every run of insertions and removals from a new file does what it does to a map, in a well-formed tree after each; it stops exactly at the first removal that aborts, and without assertions never |
| `TreeRuns.LargestKeyUnderflows` | lib/btree/utils.cpp:332-332 | the largest key is in a last child: its removal fails the assertion exactly when its leaf is at the minimum and not the root |
| `TreeRuns.AbortingRun` | lib/btree/utils.cpp:332-332 | a removal from a tree of two keys that ends in the failed assertion |
| `TreeRuns.NewTree` | lib/pager/pager.cpp:162-224 | a single empty leaf is a well-formed tree that maps nothing |
| `TreeRuns.DefaultsAreSound` | lib/btree/btree.h:13-18 | the default limits meet the bounds that the theorems need |
| `TextbookTrees.WellFormedIffTextbook` | lib/btree/btree.h:13-18 | pages are well-formed under a root if and only if they are a textbook B+tree: equal leaf depth, keys in order and range, pages within bounds, no page used twice, leaves linked in order |
| `TreeTheorems.WalkListsTheCells` | lib/btree/btree.cpp:219-285 | the in-order walk lists exactly the cells of the tree in strictly ascending order |
| `TreeTheorems.LeafListIsInOrder` | lib/btree/utils.cpp:146-158 | the next links from the leftmost leaf visit exactly the leaves, left to right and once, and the prev links are their reverse |
| `TreeTheorems.PagesAreReachable` | lib/btree/btree.cpp:123-155 | the tree's pages are exactly those that child links reach from the root, and its leaves those at full depth |
| `TreeTheorems.NamedOnce` | lib/pager/pager.cpp:86-143 | tree pages, chains and free pages are disjoint, and each page is linked from one place |
| `EvictorModel.LRUKEvictor.RecordAccess` | lib/pager/bufferpool/lruk.cpp:28-52 | node and ordered sets are again exactly those of the trace with the access |
| `EvictorModel.LRUKEvictor.SetEvictable` | lib/pager/bufferpool/lruk.cpp:54-82 | the same for marking a frame; nothing for an unknown one |
| `EvictorModel.LRUKEvictor.Remove` | lib/pager/bufferpool/lruk.cpp:84-101 | the same for removing a frame |
| `EvictorModel.LRUKEvictor.Evict` | lib/pager/bufferpool/lruk.cpp:8-26 | returns the LRU-K victim of the trace, and nothing exactly when no frame is evictable |
| `EvictorModel.LRUKEvictor.Size` | lib/pager/bufferpool/lruk.cpp:103 | the size is the number of entries of both ordered sets |
| `EvictorModel.VictimUnique` | lib/pager/bufferpool/lruk.cpp:8-26 | a trace has one victim |
| `EvictorModel.FirstIsVictim` | lib/pager/bufferpool/lruk.cpp:13-21 | the first entry of the set that is looked at belongs to the victim |
| `EvictorModel.EntriesAfterAccess` | lib/pager/bufferpool/lruk.cpp:43-51 | moving a frame's entry between and within the two sets is what its history asks for |
| `EvictorModel.StillReflects` | lib/pager/bufferpool/lruk.cpp:28-101 | an event about one frame cannot disturb the entries of others |
| `PoolState.StateMeans` | lib/pager/bufferpool/bufferpool.cpp:20-69 | a frame is free or holds one page, has as many pins as live guards, is evictable only without pins, and when clean equals storage |
| `PoolState.EveryFrame` | lib/pager/bufferpool/bufferpool.cpp:20-23 | when free and mapped frames add up, every frame is one of them |
| `PoolState.StateUnpinned` | lib/pager/bufferpool/pageguard.cpp:76-95 | a dropped guard takes one pin, and the last one makes the frame evictable |
| `PoolState.StateUnmapped` | lib/pager/bufferpool/bufferpool.cpp:127-155 | unmapping a frame without pins keeps the state, and a clean one loses nothing |
| `BufferPoolModel.BufferPool.constructor` | lib/pager/bufferpool/bufferpool.cpp:5-16 | a new pool is valid: all frames free, storage as it is |
| `BufferPoolModel.BufferPool.EnsureFreeFrame` | lib/pager/bufferpool/bufferpool.cpp:46-54 | true exactly when a frame is free or evictable; from the evictor it is the LRU-K victim, which stays mapped |
| `BufferPoolModel.BufferPool.InsertFrame` | lib/pager/bufferpool/bufferpool.cpp:25-44 | the first free frame holds the stored page, clean, without pins and not evictable |
| `BufferPoolModel.BufferPool.FetchPage` | lib/pager/bufferpool/bufferpool.cpp:75-125 | a guard on the page, with contents and partition kept, unless the frame comes from the evictor: then the victim's page shares the frame, which holds the stored bytes of the page fetched, and its own bytes are in storage unless the frame was dirty |
| `BufferPoolModel.BufferPool.NewPage` | lib/pager/bufferpool/bufferpool.cpp:56-73 | a page that did not exist, zeroed and mapped; the size assertion fails exactly in the evictor branch |
| `BufferPoolModel.SharedFrameExample` | lib/pager/bufferpool/bufferpool.cpp:46-54 | fetching a second page with one frame maps both pages to it |
| `BufferPoolModel.SizeAssertExample` | lib/pager/bufferpool/bufferpool.cpp:20-23 | asking for a new page in the same state fails the size assertion |
| `BufferPoolModel.BufferPool.EvictPage` | lib/pager/bufferpool/bufferpool.cpp:127-155 | succeeds exactly when no guard is on the page; a clean page keeps its contents, another falls back to storage |
| `BufferPoolModel.LostWriteExample` | lib/pager/bufferpool/bufferpool.cpp:127-155 | a page that is written, dropped and evicted has its stored bytes again |
| `BufferPoolModel.BufferPool.PinsOfPage` | lib/pager/bufferpool/pageguard.cpp:7-17 | the pins of a mapped page are the live guards on it |
| `BufferPoolModel.BufferPool.GetPinCount` | lib/pager/bufferpool/bufferpool.cpp:204-221 | the number of live guards on the page |
| `BufferPoolModel.BufferPool.FlushPage` | lib/pager/bufferpool/bufferpool.cpp:157-182 | storage holds the contents of the page, whose frame is clean |
| `BufferPoolModel.BufferPool.FlushAllPages` | lib/pager/bufferpool/bufferpool.cpp:184-202 | storage equals the contents of all pages, and every mapped frame is clean |
| `BufferPoolModel.PageGuard.GetData` | lib/pager/bufferpool/pageguard.cpp:51-54 | the bytes last written to the page |
| `BufferPoolModel.PageGuard.SetData` | lib/pager/bufferpool/pageguard.cpp:146-150 | the contents of the page and of no other become the new bytes |
| `BufferPoolModel.PageGuard.IsDirty` | lib/pager/bufferpool/pageguard.cpp:56-59 | the dirty flag of the frame the page is in; a page that is not dirty is in storage |
| `BufferPoolModel.PageGuard.Flush` | lib/pager/bufferpool/pageguard.cpp:61-74 | storage holds the contents of the page |
| `BufferPoolModel.PageGuard.Drop` | lib/pager/bufferpool/pageguard.cpp:76-95 | the guard is no longer live, a second call changes nothing, and the last guard of a page makes the frame evictable |
| `BufferPoolModel.PageGuard.MoveOut` | lib/pager/bufferpool/pageguard.cpp:24-31 | the new guard is live in place of this one, with the same pins |
| `BufferPoolModel.PageGuard.MoveFrom` | lib/pager/bufferpool/pageguard.cpp:33-47 | drops the own page and takes over the other's; on itself it does nothing |
| `FileCacheModel.FileCache.InsertNode` | lib/storage/filecache.cpp:5-19 | the list, linked both ways, has the node in front |
| `FileCacheModel.FileCache.DeleteNode` | lib/storage/filecache.cpp:21-43 | the list is linked without the node, and the map has no entry for the key |
| `FileCacheModel.FileCache.Exists` | lib/storage/filecache.cpp:45-47 | true exactly for the cached keys |
| `FileCacheModel.FileCache.Get` | lib/storage/filecache.cpp:49-61 | the open file of the key, which moves to the front, the others keeping their order; nothing exactly for keys not there |
| `FileCacheModel.FileCache.Put` | lib/storage/filecache.cpp:63-88 | valid exactly for keys not there: the key is first, and a full cache closes and drops the least recently used file |
| `FileCacheModel.PutTwiceExample` | lib/storage/filecache.cpp:66-71 | putting a key twice breaks the cache |
| `FileCacheModel.UseFirst` | lib/storage/filecache.cpp:49-61 | putting a used key first keeps the list in order of last use |
| `FileCacheModel.LastIsLeast` | lib/storage/filecache.cpp:73-75 | the last key of the list is the least recently used one |
| `StorageModel.PlacesApart` | lib/storage/storage_utils.h:19-34 | two pages of a table are in different segments or at places a page apart |
| `StorageModel.WriteOnePage` | lib/storage/storage.cpp:145-160 | a write changes one page of the flat map and no other |
| `StorageModel.NextPlace` | lib/storage/storage.cpp:168-176 | the page behind the last one begins where its segment file ends |
| `StorageModel.AddPage` | lib/storage/storage.cpp:162-182 | a page written behind the last one is one page more in the flat map |
| `StorageModel.StorageEngine.OpenSegment` | lib/storage/storage.cpp:62-73 | an open handle on that segment file, new or cached, of one that exists or is made |
| `StorageModel.StorageEngine.GetLatestPage` | lib/storage/storage.cpp:89-112 | the last page of a known table |
| `StorageModel.StorageEngine.ReadPage` | lib/storage/storage.cpp:128-143 | the page of the flat map; past the last page and for unknown tables the two errors, and nothing changes |
| `StorageModel.StorageEngine.WritePage` | lib/storage/storage.cpp:145-160 | the flat map with that page replaced by the first page of the padded buffer, or an error and nothing changes |
| `StorageModel.StorageEngine.AllocatePage` | lib/storage/storage.cpp:162-182 | the next page number of the table, zeroed, and no other page changes |
| `StorageModel.StorageEngine.CreateTable` | lib/storage/storage.cpp:184-210 | refused exactly for known tables; otherwise the table has its metadata page and nothing else |
| `Encoding.AppendUint` | lib/encoding.cpp:7-24 | the big-endian digits of the number, in 1, 2, 4 or 8 bytes |
| `Encoding.ReadUint16` | lib/encoding.cpp:41-48 | the number of the next two bytes, or underflow exactly when there are fewer |
| `Encoding.ReadUint32` | lib/encoding.cpp:50-59 | the number of the next four bytes, or underflow exactly when there are fewer |
| `Encoding.ReadUint64` | lib/encoding.cpp:61-69 | the number of the next eight bytes, or underflow exactly when there are fewer |
| `Encoding.DigitsRoundTrip` | lib/encoding.cpp:16-69 | reading the digits of a number gives it modulo 256 to their count, hence the number itself if and only if it fits |
| `Encoding.DigitsInRange` | lib/encoding.cpp:61-69 | eight bytes do not overflow 64 bits |
| `RecordModel.SetBit` | lib/record/record.cpp:38-40 | sets the bit of one column and leaves all others |
| `RecordModel.Serialize` | lib/record/record.cpp:104-134 | a null in a column that forbids it is refused; otherwise header, bitmap of exactly the nulls, and values in order |
| `RecordModel.Deserialize` | lib/record/record.cpp:56-102 | the loop decodes as the recursive reading of header, bitmap and columns does |
| `RecordModel.RowRoundTrip` | lib/record/record.cpp:56-134 | decoding the encoding of a well-typed row gives the row and consumes every byte |
| `RecordModel.WellTypedIsSerialized` | lib/record/record.cpp:118-129 | a well-typed row is never refused |
| `TableCodec.SerializeTable` | lib/catalog/catalog.cpp:81-113 | the loops write the table's bytes, cut to 16-bit lengths |
| `TableCodec.DeserializeTable` | lib/catalog/catalog.cpp:115-159 | the loops read the table and root page, if they take exactly all bytes |
| `TableCodec.TableRoundTrip` | lib/catalog/catalog.cpp:81-159 | reading what was written gives 64 bits of the root page and the table cut to 16-bit lengths, hence both as they were if and only if they fit |
| `CatalogModel.CatalogManager.constructor` | lib/catalog/catalog.cpp:18-40 | a catalog opens a cursor on page 2, which it makes in a file without one and else leaves as it is, and has the tables that the entries there name, each as its last entry says |
| `CatalogModel.CatalogManager.InitializeTables` | lib/catalog/catalog.cpp:18-32 | the loop over the schema tree: tables, oids and root pages are those of the last entry for each name, dependencies those of all entries |
| `CatalogModel.Reopened` | lib/catalog/catalog.cpp:18-40 | opening a schema tree that is in step gives the live tables again if and only if their lengths fit 16 bits, then with their oids, dependencies and 64 bits of their root pages |
| `CatalogRuns.Reopen` | lib/catalog/catalog.cpp:34-40 | a second catalog on the file has the tables whose entries are on page 2 if and only if their lengths fit, then with their oids, dependencies and 64 bits of their root pages |
| `CatalogModel.CatalogManager.CreateTable` | lib/catalog/catalog.cpp:44-54 | one table and one entry more under the next oid; memory and tree stay in step if and only if the name is new; the root stays where it is unless it is a full leaf |
| `CatalogModel.CatalogManager.DropTable` | lib/catalog/catalog.cpp:56-72 | ends; memory and schema tree lose the same tables by a cascade, one removal after the other, and where assertions are compiled in it stops exactly at the first removal that underflows as last child |
| `CatalogModel.CatalogManager.DropEntry` | lib/catalog/catalog.cpp:60-64 | one table leaves memory and schema tree |
| `CatalogModel.CascadeIsReachability` | lib/catalog/catalog.cpp:56-72 | a cascade takes exactly the live tables reachable from the name along recorded dependencies |
| `CatalogModel.InStepAdd` | lib/catalog/catalog.cpp:44-54 | an entry under a new oid keeps memory and tree in step if and only if the name is new |
| `CatalogModel.InStepDrop` | lib/catalog/catalog.cpp:60-64 | a table and its entry leave together |
| `CatalogRuns.Run` | lib/catalog/catalog.cpp:44-72 | any run of creations and drops from a new file: the live tables and dependencies are a function of the operations, memory and tree are in step, page 2 is known, and it stops only at a name or oid in use or exactly where a removal aborts |
| `CatalogRuns.RunAndReopen` | lib/catalog/catalog.cpp:18-72 | the catalog opened on what a run leaves has the tables of before the first creation that met a full leaf on page 2, if and only if their lengths fit: all tables when there was none |
| `CatalogRuns.SchemaStays` | lib/btree/utils.cpp:160-169 | once the root has moved, page 2 keeps the leaf that was split and its payloads through all later operations |
| `CatalogRuns.RootCount` | lib/catalog/catalog.cpp:44-54 | a root that is a leaf has one cell for each live table |
| `CatalogCases.CreateAll` | lib/catalog/catalog.cpp:34-54 | of any number of tables under different names, a catalog opened again has exactly the first, up to what a leaf holds |
| `CatalogCases.LostTableExample` | lib/catalog/catalog.cpp:34-54 | two tables in leaves of one cell: the second is not in the catalog opened again |
| `CatalogCases.NameInUseExample` | lib/catalog/catalog.cpp:44-54 | two tables under one name leave memory and tree out of step |
| `CatalogCases.LongNameIsLost` | lib/catalog/catalog.cpp:81-159 | a table with a name of 65536 bytes is read back without a name |
| `CatalogCases.StaleListExample` | lib/catalog/catalog.cpp:56-72 | after a creation and a drop the lists are not those of the live tables |
| `CatalogRuns.StillDropped` | lib/catalog/catalog.cpp:56-72 | a table that was once created under another goes with it, whatever it was created under since |
| `CatalogRuns.KeptByOthers` | lib/catalog/catalog.cpp:18-72 | where the lists are those of the live tables, a table of one name stays when another is dropped |
| `CatalogRuns.NoOrphans` | lib/catalog/catalog.cpp:56-72 | a drop leaves no live table that belongs to one it dropped |
| `CatalogRuns.DropLeavesNames` | lib/catalog/catalog.cpp:56-72 | the recorded dependencies are those of the live tables after a drop if and only if it dropped nothing |

## Left out

- Page images are values of a page map: a page manager that still holds an older image of a page in memory is not modelled.
- Headers, checksums, the number of cells and free bytes kept in pages, and byte layouts by `memcpy`: taken as the sizes they give.
- Pages that a split replaces and chains of removed keys stay allocated in the program and in the model: disjointness is proved, full use of the file is not claimed.
- Insert: requires `OffsetsFit`, that stepping over the chunks of the payload does not wrap 32 bits; a longer payload makes the program's loop misbehave. Sizes are 32-bit numbers, and `Stored` is what of a payload they cover.
- CreateTable: requires that the written table is shorter than 2^32 bytes less a chunk, for the same reason.
- Page numbers are unbounded; the program's are 64 bits wide.
- Two cursors on one tree: a cursor's root changes without the other learning of it.
- MoveToLast: requires the root to be a node, as the program asserts; MoveToFirst, Next and Prev require what it asserts of cells.
- The tails of the two split functions and of the two merge functions are written once, in `AttachHalves` and `SettleParent`; the climbs and descents inside `next` and `prev`, the choice of the left slot in the merge functions and the loop of `drop_table` are methods or functions of their own.
- Threads, latches and blocking: the pool's methods are atomic steps. Guards wait for a frame latch while they hold the pool latch, and a storage exception leaves the pool latch held; neither is modelled.
- Writing through a reference kept from `get_data_mut` across a flush, and using a guard after it was dropped.
- Frames are values in a sequence of the pool; read and write guards are one class with a flag.
- FetchPage: of a pool after the evictor branch only what is in its contract is claimed; it is no longer a valid one.
- BufferPool.constructor: requires that the page size of the storage engine is the 4096 bytes of a frame, which the program copies without a check.
- An evictor with k = 0, which reads the front of an empty history.
- System calls, which always succeed; paths and directory listings, which are keys of a map.
- Opening an existing storage directory, `flush_table`, `truncate_table` and `delete_table`, and the 64-bit range of segment offsets.
- Deserialize: requires at most 65535 columns, with more of which the program's 16-bit counter never ends; bytes that end inside the null bitmap, where the program reads out of bounds, give the same result as an underflow.
- DeserializeValue: of an empty text that ends the row the program first takes the address of the byte behind the buffer, which is out of range; the model gives the empty text.
- DeserializeTable: gives nothing for payloads that the program would read out of bounds or that name an unknown column type.
- The catalog's first page with the next oid, which is a parameter of the catalog that is opened.
- Reopen: two catalogs on one file are not used side by side.
- CatalogManager.constructor: requires that every entry of the schema tree decodes, as the program asserts of each at the end of `deserialize_table`.
- InitializeTables: the same.
- DropTable: where it stops at a failed assertion, nothing is claimed about the catalog that is left.
- Parser, syntax tree, binder and executor.
