# Verified models of RakNet's containers and the server's own headers

The project models the container library that the server vendors under `3rd/RakNet/Source`, together with two
self-contained headers of its own `src/common`, and proves that the containers do what they are for. The code is
imperative: objects with fields are classes, buffers are arrays, loops are loops with invariants, and each method is
proved against a specification on values (listings, maps, sets, walks, plain sequences) about which the laws are
proved as lemmas. The ghost fields of a class say what its memory stands for.

| source | modules | what it is |
|---|---|---|
| `DS_BPlusTree.h` | `BPlusPage` (one page), `BPlusListing` (sorted listings), `BPlusShape`, `BPlusNode`, `BPlusGrow` (trees as values), `BPlusSlip` (bound keys that insertion does not notice), `BPlusStore`, `BPlusSplit`, `BPlusRotate` (pages in memory), `BPlusTree` (the class) | a B+ tree that refines a finite map |
| `DS_WeightedGraph.h` | `ShortestPaths` (runs of Dijkstra as values), `WeightedGraphs` (the matrix), `GraphPaths` (the class), `StaleAnswers` (cached answers after a new link), `SpanningTrees` | shortest paths from a matrix whose rows are moments of the run, paths rebuilt from it, and a tree of them |
| `DS_MemoryPool.h` | `MemoryPools` | pages of blocks on two circular lists |
| `DS_BinarySearchTree.h` | `AvlShapes` (trees as values), `AvlTrees` (the class) | AVL insertion by pointer rotations |
| `DS_RangeList.h`, `DS_OrderedList.h` | `RangeLists`, `RangeWire` (its streams byte by byte), `OrderedLists` | a set kept as ranges, with its bounded codec |
| `DS_Heap.h`, `DS_Queue.h`, `DS_Multilist.h` | `Heaps`, `Queues`, `Multilists` | binary heap with series push, ring buffer, quicksort and intersection |
| `objectpool.h`, `bin2ascii.h` | `ObjectPools`, `Base64`, `Base64Standard` (the alphabet and the digits written out) | handles with a 16-bit generation; base64 |
| | `Collections`, `Powers` | cardinalities of sets and lists, powers |
| | `Runs`, `GraphRuns`, `BPlusSlipRuns` | programs that make objects and use them, any number of times or to a bad end |

Integers are unbounded unless said otherwise. The object pool's 16-bit generation and 32-bit handles are modelled
exactly, base64 works on 8-bit characters and 32-bit groups, and the range codec on bytes. Keys, weights and data
are integers where the templates compare them.

Some promises do not hold of the code for all inputs. For these there is a contract or a lemma that says exactly when
they do, and one with an input for which they fail:

| promise | holds exactly when | fails for |
|---|---|---|
| inserting a bound key into a B+ tree changes nothing | `BPlusTree.Insert` (`SlipsPast`), `LeanLeftSorted`, `LeanRightSorted` | `SlipExample`, `SlipRun` |
| the answer for a graph of two nodes is a cheapest walk | `TwoNodeShortcut` | `TwoNodeExample` |
| popping keeps the order of a heap | `PopOrders` | `PopExample` |
| inserting keeps ranges disjoint | `InsertDisjoint` | `InsideExample`, `RepeatExample` |
| a freed handle does not resolve | `HandleRecurs` | `HandleExample` |
| encoding gives back an accepted base64 text | `EncodeDecoded` | `StrayBitsExample` |
| the answer of a cached matrix is right for the graph with one link more or a new weight | `StaleExactly` (`StillRight`) | `StaleExample`, `StaleRun` |
| Allocate keeps the memory pool in order | `MemoryPool.Allocate` (`NoBlocks`) | `PageWithoutBlocks` |

Check the whole project with `dafny verify dfyconfig.toml`.

## Model

| member | source | states |
|---|---|---|
| BPlusTree.BPlusTree.constructor | 3rd/RakNet/Source/DS_BPlusTree.h:127-133 | a new tree of any order above 1 represents the empty map; the whole-tree invariant is the one for orders from 4 on |
| BPlusTree.BPlusTree.Delete | 3rd/RakNet/Source/DS_BPlusTree.h:184-223 | for every order from 4 on and every key: answers whether the key was bound and to what, removes exactly that binding from the represented map, and keeps uniform depth, sorted pages, tight separators, minimum fill and the leaf chain |
| BPlusTree.BPlusTree.DeleteFromRootLeaf | 3rd/RakNet/Source/DS_BPlusTree.h:194-207 | deletion while the root is a leaf, down to the empty tree |
| BPlusTree.BPlusTree.SettleRoot | 3rd/RakNet/Source/DS_BPlusTree.h:213-220 | a root left without separators makes way for its only child: same listing, invariant kept |
| BPlusTree.BPlusTree.FindDeleteRebalance | 3rd/RakNet/Source/DS_BPlusTree.h:224-298 | below an index node: the key and nothing else is removed, nothing changes when it is absent, only the node itself may be left one entry short, and a new least key is handed up through SET_BRANCH_KEY |
| BPlusTree.BPlusTree.DeleteFromLeafChild | 3rd/RakNet/Source/DS_BPlusTree.h:262-289 | deletion in the one leaf that can hold the key; the separator or the caller learns of a new least key |
| BPlusTree.BPlusTree.TakeBackKid | 3rd/RakNet/Source/DS_BPlusTree.h:245-260 | the SET_BRANCH_KEY hand-off: after it every separator is again the least key to its right |
| BPlusTree.BPlusTree.FixUnderflow | 3rd/RakNet/Source/DS_BPlusTree.h:299-478 | a node with one child one entry short has no short child afterwards, lists the same bindings, and reports truly whether it is short itself |
| BPlusTree.BPlusTree.TakeFromLeft | 3rd/RakNet/Source/DS_BPlusTree.h:306-335 | borrowing from a left neighbour with excess |
| BPlusTree.BPlusTree.TakeFromRight | 3rd/RakNet/Source/DS_BPlusTree.h:336-390 | borrowing from a right neighbour with excess, the separator travelling along between index nodes |
| BPlusTree.BPlusTree.MergeBranches | 3rd/RakNet/Source/DS_BPlusTree.h:391-477 | merging when no neighbour has excess; a merged leaf leaves the leaf chain |
| BPlusNode.BorrowLeftRepairs | 3rd/RakNet/Source/DS_BPlusTree.h:306-335 | on the tree itself: borrowing left keeps listing, leaves, order, tight separators and repairs the short child |
| BPlusNode.BorrowRightRepairs | 3rd/RakNet/Source/DS_BPlusTree.h:336-390 | the same for borrowing right |
| BPlusNode.MergeRepairs | 3rd/RakNet/Source/DS_BPlusTree.h:391-452 | merging keeps the listing, drops one separator, repairs the short child and drops exactly the merged leaf from the leaves |
| BPlusShape.BorrowFromLeftKeeps | 3rd/RakNet/Source/DS_BPlusTree.h:311-325 | moving one entry between two neighbours and renewing the separator keeps shape, order, tightness and all pages |
| BPlusShape.BorrowFromRightKeeps | 3rd/RakNet/Source/DS_BPlusTree.h:341-381 | the mirror image |
| BPlusShape.MergeKeeps | 3rd/RakNet/Source/DS_BPlusTree.h:413-452 | appending the right neighbour (with the separator between index nodes) gives one good page with all their bindings |
| BPlusTree.BPlusTree.UnlinkLeaf | 3rd/RakNet/Source/DS_BPlusTree.h:460-469 | takes exactly one leaf out of the doubly linked chain, `leftmostLeaf` included |
| BPlusTree.BPlusTree.Insert | 3rd/RakNet/Source/DS_BPlusTree.h:829-876 | for every order from 4 on and every key: a key that is not bound is added, and nothing else changes, through leaf split, index split, both rotations and root growth; a bound key is refused and nothing changes, unless it slips past (full leaf, no separator of that key, a neighbour with room), and then the stored listing has it twice and is out of order; the whole-tree invariant holds afterwards if and only if the key did not slip past |
| BPlusTree.BPlusTree.FreshKey | 3rd/RakNet/Source/DS_BPlusTree.h:829-876 | a key that is not bound never slips past: what makes the promise of Insert unconditional for new keys |
| BPlusSlip.FreshNeverSlips | 3rd/RakNet/Source/DS_BPlusTree.h:721-791 | the same on the tree as a value, by induction on its depth |
| Runs.RunTree | 3rd/RakNet/Source/DS_BPlusTree.h:184-876 | after any run of insertions of new keys and of deletions a tree made by the constructor is in order and stands for the map that the run builds |
| BPlusTree.BPlusTree.DepthIsLogarithmic | 3rd/RakNet/Source/DS_BPlusTree.h:299-478 | a tree of depth h > 0 holds at least 2 (order/2) (order/2 + 1)^(h - 1) bindings: the minimum fill keeps the tree shallow |
| BPlusTree.BPlusTree.InsertBranchDown | 3rd/RakNet/Source/DS_BPlusTree.h:721-828 | below a page, for every key: the listing gains exactly the binding, or nothing changes, or the key slipped past and the listing has it twice and out of order; a split hands up the right separator |
| BPlusTree.BPlusTree.RotateLeaf | 3rd/RakNet/Source/DS_BPlusTree.h:741-791 | a full leaf with a neighbour that has room is relieved by rotation, no page split, whether or not the key is bound; without such a neighbour nothing changes |
| BPlusTree.BPlusTree.InsertBelow | 3rd/RakNet/Source/DS_BPlusTree.h:794-812 | the recursive step for every key that did not slip past in the leaf just below, with the proof that the key replacement of lines 795-799 never happens |
| BPlusTree.BPlusTree.InsertIntoNode | 3rd/RakNet/Source/DS_BPlusTree.h:516-654 | one entry more in a page, or two good pages, both at least half full, with the separator that was pushed up |
| BPlusGrow.SplitKeeps | 3rd/RakNet/Source/DS_BPlusTree.h:542-651 | both halves of a split are good, at least half full, and list together what the page listed |
| BPlusSplit.SplitPage | 3rd/RakNet/Source/DS_BPlusTree.h:544-650 | the loops that split a full page store exactly the two halves; the renewed search in the half that keeps the new key never finds it (the assertion of line 641); the left half keeps half of the order, rounded down when the new key goes to the right half and up when it goes to the left |
| BPlusSplit.InsertWithRoom | 3rd/RakNet/Source/DS_BPlusTree.h:520-541 | the shifting loops of a page with room put the entry, and the child right of it, at the index |
| BPlusTree.BPlusTree.GrowRoot | 3rd/RakNet/Source/DS_BPlusTree.h:852-872 | a split root gets a new root above both halves |
| BPlusTree.BPlusTree.LinkAfter | 3rd/RakNet/Source/DS_BPlusTree.h:546-553 | puts exactly one leaf into the chain behind another |
| BPlusRotate.RotateLeft | 3rd/RakNet/Source/DS_BPlusTree.h:662-679 | moves the first binding to the left leaf and renews the separator |
| BPlusRotate.RotateRight | 3rd/RakNet/Source/DS_BPlusTree.h:687-705 | moves the last binding to the right leaf and renews the separator |
| BPlusRotate.MakeRoomLeft | 3rd/RakNet/Source/DS_BPlusTree.h:743-764 | what the two leaves and the separator are after a rotation to the left, whether or not the key was bound |
| BPlusRotate.MakeRoomRight | 3rd/RakNet/Source/DS_BPlusTree.h:773-788 | the same to the right |
| BPlusSlip.LeanLeftSorted | 3rd/RakNet/Source/DS_BPlusTree.h:741-768 | a rotation to the left leaves the leaves sorted if and only if the key was not bound in the leaf: the branch does not look |
| BPlusSlip.LeanRightSorted | 3rd/RakNet/Source/DS_BPlusTree.h:769-791 | the same to the right |
| BPlusSlip.SlipUnsorts | 3rd/RakNet/Source/DS_BPlusTree.h:733-791 | when the rotation leaves its two leaves out of order, the node with its renewed separator lists all it listed and the new binding, out of order |
| BPlusSlip.SlipBelow | 3rd/RakNet/Source/DS_BPlusTree.h:794-812 | and so does every node above it |
| BPlusSlip.SlipsThrough | 3rd/RakNet/Source/DS_BPlusTree.h:721-793 | whether a key slips past is decided below the child that the search follows |
| BPlusSlipRuns.SlipRun | 3rd/RakNet/Source/DS_BPlusTree.h:733-876 | such a tree in memory, in order; Insert answers that the key was new and leaves it out of order |
| BPlusSlip.SlipExample | 3rd/RakNet/Source/DS_BPlusTree.h:733-791 | a concrete tree of order 4 and a bound key that slips past |
| BPlusNode.FollowedChild | 3rd/RakNet/Source/DS_BPlusTree.h:225-232 | the child that the search follows holds the key if any does: all left of it is smaller, all right of it larger, because separators are tight |
| BPlusPage.GetIndexOf | 3rd/RakNet/Source/DS_BPlusTree.h:912-944 | the binary search finds the key of a sorted page, or the index at which it belongs |
| BPlusStore.ShiftNodeRight | 3rd/RakNet/Source/DS_BPlusTree.h:479-497 | the loops make room at the front of a page |
| BPlusStore.ShiftNodeLeft | 3rd/RakNet/Source/DS_BPlusTree.h:498-515 | the loops drop the front of a page |
| BPlusStore.DeleteFromPageAtIndex | 3rd/RakNet/Source/DS_BPlusTree.h:160-177 | the loops drop a key with its binding, or with the child right of it |
| BPlusTree.BPlusTree.GetLeafFromKey | 3rd/RakNet/Source/DS_BPlusTree.h:706-719 | ends in a leaf that has the binding of the key if the tree has one |
| BPlusTree.BPlusTree.Get | 3rd/RakNet/Source/DS_BPlusTree.h:144-159 | agrees with looking the key up in the represented map |
| BPlusTree.BPlusTree.Size | 3rd/RakNet/Source/DS_BPlusTree.h:895-906 | walking the chain counts the bindings of the map |
| BPlusTree.BPlusTree.ChainListsBindings | 3rd/RakNet/Source/DS_BPlusTree.h:546-553 | the chain from `leftmostLeaf` stores all bindings in strictly increasing key order, `previous` being the inverse of `next` |
| BPlusListing.MapOfSorted | 3rd/RakNet/Source/DS_BPlusTree.h:896-906 | a sorted listing is the graph of its map, one entry for each key |
| BPlusListing.MapOfWithout | 3rd/RakNet/Source/DS_BPlusTree.h:184-223 | removing from the listing is removing from the map |
| BPlusListing.MapOfWith | 3rd/RakNet/Source/DS_BPlusTree.h:829-876 | adding to the listing is adding to the map |
| ShortestPaths.RelaxSettles | 3rd/RakNet/Source/DS_WeightedGraph.h:433-483 | relaxing a node at least as near as all unrelaxed ones keeps: relaxed nodes are nearer than all others and no link out of them promises a shorter way; their distances no longer change |
| ShortestPaths.RunSettles | 3rd/RakNet/Source/DS_WeightedGraph.h:433-483 | every run of the loop keeps this, and relaxes no node twice |
| ShortestPaths.DistanceStands | 3rd/RakNet/Source/DS_WeightedGraph.h:433-483 | from the moment a node is nearest its column stands |
| ShortestPaths.NoShorterWalk | 3rd/RakNet/Source/DS_WeightedGraph.h:433-483 | when nothing or one node is left to relax, no walk is cheaper than the distance of its end |
| ShortestPaths.DistancesAreShortest | 3rd/RakNet/Source/DS_WeightedGraph.h:395-501 | Dijkstra: for any infinity and non-negative weights the last row is the cost of a cheapest walk or infinity, whichever is less, and the route read off the rows attains it |
| ShortestPaths.LastChangeExplains | 3rd/RakNet/Source/DS_WeightedGraph.h:276-296 | where the distance of a node last changed, the node relaxed there links to it and accounts for it |
| ShortestPaths.RowsBeforeChange | 3rd/RakNet/Source/DS_WeightedGraph.h:278-288 | going down the rows, the entry is the final one exactly until the last change: what the reconstruction looks for |
| ShortestPaths.RouteCostsDistance | 3rd/RakNet/Source/DS_WeightedGraph.h:276-301 | the reconstructed path joins the start to the node and costs what the row says |
| ShortestPaths.RouteFollowsPrevious | 3rd/RakNet/Source/DS_WeightedGraph.h:276-296 | on every reconstructed path a node is preceded by its one fixed predecessor |
| ShortestPaths.PreviousStands | 3rd/RakNet/Source/DS_WeightedGraph.h:276-296 | that predecessor is the same in every later row |
| WeightedGraphs.WriteDown | 3rd/RakNet/Source/DS_WeightedGraph.h:447-448 | an improved weight is written to its column from the current row down, and nowhere else |
| WeightedGraphs.RelaxLinks | 3rd/RakNet/Source/DS_WeightedGraph.h:437-451 | the loop over the links relaxes the node in the matrix and in the open set |
| WeightedGraphs.FillHeap | 3rd/RakNet/Source/DS_WeightedGraph.h:454-456 | the heap gets exactly the open set, in heap order |
| WeightedGraphs.Lightest | 3rd/RakNet/Source/DS_WeightedGraph.h:453-480 | the node taken is a lightest one of the open set; none if it is empty |
| WeightedGraphs.RelaxNode | 3rd/RakNet/Source/DS_WeightedGraph.h:433-483 | one turn of the outer loop: one row finished, the next node nearest |
| WeightedGraphs.GenerateMatrix | 3rd/RakNet/Source/DS_WeightedGraph.h:395-501 | the matrix and the array of least nodes hold a finished run: row r the distances after r + 1 relaxations |
| WeightedGraphs.FindChange | 3rd/RakNet/Source/DS_WeightedGraph.h:278-288 | the inner loop stops below the row of the last change, or at the start |
| WeightedGraphs.WalkBackOne | 3rd/RakNet/Source/DS_WeightedGraph.h:276-296 | one turn puts the predecessor in front of the queue |
| WeightedGraphs.ReadPath | 3rd/RakNet/Source/DS_WeightedGraph.h:264-301 | the path rebuilt from the rows is the route of the run; empty when the end is not reached |
| GraphPaths.WeightedGraph.GetShortestPath | 3rd/RakNet/Source/DS_WeightedGraph.h:225-302 | a cheapest walk from start to end over existing links, or nothing when every walk costs infinity at least; with the answers of the code when start and end are the same, the end is unknown or there are fewer than three nodes; a repeated query from the same start is answered for the graph the matrix was made for, links added since notwithstanding |
| GraphPaths.WeightedGraph.ReadAnswer | 3rd/RakNet/Source/DS_WeightedGraph.h:242-301 | the answer that a matrix holds for the graph it was made for |
| StaleAnswers.StaleExactly | 3rd/RakNet/Source/DS_WeightedGraph.h:180-302 | the answer for a graph is still a cheapest walk, or rightly none, after AddConnection has linked any two nodes or changed the weight of their link, if and only if StillRight holds, which asks of the graph before only: for a new or lighter link, that no walk to one end, the link, and a walk from the other end cost less together than the answer; for a heavier one, that the answer does not take the link, or takes it once and is still below infinity and no dearer than any walk that avoids it |
| StaleAnswers.WayFound | 3rd/RakNet/Source/DS_WeightedGraph.h:180-192 | every walk of the graph with the link is matched by one of the graph without, or by one that takes the link once, as cheap |
| StaleAnswers.CrossedTwice | 3rd/RakNet/Source/DS_WeightedGraph.h:180-192 | a walk that takes a link twice can do without that, and not be dearer |
| GraphPaths.StaleExample | 3rd/RakNet/Source/DS_WeightedGraph.h:180-192 | a graph, and a link to add, for which the path answered from the matrix made before is not the cheapest one any more |
| GraphRuns.AskAgain | 3rd/RakNet/Source/DS_WeightedGraph.h:180-302 | on the object: ask, link two nodes, ask again; the second answer is the first, and right for the graph with the link exactly when StillRight holds of the graph without |
| GraphRuns.StaleRun | 3rd/RakNet/Source/DS_WeightedGraph.h:180-302 | three links added to a new graph and two queries, the last of which is answered wrong |
| GraphPaths.WeightedGraph.GenerateDisjktraMatrix | 3rd/RakNet/Source/DS_WeightedGraph.h:395-501 | fills the cache for the start node |
| GraphPaths.WeightedGraph.ClearDijkstra | 3rd/RakNet/Source/DS_WeightedGraph.h:503-513 | drops the cache |
| GraphPaths.WeightedGraph.AddConnection | 3rd/RakNet/Source/DS_WeightedGraph.h:180-192 | links two nodes both ways, adding them if need be; a node is not linked to itself; between two nodes of the graph the cache stays what it was, right for the graph it was made for |
| GraphPaths.WeightedGraph.AddNode | 3rd/RakNet/Source/DS_WeightedGraph.h:137-141 | the graph stays in shape with one node more, and every link it had is as it was |
| GraphPaths.NodeJoinsNothing | 3rd/RakNet/Source/DS_WeightedGraph.h:137-141 | a node added is on no walk but the one that stands still on it: every other walk was there before, and is there still |
| GraphPaths.LinkAdds | 3rd/RakNet/Source/DS_WeightedGraph.h:180-192 | exactly the links between the two nodes change |
| GraphPaths.LinkKeepsShape | 3rd/RakNet/Source/DS_WeightedGraph.h:180-192 | links stay symmetric and inside the graph |
| GraphPaths.TwoNodeShortcut | 3rd/RakNet/Source/DS_WeightedGraph.h:257-263 | the unsearched answer for a graph of two nodes is right if and only if they are linked below infinity |
| GraphPaths.TwoNodeExample | 3rd/RakNet/Source/DS_WeightedGraph.h:257-263 | two nodes without a link, for which it is wrong |
| GraphPaths.TheWayIsShortest | 3rd/RakNet/Source/DS_WeightedGraph.h:264-301 | any way from the start on which each node is preceded by its one predecessor is a cheapest walk |
| SpanningTrees.GetSpanningTree | 3rd/RakNet/Source/DS_WeightedGraph.h:329-393 | the tree holds the start and every node on the shortest paths to the input nodes, each exactly once and under its predecessor; false exactly when those paths hold nothing but the start |
| SpanningTrees.TreeSpellsShortest | 3rd/RakNet/Source/DS_WeightedGraph.h:329-393 | walking down the tree of GetSpanningTree, from the start to any node, spells a cheapest walk of the graph |
| SpanningTrees.FoundIsLayable | 3rd/RakNet/Source/DS_WeightedGraph.h:276-296 | a newly found path agrees with all found before on every predecessor, and its nodes are settled in order |
| SpanningTrees.OverlaidGrows | 3rd/RakNet/Source/DS_WeightedGraph.h:337-348 | laying one more path keeps: exactly the nodes on the found paths, each with its predecessor |
| SpanningTrees.AddPath | 3rd/RakNet/Source/DS_WeightedGraph.h:342-346 | the loop adds exactly the links of the path to the graph of paths |
| SpanningTrees.CopyToTree | 3rd/RakNet/Source/DS_WeightedGraph.h:358-390 | the breadth-first copy terminates, and spans the graph of paths |
| SpanningTrees.AllListed | 3rd/RakNet/Source/DS_WeightedGraph.h:372-390 | every node is come to, because following predecessors leads to the start |
| SpanningTrees.PrecedesRanks | 3rd/RakNet/Source/DS_WeightedGraph.h:276-296 | a predecessor is settled before its successor: the paths have no cycle |
| MemoryPools.MemoryPool.Allocate | 3rd/RakNet/Source/DS_MemoryPool.h:101-152 | hands out the top block of the first available page, or the last one of a new page when none is available, which nobody holds, or null when there is no memory for a new page; says where every page is afterwards and that no stack has changed but by that block, and leaves the pool in order if and only if no new page was needed or it did not get its memory without that of its blocks: each block held or on the stack of its page and never both, both circular lists well linked and as long as their counters, available pages having a block left and the others none, at most three pages wholly free |
| MemoryPools.MemoryPool.Release | 3rd/RakNet/Source/DS_MemoryPool.h:153-214 | takes exactly the block back, puts it on top of the stack of its page and leaves the other stacks alone, keeps the pool in order, and gives the page up exactly when all its blocks are back, it was available before and there were at least 4 available pages |
| Runs.PageWithoutBlocks | 3rd/RakNet/Source/DS_MemoryPool.h:141-150 | a new pool that gets memory for a page and not for its blocks is out of order |
| Runs.RunPool | 3rd/RakNet/Source/DS_MemoryPool.h:101-214 | after any run of Allocate, which may find no memory for a page, and Release on a new pool, with any page size that has room for two blocks, the user holds as many different blocks as were handed out and not taken back, and there are at most 3 pages of which the user has no block |
| MemoryPools.MemoryPool.Clear | 3rd/RakNet/Source/DS_MemoryPool.h:215-267 | frees every page of both lists once, whatever is held, and leaves an empty pool |
| MemoryPools.MemoryPool.AllocateFromHead | 3rd/RakNet/Source/DS_MemoryPool.h:108-139 | the block comes from the head of the available pages, which moves to the end of the others with its last block |
| MemoryPools.MemoryPool.AllocateFromNew | 3rd/RakNet/Source/DS_MemoryPool.h:141-150 | a page is made when none is available |
| MemoryPools.MemoryPool.ReleaseToUnavailable | 3rd/RakNet/Source/DS_MemoryPool.h:165-191 | a page that had no block left moves to the end of the available ones |
| MemoryPools.MemoryPool.ReleaseToAvailable | 3rd/RakNet/Source/DS_MemoryPool.h:192-212 | a page that had some stays, or is given up |
| MemoryPools.MemoryPool.GiveBack | 3rd/RakNet/Source/DS_MemoryPool.h:199-211 | the page leaves its list, no held block goes with it |
| MemoryPools.Unlink | 3rd/RakNet/Source/DS_MemoryPool.h:205-206 | the remaining pages form the same ring without the page |
| MemoryPools.LinkAtTail | 3rd/RakNet/Source/DS_MemoryPool.h:130-133 | the ring gains the page behind its last one |
| MemoryPools.FreeRing | 3rd/RakNet/Source/DS_MemoryPool.h:225-242 | one walk around the ring frees every page once |
| MemoryPools.PopBlock | 3rd/RakNet/Source/DS_MemoryPool.h:113 | the block taken is the top of the stack and was not held; now it is, and every other block is where it was |
| MemoryPools.PushBlock | 3rd/RakNet/Source/DS_MemoryPool.h:194 | the stack has room, and is what it was with the block on top |
| MemoryPools.DropPage | 3rd/RakNet/Source/DS_MemoryPool.h:196-211 | a page with a full stack has no held block |
| MemoryPools.InitPage | 3rd/RakNet/Source/DS_MemoryPool.h:273-299 | a new page has all its blocks on its stack, the last one on top |
| AvlTrees.AvlTree.Add | 3rd/RakNet/Source/DS_BinarySearchTree.h:214-220 | keeps the tree ordered, linked and balanced with exactly one element more, unless it was there; at most one single or double rotation |
| AvlTrees.AvlTree.AddLeaf | 3rd/RakNet/Source/DS_BinarySearchTree.h:681-761 | the unbalanced insertion puts a new leaf where the search ends, and nothing else |
| AvlTrees.AvlTree.BalanceTree | 3rd/RakNet/Source/DS_BinarySearchTree.h:166-212 | climbing from the new leaf through FindParent makes at most one rotation, after which the whole tree is balanced |
| AvlTrees.AvlTree.Rebalance | 3rd/RakNet/Source/DS_BinarySearchTree.h:183-204 | one turn: a node whose sides differ by two is rotated back to the height before the insertion |
| AvlTrees.AvlTree.RotateLeft | 3rd/RakNet/Source/DS_BinarySearchTree.h:312-366 | the pointers turned are a rotation in place: order and elements kept |
| AvlTrees.AvlTree.RotateRight | 3rd/RakNet/Source/DS_BinarySearchTree.h:248-302 | the mirror image |
| AvlTrees.AvlTree.DoubleRotateLeft | 3rd/RakNet/Source/DS_BinarySearchTree.h:368-374 | two rotations in place |
| AvlTrees.AvlTree.DoubleRotateRight | 3rd/RakNet/Source/DS_BinarySearchTree.h:304-310 | the mirror image |
| AvlShapes.RotationsKeep | 3rd/RakNet/Source/DS_BinarySearchTree.h:248-374 | rotations keep order and elements |
| AvlShapes.RightHeavy | 3rd/RakNet/Source/DS_BinarySearchTree.h:183-192 | which rotation balances a node that is too high on the right, and how high it is then |
| AvlShapes.LeftHeavy | 3rd/RakNet/Source/DS_BinarySearchTree.h:194-204 | the mirror image |
| AvlShapes.GrewTooFar | 3rd/RakNet/Source/DS_BinarySearchTree.h:183-204 | a node out of balance after an insertion leans, and is one higher than before: one rotation is enough |
| AvlShapes.GrowthPassesUp | 3rd/RakNet/Source/DS_BinarySearchTree.h:206-209 | otherwise the growth passes up by one at most |
| AvlShapes.LeafKeepsOrder | 3rd/RakNet/Source/DS_BinarySearchTree.h:681-761 | a leaf where the search ends keeps the order |
| AvlShapes.LocatedIsThere | 3rd/RakNet/Source/DS_BinarySearchTree.h:444-501 | the search comes to the element if and only if it is in the tree |
| AvlTrees.AvlTree.Find | 3rd/RakNet/Source/DS_BinarySearchTree.h:444-501 | the node of the element, its parent and its side; null exactly when it is not there |
| AvlTrees.AvlTree.FindParent | 3rd/RakNet/Source/DS_BinarySearchTree.h:503-509 | the parent of where the search ends |
| AvlTrees.AvlTree.HeightRecursive | 3rd/RakNet/Source/DS_BinarySearchTree.h:398-416 | the recursion over the pointers is the height |
| AvlTrees.AvlTree.Height | 3rd/RakNet/Source/DS_BinarySearchTree.h:388-396 | the same with the empty tree |
| AvlShapes.BalancedIsBig | 3rd/RakNet/Source/DS_BinarySearchTree.h:166-212 | a balanced tree of height h has at least fib(h + 2) - 1 nodes |
| AvlShapes.CountsElements | 3rd/RakNet/Source/DS_BinarySearchTree.h:681-761 | an ordered tree has as many nodes as elements |
| AvlShapes.InOrderIncreases | 3rd/RakNet/Source/DS_BinarySearchTree.h:681-761 | from left to right an ordered tree has exactly its elements, each smaller than the next |
| AvlShapes.FibDoubles | 3rd/RakNet/Source/DS_BinarySearchTree.h:166-212 | fib(n + 2) is at least 2^(n/2) |
| AvlTrees.AvlTree.Shallow | 3rd/RakNet/Source/DS_BinarySearchTree.h:214-220 | so a tree that Add builds, of height h, has at least fib(h + 2) - 1 and at least 2^(h/2) - 1 elements: its height is logarithmic |
| Runs.RunAvl | 3rd/RakNet/Source/DS_BinarySearchTree.h:214-220 | after adding any list of elements to a new tree it holds each of them once, ordered, balanced and shallow |
| OrderedLists.GetIndexFromKey | 3rd/RakNet/Source/DS_OrderedList.h:118-171 | the binary search: the index of the key if it is there, and where it belongs if not |
| OrderedLists.OrderedList.Insert | 3rd/RakNet/Source/DS_OrderedList.h:173-199 | puts the element where it belongs and keeps the keys strictly increasing; refuses a key that is there |
| OrderedLists.OrderedList.Remove | 3rd/RakNet/Source/DS_OrderedList.h:201-218 | takes out exactly the element of the key, if there is one |
| OrderedLists.RemoveUndoesInsert | 3rd/RakNet/Source/DS_OrderedList.h:173-218 | removing a key undoes its insertion |
| OrderedLists.WithoutOne | 3rd/RakNet/Source/DS_OrderedList.h:201-218 | in a list in order one element at most has the key |
| RangeLists.RangeList.Insert | 3rd/RakNet/Source/DS_RangeList.h:158-218 | for any integer: lower ends stay strictly increasing and exactly that integer joins the set |
| RangeLists.InsertCovers | 3rd/RakNet/Source/DS_RangeList.h:158-218 | the set gains exactly the integer, and the sum one if it is new |
| RangeLists.InsertKeeps | 3rd/RakNet/Source/DS_RangeList.h:158-218 | proper ranges with increasing lower ends stay so |
| RangeLists.InsertDisjoint | 3rd/RakNet/Source/DS_RangeList.h:166-217 | disjoint ranges stay disjoint if and only if the integer is not inside a range that is not the last, above its lower end: the left neighbour is never looked at |
| RangeLists.InsertJoins | 3rd/RakNet/Source/DS_RangeList.h:166-217 | in a list that is disjoint and does not hold the integer, it ends up in one range with the next integer exactly when that is there, with both neighbours exactly when both are, and with the one below alone exactly when that is there and no range begins higher: an integer just above a range that is not the last opens a range of its own; no other two neighbours are joined or parted |
| RangeLists.InsideExample | 3rd/RakNet/Source/DS_RangeList.h:166-217 | two disjoint ranges, and an integer of the first that is put in again between them |
| RangeLists.RepeatExample | 3rd/RakNet/Source/DS_RangeList.h:158-218 | a run of inserts that repeats an integer and ends with overlapping ranges |
| RangeLists.RunHoldsInserted | 3rd/RakNet/Source/DS_RangeList.h:158-218 | after any run of inserts the ranges hold exactly what was inserted; if all were distinct they are disjoint and RangeSum is their number |
| RangeLists.RangeList.RangeSum | 3rd/RakNet/Source/DS_RangeList.h:232-239 | the loop sums the lengths |
| RangeLists.RangeList.Serialize | 3rd/RakNet/Source/DS_RangeList.h:64-113 | writes the ranges that maxBits has room for, keeps the rest if asked to, returns the bits written, at most maxBits when that is whole bytes and two at least |
| RangeWire.StreamWritten | 3rd/RakNet/Source/DS_RangeList.h:74-98 | the stream that Serialize writes, byte by byte: the number of ranges in two bytes, the high one first; then each range where the ones before it end: 1 and the number if its ends are equal, 0 and both ends if not |
| RangeWire.RangeWritten | 3rd/RakNet/Source/DS_RangeList.h:78-90 | one range in the middle of any stream, and its size |
| RangeWire.DigitAt | 3rd/RakNet/Source/DS_RangeList.h:85-88 | byte i of a number in n bytes is the digit of 256^(n - 1 - i) |
| RangeWire.StreamExample | 3rd/RakNet/Source/DS_RangeList.h:74-98 | the ten bytes of a list of one single number and one range |
| RangeWire.FittingIs | 3rd/RakNet/Source/DS_RangeList.h:76-77 | the ranges written are the longest prefix of which each range, when its turn comes, has room for a count of 16 bits, all that was written before, and two ends with one bit |
| RangeWire.RangeRead | 3rd/RakNet/Source/DS_RangeList.h:127-138 | for any stream: a first byte other than 0 and one number are a range of that number; a first byte 0 and two numbers in order are that range; anything else is no range |
| RangeWire.StreamRead | 3rd/RakNet/Source/DS_RangeList.h:124-142 | for any stream and count, what Deserialize goes through: range after range, stopping in failure at the first place where there is none |
| RangeWire.CountRead | 3rd/RakNet/Source/DS_RangeList.h:119-120 | the count is 256 times the first byte and the second |
| RangeLists.RangeList.RoomForOne | 3rd/RakNet/Source/DS_RangeList.h:76-91 | a check that counts one bit for a flag of eight is enough, because all else comes in whole bytes |
| RangeLists.RangeList.Deserialize | 3rd/RakNet/Source/DS_RangeList.h:114-144 | reads back exactly the ranges of the stream up to the first bad one, for every stream, one too short for its count included; the list read can be inserted into if and only if the lower ends of its ranges increase |
| RangeLists.RangeList.ReadRanges | 3rd/RakNet/Source/DS_RangeList.h:124-142 | the loop reads ranges until one is bad |
| RangeLists.DecodedKept | 3rd/RakNet/Source/DS_RangeList.h:114-144 | what is read back is proper ranges; they are a list to insert into exactly when their lower ends increase |
| RangeLists.RangeList.ReadRange | 3rd/RakNet/Source/DS_RangeList.h:127-138 | reads one range, or finds the stream too short or the range upside down |
| RangeLists.DecodeEncoded | 3rd/RakNet/Source/DS_RangeList.h:78-90 | decoding undoes encoding of one range, whatever follows |
| RangeLists.DecodeEncodedAll | 3rd/RakNet/Source/DS_RangeList.h:64-144 | and of a list |
| RangeLists.RangeList.ReadsWhatWasWritten | 3rd/RakNet/Source/DS_RangeList.h:64-144 | what one list writes another reads: a prefix of it, the rest being what clearSerialized keeps |
| Runs.RunRounds | 3rd/RakNet/Source/DS_RangeList.h:64-144 | one list written in rounds and read by another: every stream is read well, what is received and what is left make up the list, and nothing is left in the end if and only if there was room for one range |
| RangeLists.RoundsDrain | 3rd/RakNet/Source/DS_RangeList.h:74-110 | as many calls as there are ranges write a list that is not empty, whole and in order, if and only if maxBits has room for one range of two ends by the check that the code makes |
| Heaps.Heap.Push | 3rd/RakNet/Source/DS_Heap.h:129-162 | the climbing loop keeps the heap order |
| Heaps.PushAddsNode | 3rd/RakNet/Source/DS_Heap.h:129-162 | exactly the new node joins |
| Heaps.PushOrders | 3rd/RakNet/Source/DS_Heap.h:129-162 | and the order is kept |
| Heaps.Heap.Pop | 3rd/RakNet/Source/DS_Heap.h:164-239 | hands out the node asked for; from the root, the order is kept |
| Heaps.PopRemovesNode | 3rd/RakNet/Source/DS_Heap.h:164-239 | exactly the node popped leaves |
| Heaps.PopOrders | 3rd/RakNet/Source/DS_Heap.h:164-239 | popping any node keeps the order if and only if it is the root or the last, or the last one may stand below its parent: the node moved only sinks |
| Heaps.PopExample | 3rd/RakNet/Source/DS_Heap.h:164-239 | a heap of six nodes that is out of order when its fourth is popped |
| Heaps.DrainSorts | 3rd/RakNet/Source/DS_Heap.h:164-239 | draining by Pop(0) yields all nodes, from the greatest weight down in a maximum heap and from the least up in a minimum heap |
| Heaps.TieExample | 3rd/RakNet/Source/DS_Heap.h:129-239 | among equal weights the node pushed later stays below, and a right child goes up before its left sibling |
| Heaps.RootIsFirst | 3rd/RakNet/Source/DS_Heap.h:241-251 | no node stands above the root |
| Heaps.Heap.PushSeries | 3rd/RakNet/Source/DS_Heap.h:81-127 | appending without sifting once the flag is set keeps the order and the nodes |
| Heaps.SeriesPushOrders | 3rd/RakNet/Source/DS_Heap.h:81-127 | one push of a series keeps the order and the meaning of the flag |
| Heaps.SeriesRunOrders | 3rd/RakNet/Source/DS_Heap.h:81-127 | so does any series of weights in heap order, on any heap |
| Heaps.Heap.PeekWeight | 3rd/RakNet/Source/DS_Heap.h:247-251 | the weight at the root of an ordered heap is >= every weight in a maximum heap, <= every weight in a minimum heap |
| Queues.Queue.Push | 3rd/RakNet/Source/DS_Queue.h:222-268 | one element more at the end, for every position of head and tail; the array doubles when that fills it, so it is never full |
| Runs.RunQueue | 3rd/RakNet/Source/DS_Queue.h:103-268 | after any run of pushes and pops at both ends a new queue holds what a plain sequence holds |
| Queues.Queue.PushAtHead | 3rd/RakNet/Source/DS_Queue.h:157-197 | the element goes before the one at the index, all behind it move back by one; the array grows as by Push |
| Queues.Queue.Pop | 3rd/RakNet/Source/DS_Queue.h:103-118 | takes the first element |
| Queues.Queue.PopTail | 3rd/RakNet/Source/DS_Queue.h:120-136 | takes the last element |
| Queues.Queue.RemoveAtIndex | 3rd/RakNet/Source/DS_Queue.h:414-457 | takes out the element at the position; out of range, nothing happens |
| Queues.Queue.Compress | 3rd/RakNet/Source/DS_Queue.h:342-366 | same elements in an array of the least power of two above their number |
| Queues.Queue.At | 3rd/RakNet/Source/DS_Queue.h:400-412 | the element at the position of the plain sequence |
| Queues.Queue.Size | 3rd/RakNet/Source/DS_Queue.h:64-71 | never as large as the array, once there is one |
| Queues.Queue.MoveBack | 3rd/RakNet/Source/DS_Queue.h:168-189 | the shifting loop of PushAtHead |
| Queues.Queue.CloseGap | 3rd/RakNet/Source/DS_Queue.h:425-450 | the shifting loop of RemoveAtIndex |
| Queues.WindowUpdate | 3rd/RakNet/Source/DS_Queue.h:400-412 | writing one cell of the ring changes one element |
| Multilists.QSort | 3rd/RakNet/Source/DS_Multilist.h:868-962 | both quicksorts terminate and leave the segment sorted and permuted, the rest as it was |
| Multilists.Partition | 3rd/RakNet/Source/DS_Multilist.h:871-904 | up to the left index nothing that must stand behind anything from the right index on; the segment permuted |
| Multilists.BothSorted | 3rd/RakNet/Source/DS_Multilist.h:905-914 | sorting the two sides sorts the segment |
| Multilists.Multilist.Sort | 3rd/RakNet/Source/DS_Multilist.h:842-857 | a permutation sorted by <= or by >=, as the order asked for is; a list taken for sorted stays as it is unless forced |
| Multilists.Multilist.SetSortOrder | 3rd/RakNet/Source/DS_Multilist.h:964-975 | a list taken for sorted in the other order is reversed, any other list stays as it is |
| Multilists.Multilist.ReverseListInternal | 3rd/RakNet/Source/DS_Multilist.h:1198-1209 | the list reversed in place |
| Multilists.Multilist.Push | 3rd/RakNet/Source/DS_Multilist.h:343-392 | one element more at the end; the order to sort in stays, and the list is no longer taken for sorted unless it was empty |
| Multilists.Multilist.constructor | 3rd/RakNet/Source/DS_Multilist.h:260-279 | a new list is empty, not taken for sorted, and to be sorted ascending |
| Multilists.Multilist.Clear | 3rd/RakNet/Source/DS_Multilist.h:778-798 | the list is empty; the order to sort in stays, and an array of fewer than 128 cells is dropped |
| Runs.RunMultilist | 3rd/RakNet/Source/DS_Multilist.h:260-975 | after any run of Push, SetSortOrder, Clear and Sort on a new list, ended by Sort, it holds what was pushed since it was cleared last, sorted by <= or by >= as SetSortOrder said last, and by <= if it was never called |
| Multilists.Multilist.ReallocateIfNeeded | 3rd/RakNet/Source/DS_Multilist.h:1141-1196 | room for one more, same elements; an array that is full grows to 32 cells, to twice its size, or by 65536 |
| Multilists.FindIntersection | 3rd/RakNet/Source/DS_Multilist.h:1093-1139 | sorts the sources, for good, in ascending order; what is shared and what is unique to one source make up that source, the two unique lists have nothing in common, what is shared is the multiset intersection, and all three lists come out ascending while the order they are to be sorted in stays what it was |
| Multilists.MergeHead | 3rd/RakNet/Source/DS_Multilist.h:1109-1127 | one turn of the merging loop keeps the merge right |
| Multilists.MergedAll | 3rd/RakNet/Source/DS_Multilist.h:1109-1139 | when both sources are used up the three lists are as promised |
| ObjectPools.ObjectPool.Initialize | src/common/objectpool.h:90-130 | all slots free, the chain being 0, 1, 2 and so on; refuses no slots and more than 65535 |
| ObjectPools.ObjectPool.Allocate | src/common/objectpool.h:158-180 | the first slot of the free chain; null if and only if all slots are allocated; the chain visits exactly the free slots, each once, and the count is that of the others |
| ObjectPools.ObjectPool.Free | src/common/objectpool.h:182-217 | a handle of the present generation of an allocated slot frees it and opens its next generation; any other changes nothing |
| ObjectPools.ObjectPool.Get | src/common/objectpool.h:219-232 | a handle resolves to its own slot exactly when the slot has been freed a multiple of 65536 times since |
| ObjectPools.HandleRecurs | src/common/objectpool.h:209-212 | a slot has the same handle again after every 65536 frees, and at no time in between |
| Runs.RunHandles | src/common/objectpool.h:158-232 | after any run of taking objects and giving handles back, stale and made-up ones included, each handle ever handed out resolves to its own slot exactly when that has been freed a multiple of 65536 times since |
| Runs.RunSlots | src/common/objectpool.h:90-217 | in any run of taking and freeing on a new pool each slot taken is the top one of a plain stack, on which the slots lie in order at first and each slot freed is put on top |
| Runs.TakenInOrder | src/common/objectpool.h:116-180 | so the first slots that a new pool gives are 0, 1, 2 and so on |
| Runs.GivenOnTop | src/common/objectpool.h:182-217 | and slots freed come back before all others, the last freed first |
| ObjectPools.HandleExample | src/common/objectpool.h:209-212 | a handle 65536 frees old is the handle of its slot again |
| ObjectPools.HandleAdvances | src/common/objectpool.h:209-212 | freeing turns the handle of a generation into that of the next |
| ObjectPools.NextMagic | src/common/objectpool.h:210-211 | the 16-bit generation wraps around and skips nothing |
| ObjectPools.UnchainFirst | src/common/objectpool.h:171-173 | the chain without its first slot is a chain |
| ObjectPools.ChainFirst | src/common/objectpool.h:204-205 | so is the chain with a slot put first |
| Base64.Encode | src/common/bin2ascii.h:62-87 | the loops compute the encoding |
| Base64.Decode | src/common/bin2ascii.h:89-132 | the loops compute the decoding, with its two kinds of refusal |
| Base64.EncodeGroup | src/common/bin2ascii.h:70-82 | the characters of one group of bytes |
| Base64.DecodeQuad | src/common/bin2ascii.h:120-129 | the bytes of one group of characters, or the characters refused |
| Base64.DecodeEncoded | src/common/bin2ascii.h:62-132 | every encoding is accepted and decodes to what was encoded (section 4 of RFC 4648) |
| Base64.EncodedLength | src/common/bin2ascii.h:62-87 | four characters for every three bytes begun |
| Base64.EncodeDecoded | src/common/bin2ascii.h:89-132 | decoding and encoding again gives back a text if and only if it is canonical: padding only at its end, and zero bits where nothing is encoded |
| Base64.StrayBitsExample | src/common/bin2ascii.h:89-132 | a text that is accepted, but is not what its byte is encoded as |
| Base64.EncodedIsCanonical | src/common/bin2ascii.h:62-87 | every encoding is canonical |
| Base64.DecodeRefuses | src/common/bin2ascii.h:112-125 | accepted are exactly the texts of whole groups in which every character is of the alphabet or padding |
| Base64Standard.SymbolIs | src/common/bin2ascii.h:65 | the 64 characters of the encoder are A to Z, a to z, 0 to 9, + and /, in this order (table 1 of RFC 4648) |
| Base64Standard.PadIs | src/common/bin2ascii.h:66 | the padding is = |
| Base64Standard.LookupIs | src/common/bin2ascii.h:91-109 | the decoder finds the place of a character in that table, and takes padding for 0 |
| Base64Standard.DigitsSum | src/common/bin2ascii.h:70-82 | the four digits of a group, read to base 64, are its three bytes read to base 256 |
| Base64Standard.EncodedStandard | src/common/bin2ascii.h:62-87 | for any bytes and every place in their encoding: the character there is that of the place in the table, or padding, that the standard has there, the table and the numbers being written out apart from the code |
| Base64Standard.DecodedStandard | src/common/bin2ascii.h:89-132 | for any text: a length that is no multiple of four is refused, else the first group with a strange character is, else the answer is the bytes that the places of the characters spell |
| Base64.TablesInverse | src/common/bin2ascii.h:65-109 | the tables of encoder and decoder are each other's inverse on the alphabet |

## Left out

- BPlusTree.BPlusTree.Insert: nothing is said about a tree into which a bound key has slipped past, other than that its listing is out of order.
- BPlusTree.BPlusTree.InsertBelow: a key that slips past in the leaf just below never gets there; InsertBranchDown, which rotates first, covers it.
- B+ tree of order 2 or 3, with its special cases (`3rd/RakNet/Source/DS_BPlusTree.h:353-362, 437-438`); `Clear`, `FreePages`, the ForEach functions, printing and validation.
- B+ tree pages: the arrays embedded in a page are sequences of fixed length in its fields, `data` with one spare slot, because ShiftNodeLeft reads one cell beyond the used part; pages come from `new`, not from the memory pool; what a return action carries is returned as a value instead of being changed behind a pointer.
- GraphPaths.WeightedGraph.GetShortestPath: a matrix cached for the same start must have been made for a graph of the same nodes and with the same infinity, because the flat matrix is read with the present number of nodes (`3rd/RakNet/Source/DS_WeightedGraph.h:264, 278, 295`) and the mark of an unreached node is the infinity it was made with; the start must be a node of the graph when a search is made, as the search of its column asserts (`3rd/RakNet/Source/DS_Map.h:152-156`).
- SpanningTrees.GetSpanningTree: the output tree must have no children, since DeleteDecendants would leave its list of children dangling; the start must be a node of the graph.
- SpanningTrees.TreeSpellsShortest: graphs of fewer than three nodes, which are answered without a search.
- Graph: RemoveNode, RemoveConnection, HasConnection, Clear, copying and printing. The maps of `DS_Map.h` are finite maps, indexed in increasing key order, and the cost matrix is two-dimensional instead of a flat array.
- MemoryPools.MemoryPool.Allocate: what memory there is is a parameter; a page must have room for two blocks, which the code asserts (`3rd/RakNet/Source/DS_MemoryPool.h:148`); SetPageSize before the first allocation is the constructor's page size, and after it is left out.
- AvlTrees.AvlTree.BalanceTree: `rotateOnce` is true, as Add has it; false is what deletion passes.
- AVL deletion: with children of equal height it makes a double rotation, which can leave the tree unbalanced. The items are integers instead of pointers to elements; Find and FindParent return pointers instead of references to static variables.
- RangeLists.RangeList.Deserialize: the count of a stream of fewer than two bytes, which the code reads without a check, is any number; the bit stream is the bytes from a byte boundary on, numbers most significant byte first, lengths below 2^31 bits.
- RangeLists.RangeList.Insert: integers do not wrap around.
- OrderedLists.OrderedList.Insert: the assertion on duplicates is taken as switched off, as in a release build.
- Heap: Push or Pop between the pushes of a series.
- Queue: copying, Clear, ClearAndForceAllocation, Find, Peek and PeekTail.
- Multilists.FindIntersection: an output list that is also a source or another output.
- StaleAnswers.StaleExactly: one call of AddConnection; a run of them is judged call by call.
- Multilists.Multilist.Push: queues and ordered lists, which keep their elements in other ways, and RemoveAtIndex, after which the sort state cannot be trusted, are left out.
- Object pool: locking by threads other than the main one, Terminate and initialising again; an object is its handle only.
- Hexadecimal: hex2bin and bin2hex, which shifts a plain char.
- The exceptions of base64 carry the characters refused, not a message.
- Everything else in the repository: networking, HTTP, Redis, Lua, logging, timers and the game server's own bookkeeping.
