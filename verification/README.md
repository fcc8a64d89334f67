# A verified model of the SGI Standard Template Library

The library's containers and algorithms are class templates full of pointer
surgery: red-black trees with a header node, ropes that share their nodes and
count references, a sort that falls back on a heap, merges within one array,
an allocator that keeps freed blocks on lists. This project states what they
promise and proves it of a model that takes the same branches in the same
order, with the same constants.

- **Trees** (`Rb*.dfy`). Nodes are objects with colour and three links that
  the operations rewrite. A ghost tree, or a focus in it and the path above,
  says what the links spell out. `RbTree.RbTree.Valid()` holds the links both
  ways, the colours, the black heights, the order of keys, the element count
  and the header's leftmost and rightmost links, and every operation keeps it.
- **Ropes** (`RopeRep`, `RopeConcat`, `RopeOps`). Representations are values,
  as the source treats them as constant; the forest of the balancing is an
  array. `Text` is what a representation means. `RopeCells` and `RopeStore`
  put the same representations into cells with reference counts, which ropes
  share, and prove what appending in place does to the other ropes.
  `RopeIterator` is the iterator with its cached path, direction bits and
  15-character buffer, an array of its own, into which copies may point.
- **Algorithms on ranges** (`Heaps`, `InsertionSort`, `Introsort`, `Rotate`,
  `RotateCycles`, `Copying`, `Merging`, `InplaceMerge`, `StableSort`,
  `Permutations`) work on arrays in place. `Stability` says what a stable
  rearrangement is and that a stable sort is unique.
- **The allocator** (`Allocator`). Memory is a map from addresses to words, in
  which the free lists are threaded; a ghost map gives each eight-byte unit
  its owner. Whether `malloc` and `realloc` succeed, and where, is up to the
  caller of the model.
- **Containers**: `Deque` with `DequeIterator`; `Lists`, `ListNodes` and
  `ListSort`; `HashTable` with `HashChains` and `HashResize`; `BitVector` with
  `Bits` and `BitIterator`, on 32-bit words.

Orders are parameters, required to be strict weak orders where the source
requires it. `Orders`, `Options`, `Sequences`, `Ranges` and `Powers` are
shared vocabulary. Where the source has one version with `<` and one with a
comparison object, the table cites the latter.

## Findings

Six places where the code does other than its comments or its interface say.
Each is kept as it is, with an input that shows it and the exact condition.

| place | what happens | when exactly |
|---|---|---|
| headers/cpp/stl_deque.h:1040-1067 | When a range is erased by moving the front half, the nodes to be given back are named the wrong way round, from the new start to the old one, so that the loop over them does nothing: the nodes passed over stay allocated and out of use. `Deque.LeakExample` is such a call. | `Deque.Deque.LeaksExactly`, `Deque.Deque.EraseRange` |
| headers/cpp/stl_deque.h:57-58 | The comment on the class says that a slot of the map points to an allocated node if and only if it lies between the start's node and the finish's. Two things break it: moving the nodes within the map leaves the old slots as they were (`Deque.RecentreExample`, by pushes and pops), and a slot that is no longer used keeps the pointer to a node that was given back, whose address may be used again (`Deque.ReuseExample`). | `Deque.Deque.PushBack`, `Deque.Deque.PushFront`: a push that adds a node keeps it if and only if no unused slot holds that node's address, and, where the map has no room, if and only if a new map is made; `Deque.Deque.InsertN` for several at once; pops and erasures of one element never break it |
| headers/cpp/stl_hashtable.h:955-975 | A range that begins behind the head of a bucket is erased to the end of that bucket, whatever its end. `HashTable.OverrunExample` loses an element so. | `HashTable.HashTable.EraseRange`: if and only if the range begins behind the head and ends before the end of one bucket |
| headers/cpp/stl_rope.h:916-924, 951-960 | A copied iterator goes on pointing into the 15-character buffer of the original. Once the original has refilled it, the copy reads wrong characters: `RopeIterator.CopyGoesWrong`. | `RopeIterator.IncrBeside`, `RopeIterator.DerefBeside`, `RopeIterator.AssignBeside`: what the move, read or assignment of one iterator does to another, if and only if, told before the call |
| headers/cpp/ropeimpl.h:1160 | The assertion says that putting the short pieces in front makes the new piece at most one deeper. `RopeConcat.DepthAssertionFails` adds a rope for which it fails; the bounds that the balancing relies on hold all the same, by `RopeConcat.AddLeafToForest`. | `RopeConcat.DepthAssertion`: if and only if the short pieces are no deeper than the new one |
| headers/cpp/stl_alloc.h:570-572 | Between two sizes above 128 `reallocate` calls `realloc` itself, so that failure gives a null pointer and the out-of-memory handler is not tried: `Allocator.ReallocateNull`, a block of 200 bytes to become 300. | `Allocator.Allocator.Reallocate`: null although the handler could have helped only where both sizes are above 128, and there if and only if `realloc` fails; otherwise a null result means that `malloc` and the handler failed both |

## Model

| member | source | states |
|---|---|---|
| RbNode.RotateLeft | headers/cpp/stl_tree.h:216-233 | The pointer assignments of a left rotation, at any node with a right child anywhere in a tree, leave linked exactly the rotated tree in the same surroundings: every link, parent link and the root. |
| RbNode.RotateRight | headers/cpp/stl_tree.h:235-252 | The mirror image. |
| RbInsert.LinkLeaf | headers/cpp/stl_tree.h:830-849 | A new node linked below its parent is the focus of the tree there, and the header's leftmost and rightmost links are those of the grown walk. |
| RbInsert.Rebalance | headers/cpp/stl_tree.h:254-297 | From any linked tree that is red-black but for the one node now painted red, the loop ends in a red-black tree with the same nodes in the same order, every link and the root in place. |
| RbUnlink.RebalanceForErase | headers/cpp/stl_tree.h:299-429 | For every red-black tree and every node of it: that very node is unlinked and returned, the others keep their identity and their order, and links, colours, black heights, leftmost and rightmost hold again, with one child, with none, and with the successor relinked into the place. |
| RbErase.MendShort | headers/cpp/stl_tree.h:360-426 | From any tree that lacks one black node on the paths through one place, the loop of the erasure ends in a red-black tree with the same nodes in the same order. |
| RbIterate.Increment | headers/cpp/stl_tree.h:109-125 | The next node in order, or the header behind the last. |
| RbIterate.Decrement | headers/cpp/stl_tree.h:127-146 | The node before in order, and from the header the last one. |
| RbSearch.LowerBound | headers/cpp/stl_tree.h:1162-1178 | The first node whose key is not less than the given one, in a walk that it splits exactly, or the header. |
| RbSearch.UpperBound | headers/cpp/stl_tree.h:1198-1214 | The first node whose key is greater than the given one, in a walk that it splits exactly, or the header. |
| RbSearch.InsertionPoint | headers/cpp/stl_tree.h:861-868 | The descent of an insertion ends at a gap behind all keys that are not greater and before all that are, and its last comparison tells the side. |
| RbTree.RbTree.constructor | headers/cpp/stl_tree.h:675-681 | An empty tree is a valid one. |
| RbTree.RbTree.InsertAt | headers/cpp/stl_tree.h:819-853 | At any gap where the value fits, one new node comes in there, and every invariant of the tree holds again. |
| RbTree.RbTree.InsertEqual | headers/cpp/stl_tree.h:855-869 | A new node always comes in, behind all equivalent ones. |
| RbTree.RbTree.InsertUnique | headers/cpp/stl_tree.h:872-896 | A node comes in exactly when no element is equivalent; otherwise nothing changes and the equivalent element is returned. A tree without equivalent elements stays one. |
| RbTree.RbTree.InsertUniqueAt | headers/cpp/stl_tree.h:899-930 | With any hint, right or wrong, the same condition decides and the same elements result. |
| RbTree.RbTree.InsertEqualAt | headers/cpp/stl_tree.h:932-963 | With any hint a node comes in: at the hint exactly when the value fits there (and at the front is less than the first), otherwise behind all equivalent ones. |
| RbTree.RbTree.Erase | headers/cpp/stl_tree.h:1023-1035 | Exactly this node goes; the others stay, in order. |
| RbTree.RbTree.EraseKey | headers/cpp/stl_tree.h:1037-1047 | All elements with the key go and no other, and their number is returned. |
| RbTree.RbTree.EraseRange | headers/cpp/stl_tree.h:1093-1102 | Exactly the elements of the range go, by the clearing of the whole tree or one by one. |
| RbTree.RbTree.Clear | headers/cpp/stl_tree.h:732-740 | No element is left and the tree is valid. |
| RbTree.RbTree.Next | headers/cpp/stl_tree.h:172-173 | From the i-th element to the next one, or to the end: walking from begin meets every element once. |
| RbTree.RbTree.Prev | headers/cpp/stl_tree.h:179-180 | The inverse, from the end too. |
| RbTree.RbTree.EqualRange | headers/cpp/stl_tree.h:1236-1243 | The bounds of the run of all elements with the key, and only those. |
| RbTree.RbTree.Count | headers/cpp/stl_tree.h:1150-1160 | The length of that run. |
| RbTree.RbTree.Find | headers/cpp/stl_tree.h:1112-1129 | The first element with the key, and the end exactly when there is none. |
| RbVerify.BlackCount | headers/cpp/stl_tree.h:1256-1268 | The black nodes from a node up to the root. |
| RbVerify.Verify | headers/cpp/stl_tree.h:1270-1304 | For any linked tree, whatever its colours, order, ends and recorded count: true exactly when count and header say that it is empty, or neither and the header knows the first and the last node and, on every way from the root, no red node has a red child, no child is out of order with its parent and all childless nodes have as many black ones on the way as the leftmost. A tree that passes is coloured exactly when a node with one child has a red and childless one. |
| RbVerify.CheckedMeans | headers/cpp/stl_tree.h:1279-1295 | The tests made node by node come to those three facts about all ways from the root. |
| RbVerify.ColoredMeans | headers/cpp/stl_tree.h:1285-1295 | A tree without red neighbours in which all childless nodes have the same number of black ones above them meets the colour invariants if and only if the one child of a node that has one is red and childless, which the check does not look at. |
| RbVerify.ColoredIsChecked | headers/cpp/stl_tree.h:1270-1304 | Those local conditions hold in every coloured and sorted tree, at every depth. |
| RbVerify.VerifyTree | headers/cpp/stl_tree.h:1270-1304 | The check succeeds on every valid tree, hence after any run of the operations. |
| RbVerify.HeightBound | headers/cpp/stl_tree.h:37-54 | A red-black tree of n nodes has 2 to the power of half its height (rounded up) at most n + 1. |
| RopeRep.SizeIsTextLength | headers/cpp/stl_rope.h:553-624 | The stored size of every representation is the length of its text, which is not empty. |
| RopeConcat.TreeConcat | headers/cpp/ropeimpl.h:443-476 | The text is the two texts joined; the result is that one node unless it is too deep, and then a balanced tree: one of less than 1000 characters is at most 20 deep, and none is deeper than 45. |
| RopeConcat.ConcatReps | headers/cpp/ropeimpl.h:589-632 | The text is the two texts joined. Two leaves that fit become one, a right leaf with room takes a leaf in without the tree growing deeper, and otherwise one node joins them, in a balanced tree where that node would be too deep: no result of less than 1000 characters is more than 20 deep. |
| RopeConcat.ShallowDoesNotRebalance | headers/cpp/ropeimpl.h:1085-1111 | Within balancing, no concatenation can ask for balancing again: the recursion cannot re-enter. |
| RopeConcat.TakeTiny | headers/cpp/ropeimpl.h:1137-1150 | The slots below the one for the new piece are emptied into one piece that holds their text in order. |
| RopeConcat.DepthAssertion | headers/cpp/ropeimpl.h:1151-1160 | After the short pieces are put in front, the depth is at most one more than that of the new piece if and only if the short pieces (but for a right leaf that is copied together with it) are no deeper than it. |
| RopeConcat.DepthAssertionFails | headers/cpp/ropeimpl.h:1151-1160 | A left-nested rope of producers of 3, 3 and 21 characters, added to an empty forest as balancing does, meets the assertion with a piece that is deeper by two. |
| RopeConcat.AddLeafToForest | headers/cpp/ropeimpl.h:1134-1180 | For any forest and any balanced piece, up to the longest rope: the text of the forest grows by exactly that of the piece, each slot keeps a piece of its least length and depth, the index stays in the forest, and which slot holds which tree is determined; the depth assertion on the way fails exactly when the short pieces in front make the piece deeper by more than one. |
| RopeConcat.InsertMerge | headers/cpp/ropeimpl.h:1161-1176 | The arithmetic of one merge: length and depth of the merged piece meet the bounds of the next slot. |
| RopeConcat.AddToForest | headers/cpp/ropeimpl.h:1114-1129 | The same for any representation, cut at its balanced parts. |
| RopeConcat.Balance | headers/cpp/ropeimpl.h:1078-1111 | For any rope no longer than the longest: the same text, in a tree of depth one at most or of at least the size that the table of Fibonacci numbers has two below its depth; no depth exceeds 45 and the abort cannot be reached. |
| RopeOps.SubRep | headers/cpp/ropeimpl.h:634-746 | The text is that of the range, clipped at the end, with lazy substring nodes and substrings of substrings; the whole range gives the rope itself. |
| RopeOps.Fetch | headers/cpp/ropeimpl.h:1182-1222 | The character is the one at that index of the text. |
| RopeOps.Flatten | headers/cpp/ropeimpl.h:960-993 | The text is written into the buffer in order, and nothing else of the buffer changes. |
| RopeOps.Replace | headers/cpp/stl_rope.h:1951-1971 | The text before, the new text and the text behind, positions beyond the end being clipped. |
| RopeOps.Insert | headers/cpp/stl_rope.h:1974-1982 | The text with the other spliced in. |
| RopeOps.ConcatCharIter | headers/cpp/ropeimpl.h:478-528 | The text grows by the characters, by a longer leaf or a new one. |
| RopeOps.Power | headers/cpp/stl_numeric.h:179-200 | Repeated squaring under concatenation, which is not commutative, gives the text n times over. |
| RopeOps.Fill | headers/cpp/ropeimpl.h:1369-1432 | Exactly n copies of the character. |
| RopeIterator.RopeIterator.SetBuf | headers/cpp/ropeimpl.h:31-73 | With a right path cache, the buffer denotes the text around the position: in the leaf itself, or copied to the 15-character buffer. |
| RopeIterator.RopeIterator.Window | headers/cpp/ropeimpl.h:49-63 | The stretch of a leaf that the 15-character buffer takes: the whole of a short leaf; else 15 characters from its beginning if they reach the position, and otherwise from three before the position, or up to the end of the leaf. |
| RopeIterator.RopeIterator.SetCache | headers/cpp/ropeimpl.h:76-147 | Path, directions and leaf position become those of the real path to the position, whatever they were. |
| RopeIterator.RopeIterator.SetCacheForIncr | headers/cpp/ropeimpl.h:150-213 | From the cache for an earlier position: climbing and descending leave the real path, with the cache shifted or not. |
| RopeIterator.RopeIterator.Incr | headers/cpp/ropeimpl.h:215-229 | The position moves and the iterator stays valid; what the 15-character buffer holds afterwards is determined by the state before: another window of text only when the old one is used up to its end. |
| RopeIterator.RopeIterator.Decr | headers/cpp/ropeimpl.h:231-242 | The position moves back and the iterator stays valid, its buffer being dropped when left. |
| RopeIterator.RopeIterator.Next | headers/cpp/stl_rope.h:965-974 | One step on, within the buffer or beyond it. |
| RopeIterator.RopeIterator.Deref | headers/cpp/stl_rope.h:961-964 | After any run of constructions, copies into fresh iterators, moves and reads, the character is the one of the rope's text at the position, as long as the iterator is valid. |
| RopeIterator.RopeIterator.constructor | headers/cpp/stl_rope.h:909-910 | An iterator anywhere in a rope is valid, without a buffer. |
| RopeIterator.RopeIterator.Copy | headers/cpp/stl_rope.h:916-924 | A copy is valid at the moment of copying, with the buffer pointer of the original. |
| RopeIterator.RopeIterator.Assign | headers/cpp/stl_rope.h:951-960 | The same for assignment, if and only if the pointer taken over does not lead into the buffer that the assignment itself overwrites with other characters. |
| RopeIterator.RopeIterator.StaysRight | headers/cpp/stl_rope.h:916-924 | While other things happen, a buffered iterator remains valid if and only if its buffer lies in a leaf or C string, or the buffer it points into holds the same characters. |
| RopeIterator.IncrBeside | headers/cpp/ropeimpl.h:215-229 | One iterator moves beside another, which may be a copy: the other goes wrong if and only if it points into the buffer of the first, the move ends just at the end of that buffer and leads to a node that is not a leaf (nor to a C string), and the window of text there differs from the other's. |
| RopeIterator.DerefBeside | headers/cpp/stl_rope.h:961-964 | One iterator is read beside another: the other goes wrong if and only if it points into the buffer of the first, that has to be filled, and the window of text differs. |
| RopeIterator.AssignBeside | headers/cpp/stl_rope.h:951-960 | One iterator is assigned beside another: the other goes wrong if and only if it points into the buffer that is overwritten, by other characters. |
| RopeIterator.CopyGoesWrong | headers/cpp/stl_rope.h:916-924 | For every function rope of 30 characters or more whose first and thirteenth differ: copy an iterator after a read, move the original on and read; the copy's buffer now holds a wrong character. |
| RopeStore.RopeStore.Unref | headers/cpp/stl_rope.h:500-505 | Dropping one reference frees exactly what nothing else refers to, down the tree; what remains keeps its count and its text. |
| RopeStore.RopeStore.TreeConcat | headers/cpp/ropeimpl.h:443-476 | In the store, with counts: the joined tree is owned by the caller, no other representation changes, and one of less than 1000 characters is at most 20 deep. |
| RopeStore.RopeStore.ConcatCharIter | headers/cpp/ropeimpl.h:478-528 | The text grows in a new representation, the one that joining with a leaf of the characters gives; the old one and all others keep theirs. |
| RopeStore.RopeStore.GrowLeaf | headers/cpp/ropeimpl.h:405-436 | A leaf that only this rope refers to is grown in place, if it does not outgrow the memory obtained for it; no other rope's text changes. |
| RopeStore.RopeStore.GrowRight | headers/cpp/ropeimpl.h:552-574 | The right leaf of an unshared concatenation grows in place if it is unshared too and does not outgrow its memory, and otherwise a new leaf takes its place; no other rope's text changes. |
| RopeStore.RopeStore.DestrConcatCharIter | headers/cpp/ropeimpl.h:531-586 | On every branch: this rope's text grows by the characters, in the last leaf if they fit there and in a leaf of their own if not; reference counts stay exact, no leaf outgrows its memory and no other rope's text changes. |
| RopeStore.RopeStore.Append | headers/cpp/stl_rope.h:1879-1885 | For every set of ropes that share any of their parts: the text of this rope grows by the characters and that of every other rope stays as it was. |
| RopeStore.RopeStore.CopyRope | headers/cpp/stl_rope.h:1671-1675 | A copy shares the tree; all texts are as before. |
| RopeStore.RopeStore.DropRope | headers/cpp/stl_rope.h:1677-1680 | The rope goes, with what it alone referred to; all other texts are as before. |
| RopeStore.RopeStore.NewRope | headers/cpp/stl_rope.h:1619-1622 | A rope of these characters, beside all others. |
| RopeCells.RootAlone | headers/cpp/ropeimpl.h:407-434 | When counts are exact, a count of one on a rope's root means that no node and no other rope refers to it: the test that guards growing in place. |
| RopeCells.RightAlone | headers/cpp/ropeimpl.h:552-556 | A count of one on the right child means that its parent alone refers to it. |
| RopeStore.CapacityKept | headers/cpp/stl_rope.h:1417-1423 | A leaf grown within its allocated capacity fits in the memory obtained for it, with the terminator of basic characters, and a new leaf of that size would need just as much. |
| Heaps.PushHeap | headers/cpp/stl_heap.h:74-85 | From a heap with one hole, the value finds a place where the heap property holds everywhere, the other elements being rearranged. |
| Heaps.AdjustHeap | headers/cpp/stl_heap.h:154-173 | From heaps below a hole, sinking to a leaf and rising again gives a heap from the hole on, of the same elements and the value. |
| Heaps.PushLast | headers/cpp/stl_heap.h:98-103 | A heap and one element behind it become a heap. |
| Heaps.MakeHeap | headers/cpp/stl_heap.h:229-244 | Any range becomes a heap of the same elements. |
| Heaps.PopHeap | headers/cpp/stl_heap.h:197-202 | The greatest goes to the end and the rest is a heap. |
| Heaps.SortHeap | headers/cpp/stl_heap.h:263-269 | A heap becomes a sorted rearrangement. |
| Heaps.PartialSort | headers/cpp/stl_algo.h:1576-1586 | The least elements come to the front, sorted, none of the rest being less. |
| InsertionSort.UnguardedLinearInsert | headers/cpp/stl_algo.h:1161-1173 | Where an element not greater than the value lies further down, the scan stops inside and the range is stably sorted. |
| InsertionSort.LinearInsert | headers/cpp/stl_algo.h:1187-1197 | One more element is sorted in stably, whether it goes to the very front or not. |
| InsertionSort.Sort | headers/cpp/stl_algo.h:1206-1212 | The stable sort of the range. |
| Introsort.MedianIsMiddle | headers/cpp/stl_algo.h:61-77 | The median is one of the three, not less than two of them and not greater than two. |
| Introsort.UnguardedPartition | headers/cpp/stl_algo.h:1127-1144 | With an element on each side that stops the scans, they stay in the range, the cut is strictly inside, and nothing before it is greater than the pivot nor anything behind it less. |
| Introsort.MedianPartition | headers/cpp/stl_algo.h:1303-1309 | The median of three provides those elements for every range of three or more, with or without equal ones. |
| Introsort.IntrosortLoop | headers/cpp/stl_algo.h:1292-1313 | By partitioning, or by the heap when too deep: a rearrangement in which any two elements 16 places apart or more are in order, hence the least is among the first 16. |
| Introsort.FinalInsertionSort | headers/cpp/stl_algo.h:1253-1263 | Under that condition the unguarded insertions never pass the left end, and the result is the stable sort of what the loop left. |
| Introsort.Sort | headers/cpp/stl_algo.h:1325-1335 | For every range and every strict weak order: a sorted rearrangement. |
| Introsort.NthElement | headers/cpp/stl_algo.h:1693-1711 | Nothing before the n-th place is greater than it and nothing behind is less, in a rearrangement. |
| Rotate.RotateForward | headers/cpp/stl_algo.h:704-735 | For every split: the second part, then the first, and the new middle. |
| Rotate.RotateReversing | headers/cpp/stl_algo.h:738-763 | The same, by three reversals. |
| RotateCycles.Gcd | headers/cpp/stl_algo.h:692-702 | The greatest common divisor, with the cofactors that make it one. |
| RotateCycles.FollowCycle | headers/cpp/stl_algo.h:783-814 | One cycle of the exchange is followed within bounds, and exactly its elements have moved, to where they belong. |
| RotateCycles.WalkReaches | headers/cpp/stl_algo.h:781-783 | With coprime steps the walk of one cycle reaches every place of its class. |
| RotateCycles.RotateByCycles | headers/cpp/stl_algo.h:765-816 | The gcd cycles together give the same as the other two forms. |
| Merging.MergeIsStable | headers/cpp/stl_algo.h:1958-1975 | The merge of two sorted runs is sorted, with equivalent elements in the order of the first run, then the second. |
| Merging.MergeUnique | headers/cpp/stl_algo.h:1958-1975 | And it is the only sequence that is. |
| Merging.MergeInto | headers/cpp/stl_algo.h:1958-1975 | The destination receives that merge, also when it overlaps the second run from in front. |
| Merging.MergeBackward | headers/cpp/stl_algo.h:2103-2132 | The destination receives that merge, also when it overlaps the first run from behind. |
| Copying.Copy | headers/cpp/stl_algobase.h:133-144 | The source as it was is in the destination, also when they overlap with the destination in front. |
| Copying.CopyBackward | headers/cpp/stl_algobase.h:230-241 | The same with the destination behind. |
| InplaceMerge.LowerBound | headers/cpp/stl_algo.h:1752-1775 | By halving: all before are less than the value, none behind is. |
| InplaceMerge.UpperBound | headers/cpp/stl_algo.h:1783-1806 | By halving: the value is less than none before and than all behind. |
| InplaceMerge.MergeWithoutBuffer | headers/cpp/stl_algo.h:2014-2050 | In place, by rotations: the stable merge of the two runs, for all lengths. |
| InplaceMerge.RotateAdaptive | headers/cpp/stl_algo.h:2052-2073 | The rotation, with either part in the buffer or neither. |
| InplaceMerge.MergeAdaptive | headers/cpp/stl_algo.h:2175-2217 | With a buffer of any size above zero: the same stable merge. |
| InplaceMerge.MergeInplace | headers/cpp/stl_algo.h:2236-2254 | With whatever buffer could be had, also none: the same stable merge. |
| StableSort.InplaceStableSort | headers/cpp/stl_algo.h:1353-1368 | Without a buffer: sorted, with equivalent elements in the order they had. |
| StableSort.ChunkInsertionSort | headers/cpp/stl_algo.h:1424-1435 | Runs of the chunk size, each stably sorted. |
| StableSort.MergeSortLoop | headers/cpp/stl_algo.h:1389-1410 | One pass doubles the length of the runs, the odd ones at the end included, and keeps equivalent elements in order. |
| StableSort.MergeSortWithBuffer | headers/cpp/stl_algo.h:1455-1472 | Passes to and fro end in the stable sort, in the array itself. |
| StableSort.StableSortAdaptive | headers/cpp/stl_algo.h:1492-1514 | With a buffer of any size above zero: the stable sort. |
| StableSort.Sort | headers/cpp/stl_algo.h:1525-1553 | For every range, order and buffer that could be had: the stable sort. |
| Stability.StableSortUnique | headers/cpp/stl_algo.h:1525-1553 | There is only one stable sort of a sequence, so that all of these agree. |
| Stability.SameClassesPermutes | headers/cpp/stl_algo.h:1525-1553 | Keeping each class of equivalent elements in order implies being a rearrangement. |
| Permutations.StepIsNext | headers/cpp/stl_algo.h:2564-2576 | Exchanging at the pivot and reversing the tail gives the least arrangement of the same elements that is greater: none lies between. |
| Permutations.LastArrangement | headers/cpp/stl_algo.h:2577-2580 | A non-increasing arrangement is the last one, and its reversal the first. |
| Permutations.NextPermutation | headers/cpp/stl_algo.h:2556-2585 | True exactly when a greater arrangement exists, and then the least of them is there; false leaves the first arrangement. |
| Permutations.PrevPermutation | headers/cpp/stl_algo.h:2615-2644 | The same in the reversed order. |
| Permutations.PrevUndoesNext | headers/cpp/stl_algo.h:2586-2644 | Over a total order the one undoes the other. |
| Allocator.Conservation | headers/cpp/stl_alloc.h:466-524 | In every reachable state the pool, the blocks of the free lists and the small blocks that clients hold account for every byte that the pool was ever given, none counted twice. |
| Allocator.Allocator.ChunkAlloc | headers/cpp/stl_alloc.h:465-524 | Under every pattern of failures of malloc: memory for as many objects as asked for or as the pool holds, nothing that a client holds is touched, and the list of the class, if empty, stays empty. There is none if and only if the pool is too small for one object, every list from that class up is empty, and malloc and its handler fail; new memory serves all objects and leaves as much again. |
| Allocator.Allocator.HeapGrowth | headers/cpp/stl_alloc.h:480-481 | New memory is twice what is asked for and a sixteenth of the heap more, up to whole units. |
| Allocator.Allocator.PoolFromLists | headers/cpp/stl_alloc.h:495-508 | The pool becomes the head of the list of the least class that is large enough and has a free block, of the size of that class; nothing changes if and only if all lists from the class asked for up are empty. |
| Allocator.Allocator.FreeLeftOver | headers/cpp/stl_alloc.h:482-489 | What is left of the pool becomes a free block of its own class. |
| Allocator.Allocator.Refill | headers/cpp/stl_alloc.h:526-557 | One object goes to the client and 19 others onto the list, or as many as the pool held; overwriting the head of the list drops no block. It fails just when `ChunkAlloc` does. |
| Allocator.Allocator.Allocate | headers/cpp/stl_alloc.h:401-428 | A block that no client held, of the class asked for or straight from malloc or its handler: the head of the list if there is one. It fails if and only if the pool is shorter than the rounded size, every list from that class up is empty and malloc and its handler fail. Other clients keep their blocks and what is in them. |
| Allocator.Allocator.Deallocate | headers/cpp/stl_alloc.h:430-449 | The block is free, at the head of its list, and nothing else changes, but for the link written into it; a large block goes back to malloc. |
| Allocator.Allocator.Reallocate | headers/cpp/stl_alloc.h:560-579 | Between any two sizes: the words that fit are in the new block, the old one is given back (or is the same one), other clients keep theirs. It fails with the old block still held, if and only if realloc fails or, for all but two large sizes, the classes differ and an allocation of the new size fails. |
| Allocator.ReallocateNull | headers/cpp/stl_alloc.h:570-572 | A block of 200 bytes to be made one of 300 while realloc fails and the handler could help: null is returned and the block is still held. |
| Allocator.Allocator.Write | headers/cpp/stl_alloc.h:401-428 | A client that writes into what it holds breaks no invariant. |
| Allocator.ClassSize | headers/cpp/stl_alloc.h:334-352 | The rounded size is that of the class that the index names, at least the size asked for. |
| DequeIterator.PlusPos | headers/cpp/stl_deque.h:174-188 | Adding any offset, also a negative one, moves the position by just that and stays within a node. |
| DequeIterator.StepPos | headers/cpp/stl_deque.h:146-167 | A step moves the position by one, and the two directions undo each other. |
| DequeIterator.MinusPos | headers/cpp/stl_deque.h:141-144 | The difference is that of the positions. |
| DequeIterator.BeforePos | headers/cpp/stl_deque.h:204-210 | The order and equality are those of the positions. |
| Deque.Deque.constructor | headers/cpp/stl_deque.h:428-464 | The value n times, in nodes enough for one more, in the middle of a map whose slots point to exactly those nodes. |
| Deque.Deque.PushBack | headers/cpp/stl_deque.h:694-701 | One more at the back. The class comment on slots holds afterwards if and only if it did, where the last node has room; where a node is added, if and only if no slot outside those then in use holds the address of a node, the new one included; and where the map has no room, just when it is not more than twice the nodes needed. |
| Deque.Deque.PushFront | headers/cpp/stl_deque.h:712-719 | One more at the front, with the same conditions on that side. |
| Deque.Deque.PopBack | headers/cpp/stl_deque.h:731-738 | One less at the back; a node emptied is given back, and the class comment is not lost. |
| Deque.Deque.PopFront | headers/cpp/stl_deque.h:740-747 | One less at the front, likewise. |
| Deque.Deque.InsertOne | headers/cpp/stl_deque.h:749-765 | The sequence with the value at that place, and an iterator to it, by shifting the nearer side: the other end stays where it was in its node. The class comment survives exactly as for a push on that side. |
| Deque.Deque.InsertN | headers/cpp/stl_deque.h:965-981 | The sequence with n copies at that place, for all four ways of moving what is there, the farther end staying where it was in its node; the class comment holds afterwards under an exact condition on the slots before. |
| Deque.Deque.InsertOneFront | headers/cpp/stl_deque.h:1278-1295 | Inside the front half: everything before the place moves one towards the front, across nodes, and nothing behind it moves. |
| Deque.Deque.InsertOneBack | headers/cpp/stl_deque.h:1296-1307 | Inside the back half, the mirror image. |
| Deque.Deque.InsertAuxFront | headers/cpp/stl_deque.h:1338-1366 | The n copies made at the front, whether fewer or more elements lie before the place than are inserted. |
| Deque.Deque.InsertAuxBack | headers/cpp/stl_deque.h:1367-1392 | The same at the back. |
| Deque.Deque.EraseOne | headers/cpp/stl_deque.h:814-827 | The sequence without that element, the farther end staying where it was; the class comment is not lost. |
| Deque.Deque.EraseRange | headers/cpp/stl_deque.h:1040-1067 | The sequence without the range, the farther end staying where it was; the nodes leaked are exactly those passed over, and if a slot pointed to an allocated node just when in use, it still does if and only if none was passed over. |
| Deque.Deque.LeaksExactly | headers/cpp/stl_deque.h:1040-1067 | Nodes are passed over if and only if the front is the side moved and the start moves to another node. |
| Deque.LeakExample | headers/cpp/stl_deque.h:1040-1067 | A deque of six in nodes of two, the first two erased: a node is leaked. |
| Deque.Deque.Clear | headers/cpp/stl_deque.h:1069-1088 | Nothing is left, and all nodes but one are given back. |
| Deque.Deque.ReallocateMap | headers/cpp/stl_deque.h:1616-1650 | The contents stay, there is room on the side asked for and, with that used, as many slots are free before the nodes as behind them, or one less; whether slots point to allocated nodes exactly when in use is lost just when the nodes are moved within a map large enough. |
| Deque.Deque.ReserveMapAtBack | headers/cpp/stl_deque.h:918-921 | Where the room does not suffice, slots point to allocated nodes exactly when in use if and only if the map is not more than twice the nodes needed, so that a new one is made; where it suffices nothing changes. |
| Deque.Deque.ReserveMapAtFront | headers/cpp/stl_deque.h:923-926 | The same at the front. |
| Deque.Deque.RecentringMatters | headers/cpp/stl_deque.h:1626-1633 | Moving the slots within a map keeps that property only when it does not move them at all. |
| Deque.Deque.LeftAlone | headers/cpp/stl_deque.h:1624-1633 | When the nodes are moved within the map, the class comment can hold once k nodes are added only if those come to use every slot that was left: never for a single node, which is what a push adds. |
| Deque.Deque.NewElementsAtBack | headers/cpp/stl_deque.h:1597-1614 | Nodes for so many more elements, and the exact condition, on the slots and the addresses that the allocator returns, for the class comment to hold with them. |
| Deque.Deque.NewElementsAtFront | headers/cpp/stl_deque.h:1576-1593 | The same at the front. |
| Deque.RecentreExample | headers/cpp/stl_deque.h:57-58 | Pushes at the back and pops at the front bring the only node to the last of eight slots; the next push breaks the class comment. |
| Deque.ReuseExample | headers/cpp/stl_deque.h:57-58 | A node is given back by a pop at the back and its address is used again by a push at the front: the class comment is broken without any node being moved. |
| Deque.Deque.CopyForward | headers/cpp/stl_algobase.h:133-144 | A copy across nodes, in steps, with the destination in front of the source. |
| Deque.Deque.CopyBack | headers/cpp/stl_algobase.h:230-241 | A copy across nodes from behind. |
| ListNodes.Transfer | headers/cpp/stl_list.h:468-481 | A stretch of one ring moved into another leaves two rings, every link forward and back in place. |
| ListNodes.TransferWithin | headers/cpp/stl_list.h:468-481 | A stretch moved to a place outside it in the same ring leaves one ring, in the new order. |
| Lists.List.Splice | headers/cpp/stl_list.h:494-497 | The very nodes of the range are in this list at the position, and no longer in the other. |
| Lists.List.SpliceOne | headers/cpp/stl_list.h:488-493 | The same for one node. |
| Lists.List.SpliceWithin | headers/cpp/stl_list.h:494-497 | The same within one list, to any place outside the stretch. |
| Lists.List.SpliceOneWithin | headers/cpp/stl_list.h:488-493 | And for one node, to any place: next to itself nothing happens. |
| Lists.List.Reverse | headers/cpp/stl_list.h:709-723 | The very nodes in the reversed order, in a well-formed ring. |
| Lists.List.Swap | headers/cpp/stl_list.h:341 | The two lists exchange all their nodes. |
| Lists.List.MergeFrom | headers/cpp/stl_list.h:782-799 | This list has the stable merge of the nodes of both, by relinking, and the other none. |
| Lists.MergeNodesSorted | headers/cpp/stl_list.h:782-799 | That merge of two sorted lists is sorted and stable. |
| Lists.StableSameNodes | headers/cpp/stl_list.h:802-825 | A stable rearrangement has the same node objects. |
| ListSort.CarryMoves | headers/cpp/stl_list.h:813-816 | The counter invariant: slot i is empty or a sorted run of exactly two to the i nodes, through one merge of a slot with the carry. |
| ListSort.CarryRests | headers/cpp/stl_list.h:817-818 | And through the carry coming to rest. |
| ListSort.CarryFits | headers/cpp/stl_list.h:807-809 | With fewer than two to the 64 nodes the carry never passes the last slot. |
| ListSort.CarryOne | headers/cpp/stl_list.h:810-819 | One round of the outer loop keeps the counter invariant and takes one node off the list. |
| ListSort.UpMoves | headers/cpp/stl_list.h:821-822 | Merging the slots upward keeps what is gathered sorted and stable. |
| ListSort.Sort | headers/cpp/stl_list.h:801-825 | Every list shorter than two to the 64: the same node objects, sorted, equivalent ones in the order they had, in a well-formed ring. |
| HashTable.NextPrimeIsLeast | headers/cpp/stl_hashtable.h:146-165 | The least number of the list that is not below the one given, and the last one beyond. |
| HashTable.HashTable.constructor | headers/cpp/stl_hashtable.h:511-517 | An empty table with such a number of buckets. |
| HashTable.HashTable.Find | headers/cpp/stl_hashtable.h:458-467 | The first element with the key in the walk of the whole table, where the equal range begins, and null exactly when there is none. |
| HashTable.HashTable.Count | headers/cpp/stl_hashtable.h:480-489 | The number of elements with the key in the whole table. |
| HashTable.HashTable.EqualRange | headers/cpp/stl_hashtable.h:762-780 | The places in the walk of the whole table between which all elements with the key lie, and only those. |
| HashTable.HashTable.EraseBucketFrom | headers/cpp/stl_hashtable.h:955-975 | What goes from a bucket: from its head, exactly the range; from further down, everything to the end of the bucket, whatever the end of the range. |
| HashTable.HashTable.EraseBucketTo | headers/cpp/stl_hashtable.h:977-989 | What goes from a bucket up to a node: exactly the nodes before it. |
| HashTable.HashTable.Begin | headers/cpp/stl_hashtable.h:316-322 | The first of the walk. |
| HashTable.HashTable.Next | headers/cpp/stl_hashtable.h:564-576 | The next of the walk, across buckets: each element is met once. |
| HashTable.HashTable.InsertUniqueNoresize | headers/cpp/stl_hashtable.h:698-714 | A node comes in, at the front of its bucket, exactly when no element has the key; otherwise the first with the key is returned and nothing changes. |
| HashTable.HashTable.InsertEqualNoresize | headers/cpp/stl_hashtable.h:717-738 | A node always comes in, right behind the first with the same key, or at the front of its bucket if there is none. |
| HashTable.HashTable.InsertUnique | headers/cpp/stl_hashtable.h:354-358 | The same with room made first: the elements are those there were and the new one, and there are at least as many buckets, as far as the list of sizes goes. |
| HashTable.HashTable.InsertEqual | headers/cpp/stl_hashtable.h:360-364 | The same: a node always comes in, and there are at least as many buckets as elements, as far as the list of sizes goes. |
| HashTable.HashTable.Resize | headers/cpp/stl_hashtable.h:916-953 | At least as many buckets as hinted, as far as the list of sizes goes, and never fewer than before. The very nodes, each in the bucket of its key for the new number, equal keys still together, though their order is reversed; nothing happens for a number not above that of the buckets. |
| HashChains.BucketMeans | headers/cpp/stl_hashtable.h:529-532 | Two keys share a bucket exactly when their hashes are a multiple of the number of buckets apart, and a smaller hash is the bucket itself. |
| HashResize.MoveAll | headers/cpp/stl_hashtable.h:927-937 | Taking the nodes off the fronts and putting them to the fronts leaves the chains that the order of the walk determines. |
| HashChains.SpreadOk | headers/cpp/stl_hashtable.h:927-937 | Those chains are grouped by key and hold each node once, in its bucket. |
| HashChains.SpreadsSame | headers/cpp/stl_hashtable.h:927-937 | And all of them together hold the same nodes. |
| HashChains.FlatOk | headers/cpp/stl_hashtable.h:316-322 | If equal keys are together in each bucket, they are in the walk of the whole table. |
| HashChains.RangeMeaning | headers/cpp/stl_hashtable.h:762-780 | The length of an equal range is the count of the key, and without it nothing with the key is left. |
| HashTable.HashTable.EraseKey | headers/cpp/stl_hashtable.h:811-843 | The table without the elements of the key, the others in order, and their number. |
| HashTable.HashTable.EraseAt | headers/cpp/stl_hashtable.h:845-873 | Exactly that node goes. |
| HashTable.HashTable.EraseRange | headers/cpp/stl_hashtable.h:875-895 | From the first of the range on: exactly the range goes, unless it begins behind the head of a bucket and ends within it, and then the rest of that bucket goes too. |
| HashTable.OverrunExample | headers/cpp/stl_hashtable.h:955-975 | A valid table of three elements in one bucket, the second erased by a range of one: only one is left. |
| HashTable.HashTable.Clear | headers/cpp/stl_hashtable.h:991-1004 | No element is left, in the same buckets. |
| BitIterator.PosSteps | headers/cpp/stl_bvector.h:86-139 | Steps and jumps by any offset, with division that truncates, move the bit position by just that and stay within a word. |
| BitIterator.PosOrder | headers/cpp/stl_bvector.h:140-153 | Order, equality and difference are those of the positions. |
| BitIterator.PrevUndoesNext | headers/cpp/stl_bvector.h:86-107 | The two steps undo each other. |
| BitIterator.JumpBack | headers/cpp/stl_bvector.h:117-142 | A jump by i and one by -i cancel, and the difference is the jump that leads there. |
| Bits.BitWritten | headers/cpp/stl_bvector.h:51-58 | Writing one bit of a word changes that bit and no other. |
| Bits.CopyBits | headers/cpp/stl_bvector.h:789-792 | A copy across words leaves all other bits, also when it overlaps with the destination in front. |
| Bits.CopyBitsBackward | headers/cpp/stl_bvector.h:420-423 | The same with the destination behind. |
| Bits.FillBits | headers/cpp/stl_bvector.h:763-768 | Exactly the bits of the range are set. |
| BitVector.BitVector.Filled | headers/cpp/stl_bvector.h:526-532 | The value n times, whatever the tail bits hold. |
| BitVector.BitVector.InsertAux | headers/cpp/stl_bvector.h:420-436 | The sequence with the bit at that place, in the same words if there is room, and otherwise in new ones of at least twice the size. |
| BitVector.BitVector.Insert | headers/cpp/stl_bvector.h:688-695 | The same, and an iterator to the bit in the words there are now. |
| BitVector.BitVector.InsertN | headers/cpp/stl_bvector.h:763-780 | The sequence with n copies at that place, in the same words exactly if they fit, and otherwise in new ones of at least twice the size. |
| BitVector.BitVector.EraseAt | headers/cpp/stl_bvector.h:783-788 | The sequence without that bit. |
| BitVector.BitVector.EraseRange | headers/cpp/stl_bvector.h:789-792 | The sequence without the range. |
| BitVector.BitVector.Reserve | headers/cpp/stl_bvector.h:663-671 | The same sequence with room enough, in the same words if they had it. |
| BitVector.BitVector.Assign | headers/cpp/stl_bvector.h:607-616 | The value n times, also where whole words are filled beyond the end. |
| BitVector.BitVector.GetAt | headers/cpp/stl_bvector.h:519-521 | The n-th bit of the sequence. |
| BitVector.BitVector.SetAt | headers/cpp/stl_bvector.h:516-518 | The sequence with that bit replaced, whatever shares its word. |
| BitVector.BitVector.PushBack | headers/cpp/stl_bvector.h:677-682 | One more bit, in the same words if there is room, and otherwise in new ones of at least twice the size. |
| BitVector.BitVector.PopBack | headers/cpp/stl_bvector.h:782 | One less. |
| BitVector.BitVector.Resize | headers/cpp/stl_bvector.h:793-798 | Cut or filled up to that length. |
| BitVector.BitVector.Clear | headers/cpp/stl_bvector.h:799 | No bit is left. |

## Left out

- Deque.Deque.PushBack: the addresses of new nodes are chosen by the caller of the model, different from those in use and from each other; nodes that have been given back are objects that are not used again, only their addresses are.
- Deque.Deque.constructor: the slots of a new map are null in the model where the code leaves them uninitialised, so that a stray pointer there, which might be the address of a node by accident, is not modelled; the same holds for the new map of `Deque.Deque.ReallocateMap`.
- Deque.Deque.Clear: elements have no destructors in the model; memory given back is a set of nodes.
- RopeStore.RopeStore.TreeConcat: where it rebalances, the tree is built of new nodes: see the next line.
- RopeStore.RopeStore.Rebalance: a rebalanced tree is built of new nodes throughout, where the code goes on sharing leaves; texts and counts are those of the model's trees.
- RopeStore.RopeStore.Unref: the count reaching zero is the only trigger of destruction; the destructors of character producers are not modelled.
- RopeOps.Replace: ropes longer than the longest that the table of least lengths admits are excluded, as the source does by `max_size`.
- RopeIterator.RopeIterator.SetCache: whether a C string of the rope has been made is a parameter; making it is not modelled.
- RopeIterator.RopeIterator.Copy: a copy that outlives the iterator whose buffer it points into has a dangling pointer; iterators are not destroyed in the model.
- RopeIterator.RopeIterator.Assign: assignment of an iterator over another rope is modelled; non-constant iterators, which hold a reference to the root, are not.
- InplaceMerge.MergeAdaptive: a buffer of size zero is excluded: its callers never pass one, and with one the recursion of two single elements would not end.
- Allocator.Allocator.Reallocate: bytes behind the last whole word of a block are not tracked, nor what `realloc` does beside moving the words.
- Allocator.Allocator.Deallocate: small blocks are given back under the size they were asked for, as the interface demands.
- RopeConcat.AddLeafToForest: the comment at headers/cpp/ropeimpl.h:1088, that the piece in a slot is as deep as the index of the slot, is not claimed: the code only keeps it at most one deeper than that.
- Singly linked lists (headers/cpp/stl_slist.h): their merge, sort and reversal, on nodes with one link; removing and `unique` on either kind of list.
- Lists.List.SpliceWithin: a place inside the stretch that is moved is excluded; the code then leaves a broken ring, and the interface does not allow it.
- Exceptions and their unwinding, constructors and destructors of elements, allocator objects, locks and atomic counters: steps are sequential and succeed, but for `malloc` and `realloc`.
- Deque: construction, assignment and insertion from a range, copying, `resize`.
- HashTable.Primes: that the numbers of the list are primes is not claimed; nothing in the table depends on it.
- Hash table: copying, swapping, `find_or_insert`, insertion of ranges, hash functions (parameters with the laws they need).
- Bit vector: insertion and assignment of ranges, copying, swapping, `flip`.
- Ropes: finding, comparing, applying to pieces, input and output, `rope::erase` of a position, character references and mutable access.
- Algorithms: `partial_sort_copy`, searching, set operations, partitions by predicate, sampling and shuffling, numeric folds other than `power`.
- Container wrappers (`map`, `set`, `hash_map`, `stack`, `queue` and theirs), streams and string buffers: delegation without logic of its own.
