# CHeap containers: a verified model

CHeap is a C container library. This project models the five components of it that carry
the hard invariants, and proves what they promise:

- **Red-black tree** (`RbShape`, `RbMap`, `RbTree`, `RbSlots`) behind Set and Table. `RbTree.RedBlackTree`
  is the mutable pointer graph: nodes with `parent`, `left`, `right` and `colour` fields,
  rotations, the recursive fix-ups, insertion, deletion, lookup and stepping. Every method is
  tied to a function on trees. A place in the tree is a zipper: a `Path` of ancestors and the
  subtree below it. `RbShape` proves what the fix-ups do to colours, black heights and order;
  `RbMap` proves that insertion and deletion refine a finite map, over every run, and that the
  height is logarithmic. While `remove_fixup` runs, the subtree below the path counts as one
  black node short; `FitsHeight(p, h)` is what the path expects of that hole. These three
  modules are a **repaired variant** in one respect: deletion copies the predecessor's key and
  value, as the code intends, where the code copies two pointers to them. `RbSlots` models
  what the code does, with pairs in allocator slots, and proves exactly when the two agree.
- **Hash table** (`HashBuckets`, `HashTables`): open addressing with tombstones, lookups that
  move what they find, growing and shrinking, and the amortised cost of resizing.
- **Blocked deque** (`DequeRing`, `Deques`): one block, or a ring of blocks in a circular
  control array whose capacity is a power of two; all transitions between the two.
- **Node allocator** (`NodePool`, `NodeAllocator`): pages with a cursor that shrinks, and a
  free list threaded through the freed slots.
- **Binary heap and priority queue** (`HeapOrder`, `PriorityQueues`), and **in-place string
  replace, split and join** (`Texts`, `CStrings`).

The first module of each pair works on values; the second holds the classes and loops of the
C code and is proved against the first. `Machine` holds what several of them share: unsigned
decrement, powers of two, `memmove` and `memcpy`.

Four places where the code does less than its callers expect are stated with the exact
condition under which the operation is right, and with an input where it is not. The hash
table and the deque are modelled as they are; for the tree the code as written is `RbSlots`.

- `rbt_delete` makes a node refer to its predecessor's pair and then frees the slot that
  holds the pair (`src/internals/rbtree.c:407`, `src/internals/rbtree.c:428`). An insertion of
  an absent key keeps the map if and only if the slot handed out next holds the pair of no
  node; a deletion does if and only if it gives up no page that holds the pair of another key
  (`RbSlots.StepExact`). A run refines the map throughout if and only if each operation is
  safe in this sense, and then builds the tree of the repaired variant (`RbSlots.RunExact`).
  Inserting 2, 1 and 3, deleting 2 and inserting 4 loses the key 1 (`RbSlots.SlotReuseExample`).
- Inserting into the hash table stops at the first tombstone, so a present key that lies
  behind one is stored twice. `HashTables.HashTable.Insert` is exact if and only if
  `InsertIsExact` holds before the call. A successful lookup, or `Contains`, always
  establishes the condition. `HashTables.CollidingTable` reaches a table where it does not
  hold, and `HashTables.ErasedKeyStays` erases a key there that is still found afterwards, with
  its old value. Load bounds and the cost of resizing do not depend on the condition. A
  resize removes such copies: the last live bucket of a key in slot order decides its value
  (`HashTables.ReindexBuckets`, `HashBuckets.LastMapHas`).
- Pushing onto an empty deque whose block has no room on that side leaves an empty block in
  the ring (`Deques.Deque.PushFront`, `PushBack`, `Deques.PushWithoutRoom`). The element is
  stored all the same: `Linked()`, which ties the contents to the blocks in memory, holds after
  every push, while `Valid()` also asks that no block of a ring is empty.
- Popping the last element of one of two blocks, when the other block lies in slot 0 of the
  control array, moves that block onto itself and then nulls it
  (`Deques.Deque.PopFront`, `PopBack`, `Deques.PopLosesSurvivor`).

Where code and headers disagree the model follows the code: inserting a present key into a
table overwrites its value (`src/internals/rbtree.c:260`; `table.h:90` says it does not), and the member count
is raised by every insertion call, also when the key was present
(`src/internals/rbtree.c:447`).

What callers must provide: a comparator that is a total order for the tree, with 0 only for
equal keys, and a total preorder for the heap; a hash function that never returns the
all-ones value, which marks an unused bucket; strings without NUL inside, and non-empty
search strings and delimiters; a positive size for the first allocator page; only live slots
are freed.

To check the project, run `dafny verify dfyconfig.toml`.

## Model

| member | source | states |
|---|---|---|
| RbTree.RedBlackTree.ReplaceNode | src/internals/rbtree.c:107-131 | the slot that pointed at the old node points at the new one, whose parent is the old one's; every other link on the way to the root is kept |
| RbTree.RedBlackTree.RotateLeft | src/internals/rbtree.c:133-148 | the pointer graph becomes that of the tree with the right child raised, all parent links coherent and every other node unchanged |
| RbTree.RedBlackTree.RotateRight | src/internals/rbtree.c:150-165 | the mirror image of the left rotation |
| RbShape.RotationKeepsOrder | src/internals/rbtree.c:133-165 | the tree after either rotation has the same in-order sequence |
| RbTree.RedBlackTree.RecolourAbove | src/internals/rbtree.c:177-183 | a red uncle's case: parent and uncle black, grandparent red, nothing else changed |
| RbTree.RedBlackTree.InsertStraighten | src/internals/rbtree.c:186-197 | an inner grandchild is rotated outwards, and the fix-up continues with the node that was its parent |
| RbTree.RedBlackTree.InsertFinish | src/internals/rbtree.c:199-213 | parent black, grandparent red and rotated below the parent |
| RbTree.RedBlackTree.InsertFixup | src/internals/rbtree.c:167-215 | the recursion on the pointer graph computes InsertFix; uncle and grandparent exist whenever they are used, and it ends by depth |
| RbShape.InsertFixInorder | src/internals/rbtree.c:167-215 | the insertion fix-up keeps the in-order sequence |
| RbShape.InsertFixRedBlack | src/internals/rbtree.c:167-215 | a red node placed under any path that is otherwise in order ends up in a valid red-black tree: equal black heights, no red node under a red one, black root |
| RbTree.RedBlackTree.Place | src/internals/rbtree.c:230-300 | descending ends at the key's node, whose value is overwritten, or at the empty place where a red leaf is linked |
| RbTree.RedBlackTree.Insert | src/internals/rbtree.c:230-306 | with pairs copied by value, a valid tree stays valid and stands for m[key := value]; it gains one new node exactly for an absent key, and the member count is raised by one |
| RbMap.DescendSplits | src/internals/rbtree.c:78-105 | descending from any place splits the tree at the key: everything before it is smaller, everything after it larger, and a node found has the key |
| RbMap.InsertCorrect | src/internals/rbtree.c:230-306 | inserting into any search tree gives a valid red-black search tree for m[key := value] |
| RbMap.InsertCount | src/internals/rbtree.c:432-448 | the tree gains a node exactly when the key was absent |
| RbTree.RedBlackTree.LowerRedSibling | src/internals/rbtree.c:327-340 | a red sibling is rotated above the parent and colours are exchanged |
| RbTree.RedBlackTree.StraightenRedNephew | src/internals/rbtree.c:358-371 | a red inner nephew is turned into a red outer one |
| RbTree.RedBlackTree.RaiseBlackSibling | src/internals/rbtree.c:373-387 | the sibling takes the parent's colour and place, parent and outer nephew become black |
| RbTree.RedBlackTree.RemoveFixup | src/internals/rbtree.c:320-388 | with the doomed node still linked in, the recursion computes RemoveFix on the path above it; every sibling it uses exists and it ends by depth |
| RbShape.SiblingShape | src/internals/rbtree.c:320-388 | a node whose subtree is one black short has a sibling, and after a red sibling is rotated away again a black one |
| RbShape.RemoveFixInorder | src/internals/rbtree.c:320-388 | the removal fix-up keeps everything in order around the doomed node |
| RbShape.RemoveFixRedBlack | src/internals/rbtree.c:320-388 | after the fix-up the whole tree is in order with one black node fewer below the path, and the node above the hole is black, so no red-red edge can remain |
| RbTree.RedBlackTree.MaximumNode | src/internals/rbtree.c:308-318 | the walk to the right ends at the last node of the subtree |
| RbTree.RedBlackTree.Rebalance | src/internals/rbtree.c:413-419 | a black doomed node takes its child's colour and the tree above it is repaired before anything is unlinked |
| RbTree.RedBlackTree.Splice | src/internals/rbtree.c:421-426 | the doomed node leaves the graph and its only child takes its place |
| RbMap.UnlinkRedBlack | src/internals/rbtree.c:413-426 | recolouring, repairing and unlinking a node with at most one child gives a valid red-black tree; a red edge made by the recolouring is gone |
| RbMap.DoomedCorrect | src/internals/rbtree.c:390-430 | with two children the predecessor's pair, copied by value, moves into the node and the predecessor is unlinked: exactly one entry goes and no key is left twice |
| RbMap.DropAfter | src/internals/rbtree.c:404-421 | replacing an entry by its predecessor's pair and dropping the predecessor keeps the order and removes exactly one key |
| RbTree.RedBlackTree.Delete | src/internals/rbtree.c:390-430 | with pairs copied by value, a valid tree stays valid, exactly the key is removed, and exactly one node leaves and the member count falls by one exactly when the key was present |
| RbMap.DeleteCorrect | src/internals/rbtree.c:390-430 | with pairs copied by value, deleting any key from any search tree gives a valid red-black search tree for m - {key} |
| RbMap.DeleteCount | src/internals/rbtree.c:503-517 | the tree loses a node exactly when the key was present |
| RbTree.RedBlackTree.Clear | src/internals/rbtree.c:519-527 | the tree stands for the empty map and no node is left |
| RbTree.RedBlackTree.LookupNode | src/internals/rbtree.c:78-105 | the loop finds the place that Descend describes, in at most as many steps as the tree is high |
| RbTree.RedBlackTree.Search | src/internals/rbtree.c:529-555 | a node is returned exactly when the key is present, with its value, after at most 2 * log2(n + 1) comparisons |
| RbMap.LookupCorrect | src/internals/rbtree.c:78-105 | a node is found exactly when its key is in the map, and it holds the mapped value |
| RbMap.HeightBounds | set.h:25-27 | the height is at most twice the black height and 2 to the black height is at most n + 1 |
| RbMap.HeightLogarithmic | set.h:25-27 | the height of every red-black tree of n nodes is at most 2 * log2(n + 1) |
| RbMap.RunRefinesMap | src/internals/rbtree.c:230-430 | with pairs copied by value, after any run of insertions, deletions and clears the tree is a valid red-black search tree and stands for the map that the same run builds |
| RbMap.RunHeight | src/internals/rbtree.c:230-430 | in every reachable state the height is at most 2 * log2(n + 1) for the n keys of the map |
| RbSlots.InsertAbsentExact | src/internals/rbtree.c:28-49 | with pairs in slots, inserting an absent key gives m[key := value] if and only if the slot handed out holds the pair of no node |
| RbSlots.InsertLosesKey | src/internals/rbtree.c:35-46 | otherwise the key whose pair lay in that slot is in the map no more |
| RbSlots.OverwriteExact | src/internals/rbtree.c:258-262 | writing a present key's value through its node is always right |
| RbSlots.DeleteExact | src/internals/rbtree.c:404-428 | with pairs in slots, deleting gives m - {key} if and only if no page with the pair of another key is given up, and then the live slots are again exactly the homes of the nodes |
| RbSlots.UnmovedIsSafe | src/internals/rbtree.c:28-49 | as long as every pair lies in its own node's slot, every insertion is safe |
| RbSlots.InsertedEntries | src/internals/rbtree.c:264-306 | an absent key comes in a new node, and every other node keeps its pair |
| RbSlots.OverwrittenEntries | src/internals/rbtree.c:258-262 | a present key keeps its node and changes its value, and every other node keeps its pair |
| RbSlots.DeletedEntries | src/internals/rbtree.c:390-430 | a deleted key goes; with two children its left neighbour's pair moves into its node, and every other node keeps its pair |
| RbSlots.StepExact | src/internals/rbtree.c:230-527 | each operation is right if and only if it is safe; it then yields the tree of the repaired variant, and the live slots are exactly the homes of its nodes: an overwrite takes none, a deletion gives one back, a clear all |
| RbSlots.RunExact | src/internals/rbtree.c:230-527 | a run stands for its map after every operation, with exactly the homes of the nodes live, if and only if each operation is safe where it happens |
| RbSlots.RunUsesPool | src/internals/rbtree.c:28-527 | a safe run makes a legal run of the node allocator, one allocation for each absent key inserted and one free for each key deleted; as many slots are live as the map has keys |
| RbSlots.SlotReuseExample | src/internals/rbtree.c:404-428 | a legal run of five operations on one page of eight slots whose last insertion makes another key unfindable |
| RbTree.RedBlackTree.RbMin | src/internals/rbtree.c:557-565 | the first node in order |
| RbTree.RedBlackTree.RbMax | src/internals/rbtree.c:567-577 | the last node in order |
| RbTree.RedBlackTree.NextRbTree | src/internals/rbtree.c:589-608 | from the node at position i, the node at position i + 1, or NULL after the last |
| RbTree.RedBlackTree.PrevRbTree | src/internals/rbtree.c:610-632 | from the node at position i, the node at position i - 1, or NULL before the first; so it undoes the step forward |
| RbTree.RedBlackTree.Traverse | src/internals/rbtree.c:557-608 | stepping from the minimum visits as many nodes as there are keys, in strictly increasing order, each with its mapped value |
| HashTables.Scan | src/internals/hash.c:75-132 | the probe loop visits slots cyclically, each at most once; it reports the first slot that answers, the first tombstone before it, or that there is none |
| HashTables.Probe | src/internals/hash.c:75-132 | a lookup moves what it found into the first tombstone it passed, and changes nothing otherwise; an insertion probe stops at the first free slot or the key |
| HashBuckets.LookupExact | src/internals/hash.c:61-151 | a probe finds a key exactly when it is live |
| HashBuckets.MoveCounts | src/internals/hash.c:120-129 | the move keeps buckets well formed and their number, whatever they hold |
| HashBuckets.StoreCounts | src/internals/hash.c:307-326 | storing at the probe's slot adds one live bucket or overwrites the one with the key |
| HashBuckets.MoveKeepsTable | src/internals/hash.c:120-129 | moving a found entry into an earlier tombstone keeps the map, the live count and the probe-chain invariant |
| HashBuckets.MoveClearsPath | src/internals/hash.c:120-129 | after the move no tombstone precedes the key |
| HashBuckets.StopsAtKey | src/internals/hash.c:61-132 | for a present key the insertion probe stops at it if and only if no tombstone precedes it |
| HashTables.StoreKeeps | src/internals/hash.c:292-327 | writing the slot where the probe stopped gives m[key := value] when the key is absent or was reached, and stores the key twice otherwise |
| HashBuckets.AddTwice | src/internals/hash.c:69-72 | filling a free slot for a present key leaves two live buckets for it; probes stop at the new one |
| HashTables.CollidingTable | src/internals/hash.c:292-346 | a run from the empty table to one that stays as large on the next insertion and where InsertIsExact fails |
| HashTables.ErasedKeyStays | src/internals/hash.c:292-346 | after inserting that key again and erasing it, it is found with its old value |
| HashTables.HashTable.FindBucket | src/internals/hash.c:134-151 | an index is returned for a live bucket with the key, possibly moved; on an exact table exactly for the keys of the map, and afterwards no tombstone precedes the key |
| HashTables.HashTable.Find | src/internals/hash.c:378-401 | the value of the first match on the probe path, and at most that entry is moved; on an exact table the mapped value or nothing, and a find that succeeds makes the next insertion of the key exact |
| HashTables.HashTable.Contains | src/internals/hash.c:403-413 | whether the probe path meets the key, moving at most the entry it finds; on an exact table whether the key is in the map; makes the next insertion of the key exact |
| HashTables.HashTable.Insert | src/internals/hash.c:292-327 | from an exact table, m[key := value] with unique keys if and only if InsertIsExact held, otherwise two live buckets with the key, the new value first on the probe path; in every state the capacity doubles exactly at 3/4 load, charging the old one, and then the buckets are the table of LastMap of the old ones with the key added; otherwise one slot is written; load bounds hold and resizing has cost at most 12 per operation |
| HashTables.HashTable.Erase | src/internals/hash.c:329-346 | from an exact table exactly the key is removed; in every state an entry goes if and only if the probe finds one, and the capacity is halved exactly when one went, it was above 8 and at most 1/10 is used; the buckets are then the table of LastMap of what was left; load bounds hold and resizing has cost at most 12 per operation |
| HashTables.HashTable.Clear | src/internals/hash.c:348-363 | the empty map with capacity 0 |
| HashTables.ReindexBuckets | src/internals/hash.c:194-220 | from any well-formed buckets, also with a key held twice: an exact table without tombstones for LastMap of the old buckets, with as many live buckets as that map has keys |
| HashBuckets.LastMapHas | src/internals/hash.c:194-220 | the map kept by a resize has exactly the keys held by live buckets, each with the value of its last live bucket in slot order |
| HashBuckets.LastMapExact | src/internals/hash.c:194-220 | buckets with unique keys keep the map they stand for |
| HashTables.HashTable.ResizeBuckets | src/internals/hash.c:245-271 | the table of LastMap of the old buckets under the new capacity, the same map when they were exact, and the old capacity is charged as work |
| HashTables.HashTable.ShouldResize | src/internals/hash.c:273-290 | allocates 8 empty buckets, doubles at 3/4 load, halves at 1/10 load above 8, otherwise changes nothing; a new table is that of LastMap of the old buckets |
| HashBuckets.FreeSlot | src/internals/hash.c:75-132 | pigeonhole: with fewer live entries than slots the insertion probe finds one |
| HashTables.InsertPaid | src/internals/hash.c:222-303 | saved work pays for growing before an insertion, and the load bounds hold after it |
| HashTables.ErasePaid | src/internals/hash.c:222-344 | saved work pays for shrinking after an erasure, and the load bounds hold after it |
| HashTables.NextHash | src/internals/hash.c:513-521 | the next occupied bucket: none lies between |
| HashTables.Entries | src/internals/hash.c:415-521 | iterating visits the live buckets in slot order, which is every entry of the map exactly once |
| HashTables.LivePairsAre | src/internals/hash.c:415-521 | the live buckets in slot order hold exactly the entries of the map, without repeats |
| DequeRing.StepBackward | src/internals/deq.c:148 | decrementing 0 wraps to the largest unsigned number, which modulo a power of two is the last slot |
| DequeRing.UnrollHolds | src/internals/deq.c:105-144 | doubling lays the ring out in consecutive slots in the same order, with a free slot on either side |
| Deques.Deque.ResizeFromSingle | src/internals/deq.c:63-95 | one block becomes a ring of two, the new one empty on the chosen side, the elements where they were |
| Deques.Deque.DoubleControl | src/internals/deq.c:105-144 | twice the capacity, the same blocks with the same elements in the same order |
| Deques.Deque.ResizeFromMultiple | src/internals/deq.c:97-163 | an empty block before the front or after the back block, after doubling when the control array is full; all other blocks are kept |
| Deques.Deque.PushFrontSingle | src/internals/deq.c:165-190 | the element comes first; the ring has no empty block unless the deque was empty without room in front |
| Deques.Deque.PushBackSingle | src/internals/deq.c:211-239 | the element comes last; the ring has no empty block unless the deque was empty without room behind |
| Deques.Deque.PushFrontMultiple | src/internals/deq.c:192-209 | the element comes first and the ring invariant is kept |
| Deques.Deque.PushBackMultiple | src/internals/deq.c:241-264 | the element comes last and the ring invariant is kept |
| Deques.Deque.PushFront | src/internals/deq.c:266-286 | contents are [x] + s with x in the block that the front refers to, also when an empty block stays in the ring; well formed if and only if it held elements or had room in front; the blocks, ends and capacity are those of the branch taken |
| Deques.Deque.PushBack | src/internals/deq.c:266-286 | contents are s + [x] with x in the block that the back refers to, also when an empty block stays in the ring; well formed if and only if it held elements or had room behind; the blocks, ends and capacity are those of the branch taken |
| Deques.Deque.PopFront | src/internals/deq.c:1039-1080 | the first element goes; memory still holds the rest unless the last block left already lies in slot 0, in which case its array is lost; the blocks, ends and capacity are those of the branch taken |
| Deques.Deque.PopBack | src/internals/deq.c:1082-1124 | the last element goes; memory still holds the rest unless the last block left already lies in slot 0, in which case its array is lost; the blocks, ends and capacity are those of the branch taken |
| Deques.PushWithoutRoom | src/internals/deq.c:165-190 | a run from an empty deque that ends with an empty block in the ring; the element pushed is still read at the front |
| Deques.PopLosesSurvivor | src/internals/deq.c:1110-1117 | a run from an empty deque that ends with eight elements counted and no array to read them from |
| Deques.Deque.LocateBlock | src/internals/deq.c:45-61 | the walk over the blocks ends at the one holding the index, before passing the back block, with the index inside it |
| Deques.Deque.At | src/internals/deq.c:965-990 | the element at the index of the contents, also past an empty block |
| Deques.Deque.Front | src/internals/deq.c:992-1014 | the first element of the contents, whenever the first block holds one |
| Deques.Deque.Back | src/internals/deq.c:1016-1037 | the last element of the contents, whenever the last block holds one |
| Deques.Deque.InsertSingle | src/internals/deq.c:378-457 | on one block with room on the shifted side: the element is inserted before the index, the others keep their order, and only the end nearer to the index moves |
| Deques.Deque.EraseSingle | src/internals/deq.c:668-706 | on one block: exactly the element at the index goes, and only the end nearer to it moves |
| NodePool.AllocKeepsPool | src/internals/nalloc.c:67-103 | allocation hands out exactly one slot, never a live one, and each slot below a cursor stays exactly one of live and free; only a full newest page with an empty free list adds a page |
| NodePool.FreeKeepsPool | src/internals/nalloc.c:105-130 | freeing a live slot makes exactly that slot no longer live, and keeps the split into live and free |
| NodePool.AllocFreeUndone | src/internals/nalloc.c:67-130 | freeing the slot just handed out restores the pool if and only if it did not come from the free list as the last slot below the cursor |
| NodePool.ClearKeepsPool | src/internals/nalloc.c:169-178 | clearing gives the pool of a new allocator with the oldest page: nothing live, nothing free, no slot below a cursor |
| NodePool.GivenUpPageIsDead | src/internals/nalloc.c:113-121 | when a page is destroyed no live slot and no entry of the free list lies in it |
| NodePool.RunKeepsPool | src/internals/nalloc.c:67-178 | over every run of allocations, frees of live slots and clears, each slot below a cursor is exactly one of live and free, none above is either, and the oldest page keeps its size |
| NodeAllocator.ChainBelow | src/internals/nalloc.c:113-121 | a free list threaded through the older pages only is unharmed when the newest page is destroyed |
| NodeAllocator.NodeAlloc.SearchFreeBlocks | src/internals/nalloc.c:56-65 | the head of the free list is handed out and the link stored in that slot becomes the new head |
| NodeAllocator.NodeAlloc.PageAllocate | src/internals/nalloc.c:67-85 | the slot at the cursor of the newest page, after adding a page twice as large when that one is full |
| NodeAllocator.NodeAlloc.AllocNode | src/internals/nalloc.c:87-103 | the head of the free list if there is one, else the slot at the cursor, else the first slot of a new page twice as large; memory follows the allocation step of the pool |
| NodeAllocator.NodeAlloc.FreeNode | src/internals/nalloc.c:105-130 | the last slot below the cursor lowers it, and a page that this empties is given up unless it is the oldest; any other slot becomes the head of the free list and links to the old head; memory follows the freeing step of the pool |
| NodeAllocator.NodeAlloc.ClearNodes | src/internals/nalloc.c:169-178 | the oldest page alone is left, its cursor at 0, the free list empty and nothing live |
| PriorityQueues.BubbleUpArray | src/internals/bheap.c:34-53 | the in-place loop computes BubbleUp and leaves the array beyond the heap alone |
| PriorityQueues.BubbleDownArray | src/internals/bheap.c:55-102 | the in-place loop computes BubbleDown and leaves the array beyond the heap alone |
| PriorityQueues.MakeHeapArray | src/internals/bheap.c:104-113 | the loop whose counter stops by wrapping around ends for every length, also 0 and 1, and computes MakeHeap |
| HeapOrder.BubbleUpHeap | src/internals/bheap.c:34-53 | a heap whose one element may be too small for its place becomes a heap |
| HeapOrder.BubbleDownHeap | src/internals/bheap.c:55-102 | a heap whose one element may be too large for its place becomes a heap, also within the upper part of an array |
| HeapOrder.MakeHeapHeap | src/internals/bheap.c:104-113 | any array becomes a heap |
| HeapOrder.BubbleUpPermutes | src/internals/bheap.c:34-53 | no element is lost or repeated on the way up |
| HeapOrder.BubbleDownPermutes | src/internals/bheap.c:55-102 | no element is lost or repeated on the way down |
| HeapOrder.MakeHeapPermutes | src/internals/bheap.c:104-113 | no element is lost or repeated by building the heap |
| HeapOrder.PopRemoves | src/containers/pqueue.c:58-62 | popping removes exactly one occurrence of the top element |
| HeapOrder.HeapTopLeast | src/containers/pqueue.c:53-56 | the top of a heap is least among its elements |
| HeapOrder.DrainSorts | src/containers/pqueue.c:53-62 | n top and pop steps produce the n elements in sorted order |
| HeapOrder.RunIsHeap | src/containers/pqueue.c:30-62 | after any run of pushes, range pushes and pops the array is a heap, holds the elements that a run with pops of least elements leaves, and has a least one on top |
| PriorityQueues.PriorityQueue.Push | src/containers/pqueue.c:30-39 | the queue stays a heap, gains exactly the pushed element, and its capacity doubles only when full |
| PriorityQueues.PriorityQueue.PushRange | src/containers/pqueue.c:41-51 | the queue stays a heap and gains exactly the elements of the range; its capacity doubles as often as it must |
| PriorityQueues.PriorityQueue.Top | src/containers/pqueue.c:53-56 | an element that is least in the queue |
| PriorityQueues.PriorityQueue.Pop | src/containers/pqueue.c:58-62 | the queue stays a heap, loses exactly its top, and keeps its capacity |
| CStrings.CString.Concatenate | src/internals/cstr.c:201-219 | the text is appended, the terminator stays inside the buffer, and the buffer grows only when it must, to the needed length or twice the old room |
| CStrings.CString.CountOccurrences | src/internals/cstr.c:247-252 | the number of non-overlapping occurrences from the left |
| CStrings.CString.MakeRoom | src/internals/cstr.c:245-263 | the buffer is large enough for the final text and its terminator, and grows only when it must |
| CStrings.CString.ReplaceAt | src/internals/cstr.c:265-290 | one shift and copy replace the occurrence, for shorter, equal and longer texts, inside the buffer |
| CStrings.ShiftReplaces | src/internals/cstr.c:272-286 | shifting the tail and copying the new text over gives prefix + new + suffix |
| CStrings.CString.Substitute | src/internals/cstr.c:233-293 | the string becomes the leftmost non-overlapping replacement of all occurrences, every write inside the buffer, which grows only when it must |
| CStrings.NextOccurrence | src/internals/cstr.c:265-290 | one turn of the loop leaves the final result unchanged and its text never longer than that result when texts grow |
| Texts.IndexIsFirst | src/internals/cstr.c:248 | the search returns the first occurrence, or -1 when there is none |
| Texts.ReplaceLength | src/internals/cstr.c:254-260 | the final length is len + count * (n - o) |
| Texts.ReplaceIsSplitJoin | src/internals/cstr.c:233-293 | replacing equals splitting at the old text and joining with the new one |
| CStrings.SplitString | src/internals/cstr.c:559-593 | new, separate strings for the pieces between the occurrences of the delimiter from the left, one for the whole string when there is none |
| CStrings.JoinStrings | src/internals/cstr.c:604-632 | the pieces with the delimiter between them |
| Texts.JoinSplit | src/internals/cstr.c:559-632 | joining what was split gives the string back, for every string |
| Texts.SplitJoin | src/internals/cstr.c:559-632 | splitting what was joined gives the pieces back if and only if the delimiter first occurs right after each piece |

## Left out

- RbTree.RedBlackTree.Insert: nodes come from `new` instead of the node allocator, and hold key and value themselves. `RbSlots` has the slots.
- RbTree.RedBlackTree.Delete: copies key and value by value, so a pair that the code leaves in a freed slot is safe here. `RbSlots` says when that makes a difference.
- RbTree.RedBlackTree.Clear: does not reset the node allocator; `RbSlots` does.
- RbMap.DoomedCorrect: the pair is copied by value, as in `RbTree.RedBlackTree.Delete`.
- RbMap.DeleteCorrect: the pair is copied by value, as in `RbTree.RedBlackTree.Delete`.
- RbMap.RunRefinesMap: a result about the repaired variant; for the code as written it holds exactly of the runs that `RbSlots.RunExact` describes.
- RbSlots.RunExact: nothing is said of what follows the first operation that is not safe. It is stated on values, without the pointer graph. Slots are positions in pages, so a pair in a destroyed page counts as unreadable.
- HashTables.HashTable.Clear: does not reset the node allocator, which holds the table's keys and values.
- HashTables.HashTable.ResizeBuckets: the load factors 0.75 and 0.1 are exact fractions, not floats.
- NodeAllocator.NodeAlloc.FreeNode: a slot is a page and an index, not an address, so two pages can never be adjacent in memory.
- CStrings.CString.Substitute: lengths are unbounded, so overflow of the 32-bit length fields is not modelled.
- Deques.Deque.PushFront: requires that a full control array can still double within the 64-bit index type.
- Deques.Deque.PopFront: requires an element in the first block, as `Front` does, and `PopBack` and `Back` in the last one. Every well-formed deque that is not empty has both; after a push without room the block at the other end is empty, and the code then reads or counts down an element that is not there.
- Deques.Deque.InsertSingle: covers the branches where the side that is shifted has room.
- PriorityQueues.PriorityQueue.PushRange: requires fewer than 2^63 elements, so that the last parent index is computed without wrapping.
- Deque insertion and erasure across several blocks (`src/internals/deq.c:288-664`) and `deque_clear`: their index arithmetic does not follow the alignment of the blocks, so no sequence contract holds of them.
- Reverse iteration over ranges and the dispatch in `iter.c`: type tags and function pointers only.
- Linked lists (`linked.c`, `flinked.c`): simpler than the tree, and their sentinels keep no usable invariant.
- Growable memory pools, vector, stack, array, span and `algorithms.c`: single-loop shifts, searches and copies. The heap uses a growable array written out where it is needed.
- Arena, bump and pool allocators: one-page or append-only cases of the node allocator.
- Raw bytes, `memcpy` sizes, allocation failure, alignment and element pointers handed to callers: elements are values of an abstract type.
- Streams, formatted construction, case conversion, errors, generic macros and build files: input, output and plumbing.
- Changing the comparator of a non-empty priority queue, and the top of an empty one: the first does not rebuild the heap, and the second reads memory that holds no element.
