# ELM containers, allocators and codecs in Dafny

ELM is a C++ library.  This project models the algorithms of fifteen of its source files, in the form they
have there, and proves what they promise.  `dafny verify dfyconfig.toml` checks the whole project.

**AVL trees.**  `TreeShape` has pictures of trees, zippers and the height bound; `AvlBalance` and
`AvlView` say what rotations do to pictures and to pointers; `AvlOrder` what a sorted tree stands for.
`AvlGenTree` is the iterative tree over mutable nodes, with its explicit stack and its balance factors:
its operations refine a finite map, and keep the invariant that the source states in mathematics.
`AvlIter` is its iterator.  `SearchShapes` and `AvlReach` tell which trees runs of `add` reach: all
balanced ones, and those for which the stacks of fixed size are not deep enough.
`HeightTree` and `AvlTree` are the other tree, recursive and storing heights.

**Garbage collectors.**  Four cooperative mark-and-sweep designs, with the free lists threaded through
the memory they manage.  The client is any sequence of calls in which a collection marks at least what
the client holds; its blocks are the ghost field `held`.  `GcBlocks`, `GcMarks` and `SimpleGC`: first fit
and a coalescing sweep.  `ListGC`: the mark is a bit of the link.  `BlockNumbers` and `BlockGC`: blocks
of one size, numbered across chunks.  `GroupSlots` and `GroupedGC`: size classes.  `Threads` has the lists
that the last three link through the first words of blocks.

**Job scheduler.**  `JobScheduler` is a transition system: the program counter of each thread, one mutex,
the shared state that `stop()` changes without a lock, and a producer that answers as it likes.

**JSON.**  `JsonText` has values and their tokens; `JsonDoc` says, without an automaton, which calls make
sense in a text under construction; `JsonSaver` is the pushdown automaton of the code, and `JsonRuns`
its whole sequences of calls.  `JsonGrammar` and `JsonParser` are the recursive descent, `JsonCommas`
tells which accepted texts are JSON, and `JsonEvents` which values the calls of the parser determine.
`JsonEscape` has the characters of strings, and `JsonChars` those of whole texts.

**Checksums and codecs.**  `MD5` (buffering and padding, for any block function), `Fletcher` (deferred
reduction), `IntegerText` and `IntegerIO` (printing and scanning), `Utf8`, over the byte streams of
`Streams`.  `Arith` and `Common` have what is shared.

## Findings

Where the code does not do what its documentation, its tests or its own shape promise, the code is
modelled as it is, with an input for which it fails and the exact condition under which it does not.

- A block collection is sound if and only if the free list is empty when it starts (`CollectGarbage`).
  Otherwise the free list becomes endless, unless all its blocks are marked, and then the count of free
  blocks is wrong.  In the synchronous mode, a collection that the allocator has asked for always finds
  the list empty (`NeedsCollect`); two collections in a row are enough to fail (`CollectTwice`).
- The block allocator is sound if and only if a chunk can hold a link; the assertion of its constructor
  does not ask for that, and blocks may then end past their chunk (`OversizedBlocks`).
- The parser never calls `endObject` and `endArray`.  Its calls determine the value if and only if no item
  of a container ends in a container of the same kind that could as well have the next item, or give away
  its own last one (`EventsDetermine`); they do not for `[[null], null]` (`EventsAreAmbiguous`).
- The parser accepts a comma before a closing bracket (`TrailingCommaIsRead`); a text that it accepts is
  JSON if and only if it has no such comma (`AcceptedIsStandard`).
- `escape` writes five or six digits for a character beyond 16 bits, where JSON reads four; an escaped
  text means itself if and only if it has no such character (`EscapingIsFaithful`), whereas the same
  escape of the UTF-16 units always does (`PairsAreFaithful`).
- `start()` throws if and only if a harvest has failed and `stop()` was not called after it
  (`ThrowsIfNotStopped`): a late `stop()` hides the failure (`FailureCanBeLost`).
- Signed scans refuse the least value of their type, and no other (`SignedRoundTrip`).
- Unsigned scans compare the new number with 32 bits of the old one.  A number is read as it is if and
  only if it fits in the word (`ReadExactly`), but an overflow is reported if and only if some digit makes
  the reduced number smaller than those 32 bits (`OverflowSeen`): 6000000000 is read in 32 bits, and
  2 * 10^19 in 64 bits, as other numbers, without a failure (`OverflowMissed`).
- The UTF-8 iterator reads a text back if and only if it has no null character (`TextIsReadBack`).  It
  accepts forms that RFC 3629 does not allow: overlong ones (`OverlongIsRead`), surrogates and characters
  beyond 10FFFF.  The first two bytes tell exactly which ones (`AllowedExactly`).
- MD5 has the padding of RFC 1321 if and only if the length in bits fits in 32 bits (`PaddingIsStandard`).
- Fletcher pairs a last byte alone with a stale one, which is right if and only if that one is 0
  (`OddLength`).  It reduces its sums once at the end, which is enough if and only if that makes both fit
  in 16 bits (`Finish`, `Sums`); it does not for the bytes FF FF 01 00 (`ReductionTooShort`).
- The stack of lookup, insertion and removal in the AVL tree has 32 entries.  It is deep enough if and only
  if the path of the key fits (`Lookup`, `RemovalFits`), so for every key up to 9227463 nodes
  (`HeightAtMost32`, `AllFits`); with one more, some run of `add` makes a tree in which the path of some
  key has 33 entries (`SparsestTree`).  The iterator has a stack of the same size and needs one entry more:
  a walk ends if and only if the tree is no higher than 31 (`Walk`), so up to 5702885 nodes, and fails for
  some tree of 5702886 nodes that `add` makes (`FailingWalk`).
- The documentation of `add` says that duplicates are added (src/avl_GenTree.cpp:522).  The code keeps the
  item that is there (`Add`); so does `set`, which only calls `add` (include/elm/avl/GenTree.h:145).
- A removal frees the node that leaves the tree if and only if the node with the key has two children
  (`RemoveByKey`); a node with less leaves without being freed.
- `SimpleGC` and `GroupedGC` try a last time to allocate: in `SimpleGC` this cannot fail, in `GroupedGC`
  it is never reached.

## Model

| member | source | states |
|---|---|---|
| AvlGenTree.GenTree.constructor | include/elm/avl/GenTree.h:52 | a new tree satisfies the documented invariant and stands for the empty map |
| AvlGenTree.GenTree.Relink | src/avl_GenTree.cpp:180-187 | an assignment through `link` changes the root, or the one child pointer that the top of the stack designates, and nothing else |
| AvlGenTree.GenTree.RotateRight | src/avl_GenTree.cpp:213-227 | on the nodes, the exact new links and both new balance factors; the stack loses its top |
| AvlGenTree.GenTree.RotateLeft | src/avl_GenTree.cpp:234-248 | the mirror image |
| AvlBalance.RotationsExact | src/avl_GenTree.cpp:224-247 | the closed-form factor updates equal the new height differences, whatever the heights of the three subtrees are |
| AvlBalance.RotatedRightKeeps | src/avl_GenTree.cpp:213-227 | a right rotation keeps the in-order sequence, the set of nodes and their distinctness |
| AvlBalance.RotatedLeftKeeps | src/avl_GenTree.cpp:234-248 | the same of a left rotation |
| AvlView.RightRotationRealises | src/avl_GenTree.cpp:218-222 | the pointer assignments, made at the end of any root-to-node path, turn a heap that realises a tree into one that realises the rotated tree |
| AvlView.LeftRotationRealises | src/avl_GenTree.cpp:239-243 | the same of a left rotation |
| AvlBalance.RepairedLeftIsAvl | src/avl_GenTree.cpp:287-294 | a node at -2 over two AVL trees becomes an AVL tree by a single or a double rotation, and loses a level unless its left child was even |
| AvlBalance.RepairedRightIsAvl | src/avl_GenTree.cpp:297-304 | the mirror image |
| AvlBalance.RepairedLeftKeeps | src/avl_GenTree.cpp:287-294 | the repair, single or double, keeps the nodes and their order |
| AvlBalance.RepairedRightKeeps | src/avl_GenTree.cpp:297-304 | the mirror image |
| AvlGenTree.GenTree.RepairLeft | src/avl_GenTree.cpp:287-294 | the heap realises the repaired tree after the pushes and rotations of the code |
| AvlGenTree.GenTree.RepairRight | src/avl_GenTree.cpp:297-304 | the mirror image |
| AvlView.GrowStep | src/avl_GenTree.cpp:270-308 | one turn of the insertion loop: factor 0 means that the whole tree is an AVL tree again, which justifies the early exit; factor 1 or -1 that the subtree above has grown by one; 2 or -2 that one repair settles it |
| AvlGenTree.GenTree.Grow | src/avl_GenTree.cpp:270-309 | from a subtree that has grown by one, the loop ends with an AVL tree of the same nodes in the same order, and of the same shape if that was balanced |
| AvlGenTree.GenTree.Insert | src/avl_GenTree.cpp:256-310 | on any root-to-hole path: all factors exact and within -1 to 1, the count one more, and the new node in the in-order sequence at that place; nothing is rotated if the tree is balanced as it is |
| AvlView.ShrinkStep | src/avl_GenTree.cpp:325-378 | one turn of the removal loop: factor 0 propagates the loss of a level, 1 or -1 ends it, 2 or -2 asks for a repair |
| AvlView.RepairedRightShrinks | src/avl_GenTree.cpp:355-377 | after the repair at 2 the tree is settled exactly if the right child was even, and otherwise has lost a level |
| AvlView.RepairedLeftShrinks | src/avl_GenTree.cpp:405-427 | the mirror image |
| AvlGenTree.GenTree.RemovedOnLeft | src/avl_GenTree.cpp:331-378 | the branch for a removal on the left: done, or one level less, with the stack popped as the case asks |
| AvlGenTree.GenTree.RemovedOnRight | src/avl_GenTree.cpp:381-428 | the mirror image |
| AvlGenTree.GenTree.Shrink | src/avl_GenTree.cpp:324-431 | from a subtree that has lost a level, the loop terminates with an AVL tree of the same nodes in the same order |
| AvlGenTree.GenTree.Remove | src/avl_GenTree.cpp:318-434 | unlinking a node with at most one child drops exactly that node from the in-order sequence and re-establishes the whole invariant, propagating up to the root |
| AvlGenTree.GenTree.Lookup | include/elm/avl/GenTree.h:302-318 | returns the node with the key, or the only place where it may be inserted, with the stack that leads there; asks only that the nodes on the way fit in the stack, as the assertion of `push` does |
| AvlGenTree.GenTree.LeftMost | src/avl_GenTree.cpp:443-449 | ends at the leftmost node of the subtree, with the stack extended by the path to it, which must fit |
| AvlGenTree.GenTree.Get | include/elm/avl/GenTree.h:141-144 | the lookup agrees with the map that the tree stands for |
| AvlGenTree.GenTree.AddNode | include/elm/avl/GenTree.h:222-226 | inserting the new node at the place found adds its item to the map |
| AvlGenTree.GenTree.Add | include/elm/avl/GenTree.h:222-227 | refines the map: an item with a new key is added, and the old item is kept if there is one; the invariant is kept, and the tree is that of the plain insertion whenever this is balanced; asks only that the path of the key fits in the stack |
| AvlGenTree.GenTree.Exchange | include/elm/avl/GenTree.h:333-337 | the items of two nodes change places, and nothing else does |
| AvlGenTree.GenTree.RemoveNode | include/elm/avl/GenTree.h:280-297 | drops exactly the key of the node from the map, also for a node with two children, which takes the item of its successor; which node leaves the tree, and that it is freed exactly in that case |
| AvlGenTree.GenTree.RemoveByKey | include/elm/avl/GenTree.h:148-154 | refines the map: the key is dropped if it is there; the invariant is kept; which node leaves, and whether it is freed; asks only that the stack has room for what the lookup and the removal push |
| AvlGenTree.GenTree.CountIsSize | include/elm/avl/GenTree.h:41 | the count is the size of the map |
| AvlGenTree.GenTree.AllFits | include/elm/avl/GenTree.h:44 | in a tree no higher than 32 the stack has room for the lookup and the removal of any key |
| AvlIter.Iter.Visit | include/elm/avl/GenTree.h:184-189 | goes to the leftmost node of the subtree, which is then first of what remains to be met; fails exactly if the path to it, and one entry more, do not fit in the stack |
| AvlIter.Iter.Next | include/elm/avl/GenTree.h:171-178 | goes to the next node in the order of the tree; fails only in a tree higher than 31 |
| AvlIter.Walk | include/elm/avl/GenTree.h:165-191 | a walk meets every item once, in the order of the keys, and ends if and only if the tree is no higher than 31 |
| AvlOrder.AddedContents | include/elm/avl/GenTree.h:222-226 | in a sorted sequence, a node put where the descent for its key ends keeps it sorted and adds its item to the map |
| AvlOrder.BypassedContents | include/elm/avl/GenTree.h:283-286 | bypassing a node with at most one child drops its key from the map |
| AvlOrder.SuccessorContents | include/elm/avl/GenTree.h:290-293 | exchanging items with the successor and bypassing it drops the key of the first node |
| TreeShape.BalancedIsShallow | src/avl_GenTree.cpp:43-45 | 2^(h/2) is at most n + 1 for every balanced tree with n nodes and height h |
| AvlGenTree.GenTree.Shallow | src/avl_GenTree.cpp:43-46 | so the height is logarithmic in the count, after any run of operations |
| SearchShapes.SparsestIsAvl | src/avl_GenTree.cpp:43-45 | the lower bound on the number of nodes that the proof uses is reached, for each height, by an AVL tree over distinct successive keys |
| SearchShapes.PartBalanced | src/avl_GenTree.cpp:41-45 | a balanced tree is balanced when it is cut off in the middle of any level |
| SearchShapes.PartStep | src/avl_GenTree.cpp:256-268 | one more key of the level is one insertion without rotation |
| AvlOrder.LeafIsInserted | include/elm/avl/GenTree.h:302-318 | a leaf put where the descent for its key ends is the plain insertion of that key |
| TreeShape.HeightAtMost32 | include/elm/avl/GenTree.h:44 | a tree of fewer than 9227464 nodes is no higher than 32, the depth of the stacks, and one of fewer than 5702886 no higher than 31 |
| AvlReach.Build | include/elm/avl/GenTree.h:222-227 | every balanced search tree that the stack allows is reached by calls to `add`, level by level |
| AvlReach.SparsestTree | include/elm/avl/GenTree.h:44 | the bound is tight: a run of `add` from the empty tree ends with a valid tree of 9227464 nodes and of height 33, in which the path of some key has 33 entries |
| AvlReach.FailingWalk | include/elm/avl/GenTree.h:119 | a run of `add` from the empty tree ends with a valid tree of 5702886 nodes, and a walk through it fails |
| GcBlocks.RoundIs | include/elm/alloc/SimpleGC.h:97 | the least multiple of 16, the size of a header with 64-bit words, that is not below the size |
| SimpleGC.SimpleGC.constructor | src/alloc_SimpleGC.cpp:84-86 | chunks are rounded up to whole units; nothing is free or held |
| SimpleGC.SimpleGC.NewChunk | src/alloc_SimpleGC.cpp:92-100 | the chunk becomes one free block in front of the list, apart from all others |
| SimpleGC.SimpleGC.AllocFromFreeList | src/alloc_SimpleGC.cpp:135-145 | first fit: the end of the first block that is large enough, which shrinks or is unlinked; null, with nothing changed, exactly if no block is large enough; the result overlaps no free and no held block |
| SimpleGC.SimpleGC.Carve | src/alloc_SimpleGC.cpp:137-142 | the header write and the unlinking keep the list linked, placed and without overlap |
| SimpleGC.SimpleGC.Mark | src/alloc_SimpleGC.cpp:182-199 | marks exactly the units of the block in its chunk, and tells whether all were marked before |
| SimpleGC.SimpleGC.SweepChunk | src/alloc_SimpleGC.cpp:240-263 | pushes exactly the maximal unmarked runs of the chunk, in order |
| SimpleGC.SimpleGC.EndGC | src/alloc_SimpleGC.cpp:231-272 | the free list is exactly the maximal runs of unmarked units of each chunk, from the last of the last chunk to the first of the first one; free size plus marked size equals the size of the chunks |
| SimpleGC.SimpleGC.DoGC | src/alloc_SimpleGC.cpp:121-127 | after a collection that marks every held block, no held block overlaps a free one, and the free list is as the sweep promises |
| SimpleGC.SimpleGC.Allocate | src/alloc_SimpleGC.cpp:152-172 | returns a non-null block of whole units inside one chunk, apart from every held block: the end of the first free block that is large enough, or else, and only then, of the first one that a collection finds free, or else, and only then, of a new chunk; the allocation that follows `newChunk` cannot fail |
| SimpleGC.SimpleGC.NoRunFits | src/alloc_SimpleGC.cpp:163-167 | the collection does not help exactly if every maximal unmarked run of every chunk is too small |
| SimpleGC.SimpleGC.Write | src/alloc_SimpleGC.cpp:138-142 | a client that writes a unit inside a block it holds touches no free block, and cannot break the list that is threaded through free memory |
| GcMarks.GapsExtended | src/alloc_SimpleGC.cpp:244-254 | what the two inner loops have skipped is the next maximal run |
| GcMarks.SweptMore | src/alloc_SimpleGC.cpp:237-264 | sweeping one more chunk adds its maximal runs, and accounts for all its units |
| GcMarks.FreeRunIsGap | src/alloc_SimpleGC.cpp:247-262 | every maximal unmarked run is found by the sweep |
| GcBlocks.CarvedSafe | src/alloc_SimpleGC.cpp:137-142 | taking the end of a free block keeps the free blocks placed and apart, and apart from what is taken |
| SimpleGC.SimpleGC.SweptSafe | src/alloc_SimpleGC.cpp:231-264 | when the marks cover the held blocks, the blocks found free are apart from all of them |
| ListGC.ListGC.constructor | src/alloc_ListGC.cpp:66-73 | an empty list; no collection is due |
| ListGC.ListGC.Mark | src/alloc_ListGC.cpp:123-128 | sets the tag in the link of that block only; true exactly if it was set |
| ListGC.ListGC.Sweep | src/alloc_ListGC.cpp:101-116 | in-place unlinking leaves exactly the marked blocks, in their order, all marks cleared and the count exact; the others are cleaned once each, in order |
| ListGC.ListGC.Drop | src/alloc_ListGC.cpp:108-114 | unlinking through the pointer that led to the block keeps the list linked, with the tags of the blocks ahead |
| ListGC.ListGC.RunGC | src/alloc_ListGC.cpp:95-120 | keeps exactly the blocks marked beforehand or by the manager, in their order, and no held block is freed |
| ListGC.ListGC.Allocate | src/alloc_ListGC.cpp:81-92 | adds the block in front; an automatic collection happens exactly when it is due, doubles the limit, and never frees the block being allocated; the count since the last collection restarts exactly then |
| ListGC.ListGC.Enable | src/alloc_ListGC.cpp:136-140 | runs the collection that is overdue, if any; none is overdue afterwards; the count restarts exactly then |
| ListGC.ListGC.Disable | src/alloc_ListGC.cpp:131-133 | no collection is automatic any more |
| ListGC.ListGC.Clean | src/alloc_ListGC.cpp:143-154 | cleans every block once, in the order of the list |
| ListGC.KeptOrDropped | src/alloc_ListGC.cpp:103-115 | every block is kept or removed, once: the two parts make the list, and are told apart by the marks |
| ListGC.KeptPushed | src/alloc_ListGC.cpp:85-90 | the tag put on the new block makes it survive, in front, whatever the manager marks |
| ListGC.UnlinkLater | src/alloc_ListGC.cpp:108-110 | overwriting the link before block k with the link of block k unlinks it, tags included |
| BlockNumbers.NumberingIsBijection | src/alloc_BlockAllocatorWithGC.cpp:135-137 | numbers below `totalCount` and addresses of blocks below `top` correspond one to one over all the chunks, and `mark` and the sweep compute the two sides |
| BlockNumbers.NumberToBlock | src/alloc_BlockAllocatorWithGC.cpp:244-246 | every number below the total is that of a block that has been taken |
| BlockNumbers.BlockToNumber | src/alloc_BlockAllocatorWithGC.cpp:203-203 | the number `mark` computes is below the total, and the sweep maps it back to the address |
| BlockNumbers.BlocksApart | src/alloc_BlockAllocatorWithGC.cpp:78-82 | two blocks never overlap, in one chunk or in two |
| BlockNumbers.TakeFromLast | src/alloc_BlockAllocatorWithGC.cpp:78-82 | the block at `top` is new, and gets the next number |
| BlockNumbers.TakeFromNew | src/alloc_BlockAllocatorWithGC.cpp:105-107 | so does the first block of a new chunk, which starts only when the last one is full |
| BlockGC.BlockAllocator.constructor | src/alloc_BlockAllocatorWithGC.cpp:38-43 | the allocator is sound if and only if the chunk can hold a link; the assertion of the code compares the size before it is raised to that of a link |
| BlockGC.BlockAllocator.Mark | src/alloc_BlockAllocatorWithGC.cpp:191-210 | sets the bit of that block only; true exactly if it was not set |
| BlockGC.BlockAllocator.Sweep | src/alloc_BlockAllocatorWithGC.cpp:133-140 | links exactly the unmarked blocks in front of what was in the free list, and counts them |
| BlockGC.BlockAllocator.CollectGarbage | src/alloc_BlockAllocatorWithGC.cpp:124-149 | destroys exactly the dead blocks, once each; the allocator is sound afterwards if and only if the free list was empty; otherwise the free list has no end if one of its blocks was not marked, and else holds blocks that are not counted |
| BlockGC.DeadAreAll | src/alloc_BlockAllocatorWithGC.cpp:134-140 | the blocks found dead are all the blocks that are not marked, without a duplicate |
| BlockGC.DeadCount | src/alloc_BlockAllocatorWithGC.cpp:132-141 | dead and marked blocks make the total |
| BlockGC.ThreadLoops | src/alloc_BlockAllocatorWithGC.cpp:138-139 | a list whose tail is one of its own blocks never reaches null |
| BlockGC.CollectTwice | src/alloc_BlockAllocatorWithGC.cpp:124-149 | a concrete run that ends with an endless free list: one allocation and two collections |
| BlockGC.OversizedBlocks | src/alloc_BlockAllocatorWithGC.cpp:40-43 | runs for every chunk size below that of a link: each block handed out ends past its chunk |
| BlockGC.BlockAllocator.NeedsCollect | src/alloc_BlockAllocatorWithGC.cpp:87-88 | when a collection has been asked for, the free list is empty, so that running it then is sound |
| BlockGC.BlockAllocator.Allocate | src/alloc_BlockAllocatorWithGC.cpp:69-109 | a block that is not held, from the free list, the last chunk, a collection or a new chunk, in this order, with the whole state after each case; a recorded request for a collection is kept; when a chunk cannot hold a link, in synchronous mode, a block that ends past its chunk |
| BlockGC.BlockAllocator.Write | src/alloc_BlockAllocatorWithGC.cpp:73-77 | a client that writes inside a block it holds cannot break the free list |
| GroupedGC.GroupedGC.constructor | src/alloc_GroupedGC.cpp:62-133 | a sound allocator without chunks, in which no class has had one |
| GroupedGC.GroupedGC.NewChunk | src/alloc_GroupedGC.cpp:139-160 | the new chunk becomes the current one of its class; dropping the remainder makes what is left a whole number of blocks |
| GroupedGC.GroupedGC.TakeBump | src/alloc_GroupedGC.cpp:228-247 | takes the last block left in the chunk, which no free list and no client has; the chunk is full exactly when nothing is left |
| GroupedGC.GroupedGC.TakeFree | src/alloc_GroupedGC.cpp:214-225 | takes the first free block of the class |
| GroupedGC.GroupedGC.AllocFromFreeList | src/alloc_GroupedGC.cpp:206-270 | the first free block of that class, or else the last one left in its current chunk; it was not held; null exactly if the class has neither |
| GroupedGC.GroupedGC.Allocate | src/alloc_GroupedGC.cpp:276-342 | always succeeds at the second attempt, with a block of the right class that was not held: the first free one, or else the last one left in the current chunk, or else the last one of a new chunk; a collection becomes needed exactly if a chunk is added to a class that has one |
| GroupedGC.SecondChunk | src/alloc_GroupedGC.cpp:298-310 | a run for every block size and chunk size: as many allocations as a chunk has blocks ask for no collection, and the next one, which adds the second chunk of the class, asks for one |
| GroupedGC.GroupedGC.Mark | src/alloc_GroupedGC.cpp:352-379 | sets the bit of that block only; true exactly if it was set |
| GroupSlots.SlotInside | src/alloc_GroupedGC.cpp:373-373 | the bit computed for the address of a block is its own, and the block lies in its chunk |
| GroupSlots.SlotsApart | src/alloc_GroupedGC.cpp:151-157 | two blocks never overlap, whatever their classes |
| GroupedGC.GroupedGC.SweepChunk | src/alloc_GroupedGC.cpp:432-472 | the ascending sweep links exactly the unmarked blocks of the chunk, so that the last one is first: the addresses that the descending allocation has handed out |
| GroupedGC.GroupedGC.EndGC | src/alloc_GroupedGC.cpp:413-485 | the free blocks of every class are exactly the unmarked blocks of its full chunks, from the last of the last chunk to the first of the first one |
| GroupedGC.GroupedGC.DoGC | src/alloc_GroupedGC.cpp:180-198 | runs only if needed; no held block is on a free list afterwards, nor a block not handed out, nor one of another class |
| GroupedGC.GroupedGC.HeldApart | src/alloc_GroupedGC.cpp:206-342 | blocks of the client overlap neither each other nor any free block, whatever the classes |
| GroupedGC.GroupedGC.Write | src/alloc_GroupedGC.cpp:214-216 | a client that writes a word inside a block it holds touches no free block, and cannot break any free list |
| JobScheduler.AlwaysSafe | src/sys_JobScheduler.cpp:202-227 | in every interleaving: `next()` and `harvest()` never overlap, only the holder unlocks the mutex, no job is run or harvested twice or harvested before its end, and at most one call to `next()` follows the end of the RUN state |
| JobScheduler.NothingInFlight | src/sys_JobScheduler.cpp:158-188 | when `start()` returns, whatever stopped it, every job given has been run and harvested exactly once, the mutex is free and all threads are done |
| JobScheduler.LeavesForAReason | src/sys_JobScheduler.cpp:202-227 | in every interleaving, a thread is out of the loop exactly if `next()` has had no job for it, or it has found that the state is not RUN, or its harvest has thrown |
| JobScheduler.AllAreRefused | src/sys_JobScheduler.cpp:158-227 | when `start()` returns from a run without `stop()` and without a throwing harvest, the producer has had no job for each of the threads in turn |
| JobScheduler.AllJobsAreDone | src/sys_JobScheduler.cpp:158-227 | in such a run, if the producer refuses only when it has no job left, all its jobs have been run and harvested, each one once |
| JobScheduler.OnlyOnce | src/sys_JobScheduler.cpp:202-227 | the same safety on what happens: no two calls to `run()`, nor two to `harvest()`, are for the same job; no two calls to `next()` are made out of the RUN state |
| JobScheduler.ThrowsIfNotStopped | src/sys_JobScheduler.cpp:182-187 | `start()` throws exactly when some harvest has thrown before its return and no call to `stop()` came between; the state is then WAIT again |
| JobScheduler.FailureCanBeLost | src/sys_JobScheduler.cpp:194-196 | a run in which `stop()`, which takes no lock, hides the failure of a harvest |
| JobScheduler.Progress | src/sys_JobScheduler.cpp:202-227 | no deadlock: some thread can move until `start()` returns |
| JobScheduler.MeasureDecreases | src/sys_JobScheduler.cpp:202-227 | every step but `stop()` lowers a measure |
| JobScheduler.RunsAreBounded | src/sys_JobScheduler.cpp:158-188 | so every run is bounded by the number of jobs and threads |
| JobScheduler.RunInv | src/sys_JobScheduler.cpp:158-227 | the invariant behind all this holds in every reachable state |
| JsonSaver.Saver.constructor | src/json.cpp:63-77 | nothing is written; the indentation is made of blanks, as documented |
| JsonSaver.Saver.DoIndent | src/json.cpp:141-149 | a comma exactly in a container that has an item; then a new line with one indentation for each enclosing container in readable mode, and nothing in compact mode |
| JsonSaver.Saver.BeginMap | src/json.cpp:187-195 | the call opens an object in the document; state, stack and text stay those of the document |
| JsonSaver.Saver.EndMap | src/json.cpp:200-208 | the call closes the innermost object |
| JsonSaver.Saver.BeginList | src/json.cpp:213-221 | the call opens an array |
| JsonSaver.Saver.EndList | src/json.cpp:226-233 | the call closes the innermost array |
| JsonSaver.Saver.Key | src/json.cpp:238-256 | the call gives the key of the next field |
| JsonSaver.Saver.PutNull | src/json.cpp:307-314 | the call completes a value |
| JsonSaver.Saver.WriteBool | src/json.cpp:320-330 | the same |
| JsonSaver.Saver.WriteString | src/json.cpp:376-386 | the same; the characters are those of `TokenText` |
| JsonSaver.Saver.NextByValue | src/json.cpp:80-102 | the state after a number, which only a number may be at the beginning |
| JsonSaver.Saver.WriteInt | src/json.cpp:389-416 | the call completes a value, possibly the whole text |
| JsonRuns.AcceptedExactly | src/json.cpp:187-416 | the assertions of the automaton accept exactly the calls that make sense in the document |
| JsonRuns.CompleteTexts | src/json.cpp:187-416 | a sequence of calls goes from BEGIN to END if and only if it is the calls of one value, an object or an integer; the text is then made of the tokens of that value |
| JsonRuns.SavesText | src/json.cpp:187-416 | every such value can be saved |
| JsonSaver.Completed | src/json.cpp:80-102 | after a value, the state and the stack are those of the enclosing containers, and the text is the old one and the value |
| JsonEscape.EscapingIsFaithful | src/json.cpp:286-302 | whatever the characters, what `escape` writes is allowed in a JSON string; it means the text, as UTF-16 units, if and only if no character is beyond 16 bits |
| JsonEscape.EscapedMeans | src/json.cpp:286-302 | one escaped character, before any other text |
| JsonEscape.PairsAreFaithful | src/json.cpp:286-302 | the partner: the same escape of the UTF-16 units of any Unicode text means that text |
| JsonEscape.Utf16IsInjective | src/json.cpp:286-302 | the reference: UTF-16 units tell texts of Unicode scalar values apart |
| JsonChars.TokenIsRead | src/json.cpp:187-416 | the characters of any token are read back as that token, whatever follows; only after a number no digit may follow |
| JsonChars.TokenCharacters | src/json.cpp:187-416 | the characters of brackets, literals and quotes, as such |
| JsonChars.EscapeCharacters | src/json.cpp:285-303 | the characters of the seven short escapes, and of a long one, as such |
| JsonChars.BlanksAre | src/json_Parser.cpp:318-321 | the blanks that the reader skips are the four of the code |
| JsonChars.OutputIsSplit | src/json.cpp:141-416 | the characters of any output in which no number follows a number, with blanks anywhere, split back into its tokens |
| JsonChars.SavedTextIsRead | src/json.cpp:141-416 | whatever calls led to END, the characters written split into tokens; these are the tokens of the value, with strings in UTF-16, if and only if no string has a character beyond 16 bits |
| JsonParser.Parser.DoParsing | src/json_Parser.cpp:217-222 | succeeds if and only if the tokens begin with the text of a value; then it has read exactly that text, and made the calls of that value in pre-order |
| JsonParser.Parser.ParseValue | src/json_Parser.cpp:230-242 | the recursive descent from a first token, with its calls to the maker |
| JsonParser.Parser.ParseArray | src/json_Parser.cpp:249-259 | the loop reads a list of values up to the bracket, a comma allowed before it |
| JsonParser.Parser.ParseObject | src/json_Parser.cpp:266-282 | the same for fields |
| JsonGrammar.ParsesExactly | src/json_Parser.cpp:230-282 | what the descent accepts is exactly the grammar, with the same value and the same end |
| JsonGrammar.Unambiguous | src/json_Parser.cpp:230-282 | no text of the grammar is that of two values, nor the beginning of another text |
| JsonParser.SavedIsReadBack | src/json_Parser.cpp:230-282 | whatever calls led the saver to END, the parser reads its tokens back to the last one, as the saved value |
| JsonCommas.AcceptedIsStandard | src/json_Parser.cpp:249-282 | an accepted text is the text of a JSON value if and only if no comma stands directly before a closing bracket, at any depth, in arrays and in objects |
| JsonCommas.TrailingCommaIsRead | src/json_Parser.cpp:251-277 | a comma after the last item of any non-empty array or object is accepted, and the text is then that of no JSON value |
| JsonEvents.EventsDetermine | src/json_Parser.cpp:230-282 | since the end callbacks of the documentation are never called, another value has the same calls if and only if some item of a container ends in a container of the same kind, and either has a next item or that container is not empty |
| JsonEvents.Double | src/json_Parser.cpp:230-282 | one direction: the next item moved into the item, or its last item moved out, makes another value with the same calls |
| JsonEvents.OneReading | src/json_Parser.cpp:230-282 | the other direction: two readings of the same calls, of which one is not ambiguous, have the same items to come on matching levels |
| JsonEvents.SafeStep | src/json_Parser.cpp:230-282 | the invariant of that reading: no open level could take what is to come to another one |
| JsonParser.EventsAreAmbiguous | src/json_Parser.cpp:230-282 | an input: `[[null], null]` and `[[null, null]]` |
| AvlTree.AvlTree.Get | src/avl_Tree.cpp:123-136 | agrees with membership: the node with an equal key, or null exactly if there is none |
| AvlTree.AvlTree.Insert | src/avl_Tree.cpp:167-169 | the sorted sequence gets the node unless it has an equal one; stored heights are exact, siblings differ by less than 2, and the height grows by at most one |
| AvlTree.AvlTree.InsertIn | src/avl_Tree.cpp:182-222 | the recursion relinks the nodes as the insertion on pictures says |
| AvlTree.AvlTree.RotateSingleLeft | src/avl_Tree.cpp:225-233 | on the nodes, the rotated tree with recomputed heights |
| AvlTree.AvlTree.RotateSingleRight | src/avl_Tree.cpp:236-244 | the mirror image |
| AvlTree.AvlTree.RotateDoubleLeft | src/avl_Tree.cpp:247-250 | on the nodes, the double rotation |
| AvlTree.AvlTree.RotateDoubleRight | src/avl_Tree.cpp:253-256 | the mirror image |
| HeightTree.InsertedIsGood | src/avl_Tree.cpp:182-222 | insertion keeps exact heights and balance, the height grows by at most one, and the second comparison chooses the rotation that the growth asks for |
| HeightTree.LeftNeedsDouble | src/avl_Tree.cpp:194-198 | when the double rotation is chosen, the node it brings up exists |
| HeightTree.RightNeedsDouble | src/avl_Tree.cpp:205-209 | the mirror image |
| HeightTree.InsertedInOrder | src/avl_Tree.cpp:182-222 | insertion in the tree is insertion in the sorted sequence of its nodes |
| HeightTree.AddedIs | src/avl_Tree.cpp:182-222 | the reference: the set gets the node, and is unchanged if an equal one exists |
| AvlTree.AvlTree.IsShallow | src/avl_Tree.cpp:219-219 | the height is logarithmic in the number of nodes |
| MD5.MD5.constructor | src/checksum_MD5.cpp:99-109 | the initial registers, nothing pending |
| MD5.InitialBytes | src/checksum_MD5.cpp:105-108 | the initial registers are the words A, B, C and D of RFC 1321, section 3.3, byte by byte |
| MD5.MD5.Update | src/checksum_MD5.cpp:137-151 | the whole blocks of the buffer are folded, and fewer than 64 bytes stay pending |
| MD5.MD5.Put | src/checksum_MD5.cpp:360-369 | the message gets the whole stream, however its reads split it; fails exactly if a read does |
| MD5.MD5.AddSize | src/checksum_MD5.cpp:302-311 | the bytes written are the length in bits modulo 2^32 |
| MD5.MD5.Finalize | src/checksum_MD5.cpp:260-297 | the registers are the fold of the padded message, in one block or in two, and the digest is their bytes |
| MD5.MD5.PutReg | src/checksum_MD5.cpp:288-289 | the shifts put the four bytes of a register, the lowest first, and nothing else |
| MD5.DigestTellsRegs | src/checksum_MD5.cpp:287-295 | the digest determines the four registers |
| MD5.DigestBytes | src/checksum_MD5.cpp:287-295 | each of the sixteen bytes of the digest |
| MD5.PaddingIsStandard | src/checksum_MD5.cpp:260-283 | the padding is that of RFC 1321 if and only if the length in bits modulo 2^64 is below 2^32, so for every message under 2^29 bytes |
| MD5.Sum | src/checksum_MD5.cpp:360-369 | for every stream under 2^29 bytes, the result is the fold of the block function over the message padded as in RFC 1321, sections 3.1 and 3.2 |
| IntegerIO.Output.Horner | src/io_Output.cpp:69-92 | the digits end where asked and nothing behind them is touched; the buffer is not left when it has room for the digits |
| IntegerText.DecimalWidth | src/io_Output.cpp:156-244 | ten digits are enough for 32 bits and twenty for 64, so that the four buffers are never left |
| IntegerText.DigitsAreCharacters | src/io_Output.cpp:69-92 | the digits written are the characters 0 to 9 and the letters in their order, small or capital |
| IntegerText.TextExamples | src/io_Output.cpp:69-92 | the texts of some numbers, character by character |
| IntegerText.TestBaseIs | src/io_Input.cpp:238-253 | a character is read as a digit of a base exactly if it is that character, small or capital |
| IntegerIO.Output.PrintUnsigned | src/io_Output.cpp:218-244 | writes the decimal text of every value |
| IntegerIO.Output.PrintSigned | src/io_Output.cpp:156-210 | writes the sign and the decimal text of every value, the least one included |
| IntegerIO.Input.Get | src/io_Input.cpp:71-93 | the pushed back character first, then the stream, then -1 |
| IntegerIO.Input.Skip | src/io_Input.cpp:99-104 | the first character that is not a space |
| IntegerIO.Input.ScanPrefix | src/io_Input.cpp:268-287 | the base of a number without one; a leading zero is a digit of an octal number |
| IntegerIO.PrefixCharacters | src/io_Input.cpp:268-287 | the prefixes, character by character, before any text |
| IntegerIO.Input.ScanDigits | src/io_Input.cpp:290-303 | the digits are read up to the first character that is not one, which is pushed back |
| IntegerIO.Input.ScanUnsigned | src/io_Input.cpp:263-396 | the two unsigned scans, on any text |
| IntegerIO.Input.ScanSigned | src/io_Input.cpp:317-429 | the two signed scans, on any text |
| IntegerText.ScannedExactly | src/io_Input.cpp:376-388 | digits whose value fits in the word are read exactly: the overflow test does not fail them |
| IntegerText.RoundTrip | src/io_Input.cpp:376-388 | scanning the digits of `horner` in the same base, from 2 to 36, gives every value back and stops just after them |
| IntegerText.ReadExactly | src/io_Input.cpp:376-388 | for every digit string, base and word, the number read is the value of the digits, without a failure, if and only if it fits in the word |
| IntegerText.OverflowSeen | src/io_Input.cpp:376-388 | for every digit string, base and word, a failure is reported if and only if some digit makes the reduced number smaller than the 32 low bits of the one before; the whole result in both cases |
| IntegerText.OverflowMissed | src/io_Input.cpp:288-385 | inputs for 32 and for 64 bits that do not fit and are read as other numbers without a failure |
| IntegerIO.UnsignedRoundTrip | src/io_Input.cpp:350-396 | printing then scanning gives every value of the word back, with the base given or, for decimals, left out |
| IntegerIO.SignedRoundTrip | src/io_Input.cpp:406-429 | a signed decimal comes back if and only if it is not the least value of its type, which the scan refuses |
| IntegerIO.PrintAndScan | src/io_Input.cpp:406-429 | the same with the two classes |
| Utf8.DecodesOne | src/string_utf16.cpp:37-47 | a code unit encoded by `toUTF8` is decoded to itself, with its length, whatever follows |
| Utf8.Iter.Parse | src/string_utf8.cpp:43-79 | one character is read, or an exception is raised, by the tests of the code on the first byte and on those that follow it |
| Utf8.EncodesWhatIsRead | src/string_utf8.cpp:43-79 | a decoded unit is encoded as it was read if and only if its first byte is not C0 or C1, and its second is at least A0 after E0 and 90 after F0 |
| Utf8.FirstBytesTell | src/string_utf8.cpp:43-79 | those bytes tell, for every character that is decoded, whether it was read from the fewest bytes that RFC 3629 allows |
| Utf8.OverlongIsRead | src/string_utf8.cpp:43-79 | longer forms, which RFC 3629 forbids, are accepted |
| Utf8.AllowedExactly | src/string_utf8.cpp:43-79 | of the forms that are accepted, RFC 3629, section 3, allows exactly those whose first byte is not C0, C1 or F5 to F7, and whose second is at least A0 after E0 and 90 after F0, and at most 9F after ED and 8F after F4; these are the forms of its encoder |
| Utf8.StandardIsRead | src/string_utf8.cpp:43-79 | the partner: every character is read from the form of RFC 3629, whatever follows |
| Utf8.ReadAll | src/string_utf8.cpp:43-79 | the usual loop gives the characters up to the end, a null character or a bad one |
| Utf8.StopsWhere | src/string_utf8.cpp:43-79 | the loop succeeds exactly if it stops at the end or at a null character, and fails exactly if the text goes on with a bad or a cut one |
| Utf8.DecodedAs | src/string_utf8.cpp:43-79 | which bytes begin a character, a cut one or a bad one |
| Utf8.StandardIsReadBack | src/string_utf8.cpp:43-79 | the forms of RFC 3629 of any characters other than null are read back, whatever follows |
| Utf8.TextIsReadBack | src/string_utf8.cpp:43-79 | the encoding of any sequence of units is read back up to its first null unit, so whole if and only if it has none |
| Fletcher.Fletcher.constructor | src/checksum_Fletcher.cpp:45-51 | both sums at 0xffff |
| Fletcher.Fletcher.Add | src/checksum_Fletcher.cpp:65-71 | no 32-bit addition wraps, with a reduction every 360 bytes only, and both sums stay right modulo 65535 |
| Fletcher.Grows | src/checksum_Fletcher.cpp:65-71 | the bound: 2^32 is out of reach between two reductions |
| Fletcher.FoldedIs | src/checksum_Fletcher.cpp:56-60 | a reduction keeps a sum modulo 65535, keeps it from being 0, and makes it at most 131070 |
| Fletcher.Fletcher.Put | src/checksum_Fletcher.cpp:78-93 | the words of the whole stream are taken, however its reads split it; fails exactly if a read does |
| Fletcher.OddLength | src/checksum_Fletcher.cpp:78-93 | the words taken are those of the algorithm if and only if the length is even or the byte before the last one is 0 |
| Fletcher.WordIs | src/checksum_Fletcher.cpp:65-66 | the first byte of a word is its low half, and the second one its high half |
| Fletcher.Fletcher.Finish | src/checksum_Fletcher.cpp:105-106 | the packed checksum of the words; the sums are right modulo 65535 and not 0, and the halves of the checksum are right if and only if one reduction of the sums kept so far makes both fit in 16 bits |
| Fletcher.ReductionTooShort | src/checksum_Fletcher.cpp:105-106 | an input of four bytes for which the lower half is wrong |
| Fletcher.Sums | src/checksum_Fletcher.cpp:78-107 | for a stream of any length: the checksum of its words, whose sums are congruent modulo 65535 to the plain running sums; its halves are right if and only if the words make them fit |

## Left out

- AvlGenTree.GenTree.Add: no overflow of the count is modelled.
- AvlGenTree.GenTree.Exchange: models the exchange of items of the header; the exchange of links of the source file is not used by it.
- Copy, `clear` and `equals` of the AVL trees, iterators during a change of the tree, the trace printing, and the executable form of the invariant, whose minimum follows the wrong child: the invariant proved is the one of the comment.
- AvlTree.AvlTree.Insert: the rest of that tree, its removal above all, which uses single rotations only and does not promise balance, is not modelled.
- SimpleGC.SimpleGC.Allocate: requests of size 0, a failure of the system to give a chunk, and `clear` are not modelled; the address of a new chunk is a parameter.
- SimpleGC.SimpleGC.Mark: the segment tree that finds the chunk of an address is a plain search, here and in `GroupedGC`.
- ListGC.ListGC.Allocate: the new block is an address that the list does not have yet; the size asked for and the width of the counters, whose limit doubles at each automatic collection, are not modelled.
- BlockGC.BlockAllocator.Allocate: of chunks that cannot hold a link, the synchronous mode only; in the other mode a second allocation may divide by the number of blocks of a chunk, which is 0.
- GroupedGC.GroupedGC.Allocate: asks for a class below 8192, the length of the arrays of the code, which has no error path beyond; requests of size 0, `clear`, the collection that is not delayed and the statistics are not modelled.
- JobScheduler.AlwaysSafe: `run()` of a job returns normally, threads are created and joined without a failure, and reads of the shared state are atomic; the text of the exception is not modelled.
- JobScheduler.RunsAreBounded: the producer has finitely many jobs.
- JsonSaver.Saver.WriteString: the content of a string is a sequence of code points; decoding the bytes of a string, `write(char)` and floats are not modelled.
- JsonParser.Parser.DoParsing: says nothing of the calls made before a failure, and the maker does not raise exceptions; tokens are given, so the lexer, its comments, its numbers in other bases, its floats and its string escapes, which do not put the escaped character in the string, are not modelled, nor is the conversion of integers to 32 bits.
- JsonParser.Parser.ParseValue: says nothing of the calls made before a failure.
- JsonParser.Parser.ParseArray: the same.
- JsonParser.Parser.ParseObject: the same.
- MD5.MD5.Put: of the ways to put data, the unbounded stream is modelled; the block that is longer than the buffer, for which the code loops, and the bounded stream are not. The 64 rounds are a parameter.
- Fletcher.Fletcher.Add: words are made of bytes as on a machine that puts the lower byte first.
- IntegerIO.Input.Get: errors of the stream, which raise exceptions, are not modelled, and the base is at most 36; a stream that is printed to does not fail.
- IntegerIO.Output.PrintSigned: the opposite of the least value is taken to wrap, as it does in practice.
- Formatted printing (width, padding, bases other than ten, addresses), floating-point numbers, words and lines.
- Utf8.Iter.Parse: the text of exceptions is not modelled; the 4 byte form is decoded, and `toUTF8` does not write it.
- Everything else of the library: files, sockets, processes, plugins, XML, options, the documentation of the data structures whose algorithms are in headers.
