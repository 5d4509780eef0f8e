# Verification of the base library's core data structures and monitors

This project models the data structures and the synchronisation layer of `base/` in Dafny and proves what they are for.
`dafny verify dfyconfig.toml` checks everything.

Code that changes objects step by step is a class whose fields are those of the original: nodes on the heap with parent
pointers, headers inside the bytes of a pool, links inside list elements, counters under a mutex. Every operation is
proved against a specification on values, and what the operations keep over whole runs is proved about that
specification.

| files | what they model |
|---|---|
| `Map`, `LinkedTree`, `RedBlackTree`, `RedBlackFixup` | the red-black map: heap nodes with a shared sentinel that is written to; a ghost tree and a path in it say which tree the links spell out |
| `BuddyAllocator`, `BuddyStates`, `BuddyMemory`, `BuddyTree`, `PowersOfTwo` | the buddy system: headers at byte offsets in the pool, doubly linked avail lists threaded through them, splitting, coalescing, reallocation |
| `FlatTimingWheel`, `TimerQueue`, `WheelTicks`, `EmbeddedList`, `Date` | the timing wheel as a stable priority queue, its buckets as linked lists, and the rounding from dates to ticks |
| `ReadWriteLock`, `LockProtocol`, `Sums` | the reader/writer lock built on a mutex and two conditions, as counters and as a transition system |
| `SharedQueue`, `QueueProtocol` | the bounded queue, the same way |
| `SharedEmbeddedQueue`, `StoppableQueueProtocol` | the queue that can be stopped, whose signals are sent after the mutex is given up |
| `AstTree`, `AstBuilder`, `AstElements` | the stack machine from parser events to a tree, and the traversal back to events |
| `CompactStringMap`, `CompactRecords`, `PointerBytes` | the map from short strings to pointers in one growable buffer of bytes |
| `DiscardAllocator`, `Alignment` | the allocator that hands out pieces of chunks and takes all of them back at once |
| `UniqueId` | identifiers as text and back |

Conventions. Keys of the red-black map are ranks under its comparator, and its values are integers. Pointers into the pool
are offsets. A flag (`granted`, `memory`, `source`) or a `Grant` says what an allocator outside the model answers. In the
protocols a step is one critical section, from taking the mutex to unlocking it or waiting; a waiter sleeps until a signal
wakes it, a signal wakes one sleeper or more if there are any, wake-ups may be spurious, and pthread calls succeed. Dates
are taken as normalised where a contract says so, and 32-bit arithmetic wraps where the original's does. Assertions of the
original are taken to be compiled out, and what it does then is modelled, with the exceptions that "Left out" names: a
caller's promise that the code only asserts is a precondition here (an element is in its list, a block is outstanding),
and a second boolean key in a map has no outcome.

Where the code does not do what it is for, the model keeps the code, and the project gives an input and the condition:

| what fails | input | exactly when |
|---|---|---|
| a timing wheel whose clock goes back hands timers out early | `TimerQueues.FoundTooEarly`, `TimingWheels.FlatTimingWheel.ClockGoesBack` | `TimerQueues.TakenAtItsTick`, and the last clause of `TimingWheels.FlatTimingWheel.NextExpired` |
| the scan of an empty wheel never ends | `TimerQueues.EmptyScan` | `TimerQueues.ScanEnds` |
| ticks fall back after 49.7 days | `WheelTicks.TicksFallBack`, `WheelTicks.TicksFallBackOne` | `WheelTicks.MonotoneExactly` |
| a timer that is set once the milliseconds have wrapped around is handed out early | `WheelTicks.EarlyAfterWrap` | `WheelTicks.NotEarlyExactly`, `WheelTicks.NotEarlyLong` |
| the search for the minimum of an emptied map reads a link to a freed node | `Maps.Map.EmptiedMap` | `Maps.Map.MinimumSafe` |
| `clear` of the bounded queue forgets producers | `QueueProtocol.ClearStrands` | `QueueProtocol.ClearForgets` |
| the search for a size class never ends | 0, 1 and 2^63 + 1 | `BuddyAllocators.SearchEnds` |
| one of the 22 largest requests to the buddy system gets a class of blocks that are too small | `BuddyAllocators.WrappedClass` | `BuddyAllocators.ClassHasRoom` |
| a value is rounded up to something that is no multiple of the alignment | `Alignments.Misaligned` | `Alignments.AlignsExactly` |
| a large request gets too little memory, or too large a recorded size | `DiscardAllocators.WrongSizes` | `DiscardAllocators.SizesMean` |
| a buffer of almost 4 GB does not grow enough | `CompactStringMaps.RequestTooSmall` | `CompactStringMaps.RequestSuffices` |
| the check of a list overlooks disorder | `EmbeddedLists.EmbeddedList.Overlooked` | `EmbeddedLists.EmbeddedList.SeemsMeans`, `EmbeddedLists.EmbeddedList.Validate` |

## Model

| member | source | states |
|---|---|---|
| `Maps.Map.DeleteNode` | base/source/ESBMap.cpp:446-581 | exactly the given node leaves the map; the other nodes keep their identity, key, value and order; search order, parent links, black root, no red-red edge and equal black heights hold again; the node is freed and the size goes down by one; the left link of the sentinel changes exactly if the node is the root of three entries or more, and then leads to its successor |
| `Maps.Map.Unlink` | base/source/ESBMap.cpp:455-509 | unlinking a node, or moving its successor into its place, takes exactly its entry out of the order and leaves the tree balanced, or one black node short at one place, where the loop starts; the successor may be the direct child, and what is spliced in may be the sentinel |
| `Maps.Map.TakeOver` | base/source/ESBMap.cpp:488-508 | every node that led to the deleted one leads to its successor instead, and no other link changes, but that the sentinel gets the successor as its left child if the deleted node was the root |
| `Maps.Map.DeleteFixup` | base/source/ESBMap.cpp:526-580 | from a tree that is one black node short at `x`, the loop ends, the order of entries is unchanged and the tree is balanced |
| `Maps.Map.UnlinkHere` | base/source/ESBMap.cpp:461-475 | after a splice the node's entry is missing from the order, and the parent of what was spliced in, even of the sentinel, is where the loop needs it |
| `Maps.Map.DeleteTurnLeft` | base/source/ESBMap.cpp:537-551 | one turn of the loop at a left child: still short at one place or balanced, same order of entries, and the measure of the loop goes down |
| `Maps.Map.DeleteTurnRight` | base/source/ESBMap.cpp:562-576 | the same for a right child |
| `RedBlackFixup.RedSibling` | base/source/ESBMap.cpp:530-535 | the first case leaves the tree short at the same place, below a red parent with a black sibling, and keeps the order |
| `RedBlackFixup.BlackNephews` | base/source/ESBMap.cpp:537-539 | the second case moves the shortage one level up, or ends it at a red parent |
| `RedBlackFixup.NearNephew` | base/source/ESBMap.cpp:540-544 | the third case keeps the order and the shortage, and makes the far nephew red |
| `RedBlackFixup.FarNephew` | base/source/ESBMap.cpp:545-550 | the last case ends the shortage: the tree is balanced with a black root |
| `RedBlackFixup.SplicedBalance` | base/source/ESBMap.cpp:461-475 | splicing out a black node with one child leaves the tree short at its place; splicing out a red one keeps it balanced |
| `RedBlackFixup.ReplacedBalance` | base/source/ESBMap.cpp:479-508 | the same when the node that was spliced out takes the place and colour of another |
| `RedBlackFixup.ReplacedWalk` | base/source/ESBMap.cpp:479-508 | and then exactly the other node is missing from the order of entries |
| `Maps.Map.InsertNode` | base/source/ESBMap.cpp:358-444 | adds exactly the new key if it is absent, and returns false and changes nothing if it is present; the search and the fix-up loop end, and the tree is sorted, linked and balanced afterwards |
| `Maps.Map.InsertFixup` | base/source/ESBMap.cpp:401-441 | from a tree with at most one red-red edge, at `x`, the loop ends, keeps the order of entries and leaves a balanced tree with a black root |
| `Maps.Map.FindPlace` | base/source/ESBMap.cpp:368-380 | the search ends at the only place where the new key keeps the tree sorted, or at a node with the same key |
| `RedBlackFixup.RedUncle` | base/source/ESBMap.cpp:409-413 | recolouring moves the red-red edge two levels up and keeps all black heights |
| `RedBlackFixup.InnerChild` | base/source/ESBMap.cpp:414-416 | the rotation of an inner child keeps the order and the black heights, and the edge becomes an outer one |
| `RedBlackFixup.OuterChild` | base/source/ESBMap.cpp:417-420 | the rotation of an outer child removes the edge for good |
| `Maps.Map.LeftRotate` | base/source/ESBMap.cpp:613-639 | rewrites exactly the links of a rotation, and leaves those of the sentinel alone |
| `Maps.Map.RightRotate` | base/source/ESBMap.cpp:583-611 | the mirror image |
| `RedBlackTree.RotateLeftKeeps` | base/source/ESBMap.cpp:613-639 | a rotation keeps the order of the entries and the search order |
| `RedBlackTree.RotateRightKeeps` | base/source/ESBMap.cpp:583-611 | so does its mirror image |
| `Maps.Map.FindNode` | base/source/ESBMap.cpp:244-265 | finds the node with the key, and the sentinel exactly if no entry has it |
| `Maps.Map.FindMinimum` | base/source/ESBMap.cpp:290-301 | reaches the node of the first entry of a subtree |
| `Maps.Map.FindSuccessor` | base/source/ESBMap.cpp:316-334 | reaches the node of the next entry in the order of the whole map, or the sentinel behind the last |
| `Maps.Map.Insert` | base/source/ESBMap.cpp:24-47 | the error cases in their order; a success adds one entry with a new node, and a failure changes no link, colour or value of any node |
| `Maps.Map.Remove` | base/source/ESBMap.cpp:49-63 | a success removes the one entry with the key, and keeps track of whether a root with two children has ever gone; a failure changes no link, colour or value of any node |
| `Maps.Map.Clear` | base/source/ESBMap.cpp:113-164 | ends with an empty map, having freed every node except the sentinel exactly once |
| `Maps.Map.MinimumIterator` | base/source/ESBMap.cpp:166-169 | the node of the smallest key, or the sentinel if the map is empty and no root with two children has ever been deleted from it |
| `Maps.Map.MinimumSafe` | base/source/ESBMap.cpp:290-301 | the first link that the search for the minimum reads is that of a live node if and only if the map is not empty or no root with two children has ever been deleted from it |
| `Maps.Map.EmptiedMap` | base/source/ESBMap.cpp:495-508 | a map after the insertion of 1, 2 and 3, the removal of 2 and `clear`, whose search for the minimum reads a link to a freed node |
| `Maps.Map.AtRoot` | base/source/ESBMap.cpp:455-459 | the root has two children if and only if the map has three entries or more |
| `Maps.Map.Visit` | base/source/ESBMap.cpp:316-334 | starting at the minimum and following successors visits the node of every entry once, in strictly increasing order of keys, and then reaches the sentinel |
| `Maps.Map.IsBalanced` | base/source/ESBMap.cpp:643-671 | true exactly if the height is within the logarithmic bound and all ways down have the same number of black nodes, whatever the colours |
| `Maps.Map.AlwaysBalanced` | base/source/ESBMap.cpp:643-671 | which is always so for a map that only its operations have changed |
| `Maps.Map.GetBlackHeight` | base/source/ESBMap.cpp:673-694 | the largest number of black nodes on a way down, and whether two ways differ |
| `RedBlackTree.EvenMeans` | base/source/ESBMap.cpp:673-694 | two ways down differ exactly if these do |
| `RedBlackTree.WaysBounded` | base/source/ESBMap.cpp:673-714 | no way down is longer than the height, and none has more black nodes than the largest number |
| `RedBlackTree.WaysReach` | base/source/ESBMap.cpp:673-714 | one is as long, and one has as many |
| `RedBlackTree.LogarithmicHeight` | base/source/ESBMap.cpp:650-657 | a red-black tree with n entries has 2^height at most (n + 1)^2 |
| `LinkedTree.LeftRotated` | base/source/ESBMap.cpp:613-639 | the links after a left rotation spell out the rotated tree, below an unchanged surrounding |
| `LinkedTree.RightRotated` | base/source/ESBMap.cpp:583-611 | the mirror image |
| `LinkedTree.Spliced` | base/source/ESBMap.cpp:467-475 | the links after a splice spell out the tree with the only child in the place of its parent, whatever was written to the sentinel |
| `LinkedTree.TakenOver` | base/source/ESBMap.cpp:488-508 | the links after a takeover spell out the tree with one node in the place of another |
| `BuddyAllocators.BuddyAllocator.Allocate` | base/source/ESBBuddyAllocator.cpp:113-182 | the error cases; out of memory exactly if no aligned range of the size class is free of blocks in use; otherwise one more block is in use, it overlaps no other, it starts a free block of the smallest size that suffices, it has room for the request, and no payload has changed |
| `BuddyAllocators.BuddyAllocator.TakeBlock` | base/source/ESBBuddyAllocator.cpp:139-180 | the same once there is a pool, with all lists and headers in order |
| `BuddyAllocators.BuddyAllocator.FindBlock` | base/source/ESBBuddyAllocator.cpp:143-152 | takes a first block off the smallest non-empty list that will do, and finds none exactly if there is no free block of that size or more |
| `BuddyAllocators.BuddyAllocator.Carve` | base/source/ESBBuddyAllocator.cpp:162-180 | the splitting loop hands out a block of the requested class and lists the other halves; no block in use is touched |
| `BuddyAllocators.BuddyAllocator.Deallocate` | base/source/ESBBuddyAllocator.cpp:184-294 | a block in use is always taken back: exactly it is no longer in use, buddies are merged as far as possible, and no payload of another block has changed; in other cases an error and no change, and the pointer is refused exactly if it lies outside the pool |
| `BuddyAllocators.BuddyAllocator.Coalesce` | base/source/ESBBuddyAllocator.cpp:222-290 | the coalescing loop ends with everything in order and no two free buddies; the asserted comparison of buddy sizes holds in every turn |
| `BuddyAllocators.BuddyAllocator.MergeStep` | base/source/ESBBuddyAllocator.cpp:242-252 | a free buddy leaves its list and the lower half stands for both |
| `BuddyAllocators.BuddyAllocator.Initialize` | base/source/ESBBuddyAllocator.cpp:296-318 | the whole pool is one free block, or an error and no change |
| `BuddyAllocators.BuddyAllocator.Reset` | base/source/ESBBuddyAllocator.cpp:320-337 | in use exactly if a block is outstanding; otherwise the pool goes back |
| `BuddyAllocators.BuddyAllocator.PoolListed` | base/source/ESBBuddyAllocator.cpp:328-330 | the list for the pool's own size is non-empty exactly if the whole pool is free, and then all others are empty |
| `BuddyAllocators.BuddyAllocator.Reallocate` | base/source/ESBBuddyAllocator.cpp:343-380 | on success each byte that lies in both blocks is in its place in the new one, the old one is free and no other payload has changed; without an old block it allocates one that overlaps no other and touches no payload; for no bytes it frees, and touches no other payload; on failure nothing changes, and the pointer is refused exactly if it lies outside the pool |
| `BuddyAllocators.BuddyAllocator.Relocate` | base/source/ESBBuddyAllocator.cpp:358-380 | the first of these cases, for a pool that is there or not and a pointer into it or not |
| `BuddyAllocators.BuddyAllocator.AllocationSize` | base/source/ESBBuddyAllocator.cpp:382-389 | the room of a block in use, which is never 0, or 0 for a pointer outside the pool |
| `BuddyAllocators.BuddyAllocator.Write` | base/source/ESBBuddyAllocator.cpp:179-180 | a client that writes its payload disturbs no header, list or other payload |
| `BuddyAllocators.BuddyAllocator.LiveBlock` | base/include/ESBBuddyAllocator.h:117-145 | a block in use is aligned to its size, inside the pool, and has room for what was asked for behind its header |
| `BuddyAllocators.BuddyAllocator.LiveDisjoint` | base/source/ESBBuddyAllocator.cpp:162-180 | two blocks in use are the same, or do not overlap |
| `BuddyAllocators.BuddyAllocator.PushAvailList` | base/source/ESBBuddyAllocator.cpp:84-99 | the list stays doubly linked and gets the block in front; only headers of the list are written |
| `BuddyAllocators.BuddyAllocator.PopAvailList` | base/source/ESBBuddyAllocator.cpp:36-61 | the first block leaves the list, or there is none |
| `BuddyAllocators.BuddyAllocator.RemoveFromAvailList` | base/source/ESBBuddyAllocator.cpp:63-82 | a block leaves its list, wherever it stands in it, and the rest stays linked |
| `BuddyAllocators.UWordToKVal` | base/source/ESBBuddyAllocator.cpp:11-34 | the search ends and finds the class between the two powers of two |
| `BuddyAllocators.SearchNarrows` | base/source/ESBBuddyAllocator.cpp:18-31 | the interval keeps the answer strictly inside, and shrinks |
| `BuddyAllocators.SearchEnds` | base/source/ESBBuddyAllocator.cpp:18-31 | the search ends for arguments from 2 to 2^63 and for no others |
| `BuddyAllocators.ClassHasRoom` | base/include/ESBBuddyAllocator.h:139 | a request gets a class of blocks with room for it and its header if and only if their sum is at most 2^63; the search ends for these and for the 22 largest sizes, whose sum has wrapped around |
| `BuddyAllocators.WrappedClass` | base/include/ESBBuddyAllocator.h:139 | of these 22 the smallest gets the class of blocks of two bytes |
| `BuddyAllocators.SizeClassUnique` | base/include/ESBBuddyAllocator.h:137-139 | there is only one such class |
| `BuddyTree.Tiled` | base/source/ESBBuddyAllocator.cpp:165-176 | every byte of the pool lies in a block |
| `BuddyTree.TiledOnce` | base/source/ESBBuddyAllocator.cpp:165-176 | and in no other |
| `BuddyTree.NoFreeBuddies` | base/source/ESBBuddyAllocator.cpp:214-217 | two buddies of equal size, told by their addresses, are never both free |
| `BuddyTree.NothingInUse` | base/source/ESBBuddyAllocator.cpp:328-330 | when nothing is in use the pool is one free block, in whatever order the blocks were freed |
| `BuddyTree.UseDetermines` | base/source/ESBBuddyAllocator.cpp:214-217 | what is in use determines how the pool is divided, whatever the order in which blocks came and went |
| `BuddyStates.FreeUndoes` | base/source/ESBBuddyAllocator.cpp:113-294 | taking back a block right after its allocation divides the pool as before |
| `BuddyTree.RangeInFreeBlock` | base/source/ESBBuddyAllocator.cpp:143-152 | an aligned range that touches no block in use lies in a single free block |
| `BuddyTree.ExhaustedMeans` | base/source/ESBBuddyAllocator.cpp:150-152 | there is a free block of a size or more exactly if there is such a range |
| `BuddyTree.BlockAligned` | base/source/ESBBuddyAllocator.cpp:234-239 | a block of size 2^j starts at a multiple of 2^j |
| `BuddyTree.PathAligned` | base/source/ESBBuddyAllocator.cpp:234-267 | which side the buddy is on can be read off the offset, as the code does |
| `BuddyMemory.Pushed` | base/source/ESBBuddyAllocator.cpp:84-99 | a push keeps every list well formed |
| `BuddyMemory.Unlinked` | base/source/ESBBuddyAllocator.cpp:63-82 | so does the removal of an element from any place |
| `BuddyMemory.FirstHead` | base/source/ESBBuddyAllocator.cpp:239-242 | the header at the start of a block tells whether it is free as a whole, and is never larger than the block |
| `BuddyStates.Halved` | base/source/ESBBuddyAllocator.cpp:168-174 | writing the headers of a split keeps all headers and lists outside the block |
| `BuddyStates.UpperListed` | base/source/ESBBuddyAllocator.cpp:175 | after the push the upper half is a free block and the lower one is pending |
| `BuddyStates.BuddyTaken` | base/source/ESBBuddyAllocator.cpp:249-250 | taking a free buddy off its list keeps everything else in order |
| `BuddyStates.PayloadWritten` | base/include/ESBBuddyAllocator.h:117-127 | headers and lists do not notice what is written into a payload |
| `BuddyStates.CopyMeans` | base/source/ESBBuddyAllocator.cpp:374 | the copy puts each byte in its place, and writes nothing outside the new payload |
| `BuddyStates.MoveMeans` | base/source/ESBBuddyAllocator.cpp:369-377 | allocating, copying and freeing together move the first bytes and leave every other payload alone |
| `TimingWheels.FlatTimingWheel.NextExpired` | base/source/ESBFlatTimingWheel.cpp:135-155 | the first-linked timer of the least tick, if that is not after now, and none exactly if no timer is due; the rest stays in place; no timer comes more than 3 (t - 1) milliseconds before its time, for ticks of t milliseconds, unless the ticks of that time wrap around, and none stays that is overdue by 2 (t - 1), unless those of now do; and exactly when, by what a caller knows before the call, the wheel is in order afterwards |
| `TimingWheels.FlatTimingWheel.ExpireAll` | base/source/ESBFlatTimingWheel.cpp:135-155 | calling it until it returns null hands out the due timers in the order of their ticks, and of their insertion within a tick, none of them early; the others keep their order, and none of them is overdue, with the same provisos |
| `TimingWheels.FlatTimingWheel.TakeExpired` | base/source/ESBFlatTimingWheel.cpp:135-155 | what the code does whatever the buckets hold and however the clock was set: the first timer of the first bucket that the scan from the current tick finds, or none |
| `TimingWheels.FlatTimingWheel.ClockGoesBack` | base/source/ESBFlatTimingWheel.cpp:135-155 | a call at an earlier time, after which the next call hands out a timer 50 ticks early |
| `TimingWheels.FlatTimingWheel.Scan` | base/source/ESBFlatTimingWheel.cpp:141-151 | the loop over the ticks ends, in the turn in which it comes to a bucket with a timer, or past now |
| `TimerQueues.ScanEnds` | base/source/ESBFlatTimingWheel.cpp:141 | the loop ends exactly if the tick of now is below 2^32 - 1 or there is a timer |
| `TimerQueues.EmptyScan` | base/source/ESBFlatTimingWheel.cpp:141 | an empty wheel at the tick 2^32 - 1, whose scan ends in no turn |
| `TimerQueues.TakenAtItsTick` | base/source/ESBFlatTimingWheel.cpp:141-149 | a timer whose tick is still to come is taken at its tick exactly if that is less than a round away, and early otherwise |
| `TimerQueues.FoundTooEarly` | base/source/ESBFlatTimingWheel.cpp:141-149 | an input for which it is taken early |
| `TimingWheels.FlatTimingWheel.Insert` | base/source/ESBFlatTimingWheel.cpp:51-79 | the error cases, which leave the timer and the wheel alone; a success appends the timer to the queue with its tick, and all invariants of the wheel hold |
| `TimingWheels.FlatTimingWheel.Update` | base/source/ESBFlatTimingWheel.cpp:99-133 | a new tick puts the timer behind all others, the same tick leaves it in place with its new time; an expired delay removes and unlinks it, and too long a delay changes nothing |
| `TimingWheels.FlatTimingWheel.Remove` | base/source/ESBFlatTimingWheel.cpp:81-97 | exactly the given timer leaves the queue; it is unlinked, so that it can be inserted again |
| `TimingWheels.FlatTimingWheel.Clear` | base/source/ESBFlatTimingWheel.cpp:32-49 | no timer is left, and all of them are unlinked and know it |
| `TimingWheels.FlatTimingWheel.Link` | base/source/ESBFlatTimingWheel.cpp:76-77 | the buckets go on to hold what the queue says |
| `TimingWheels.FlatTimingWheel.Unlink` | base/source/ESBFlatTimingWheel.cpp:94-95 | the same, without one timer |
| `TimingWheels.FlatTimingWheel.constructor` | base/source/ESBFlatTimingWheel.cpp:7-19 | an empty wheel, with or without memory for buckets, which is in order exactly if it has ticks, not too many for signed 32-bit numbers, and these have a length |
| `TimingWheels.IdxMeans` | base/include/ESBFlatTimingWheel.h:86 | the unsigned arithmetic of the index gives the remainder |
| `TimerQueues.ScanFinds` | base/source/ESBFlatTimingWheel.cpp:141-149 | while all ticks lie within one round, the timers of the bucket that the scan finds have the same tick, and the first of them is next |
| `TimerQueues.ScanFindsNone` | base/source/ESBFlatTimingWheel.cpp:141-154 | and if it finds none, no timer is due |
| `TimerQueues.DrainedSorted` | base/source/ESBFlatTimingWheel.cpp:135-155 | the order in which `ExpireAll` hands timers out is that of their ticks |
| `TimerQueues.DrainedStable` | base/source/ESBFlatTimingWheel.cpp:135-155 | and within one tick that in which they were linked |
| `TimerQueues.DrainedAll` | base/source/ESBFlatTimingWheel.cpp:135-155 | and each timer comes once |
| `WheelTicks.NotEarly` | base/include/ESBFlatTimingWheel.h:88-92 | a timer whose tick has come was set for a time at most 3 (t - 1) whole milliseconds later, for ticks of t milliseconds, if neither the milliseconds of the seconds nor the sum of the ticks has wrapped around; `NextExpired` promises this for every timer that it returns |
| `WheelTicks.NotEarlyExactly` | base/include/ESBFlatTimingWheel.h:88-92 | for ticks of up to ten days, and timers whose tick comes before the milliseconds of the seconds wrap around: none is due earlier than that, whenever the clock is read, if and only if nothing has wrapped around |
| `WheelTicks.ReachedOne` | base/include/ESBFlatTimingWheel.h:88-92 | ticks of one millisecond all come before that |
| `WheelTicks.CountableFits` | base/include/ESBFlatTimingWheel.h:88-92 | while the time since the start and the delay together fit into 32 bits, nothing has wrapped around |
| `WheelTicks.NotEarlyLong` | base/include/ESBFlatTimingWheel.h:88-92 | for ticks of a second and more, of any length: if and only if the first second that has the tick is not too early |
| `WheelTicks.EarlyAfterWrap` | base/include/ESBFlatTimingWheel.h:89 | for ticks of any length a timer that is set in second 4294968, with no delay, is due in second 1 |
| `WheelTicks.NotLate` | base/include/ESBFlatTimingWheel.h:88-92 | once its time has passed by 2 (t - 1) milliseconds its tick has come, unless the ticks of now have wrapped around; `NextExpired` promises this for every timer that stays |
| `WheelTicks.MonotoneExactly` | base/include/ESBFlatTimingWheel.h:88-92 | ticks never decrease below a number of milliseconds exactly if they do not start again before: for ticks of one millisecond at 2^32, for longer ones where the milliseconds of the seconds wrap around after having reached a tick |
| `WheelTicks.FirstRollover` | base/include/ESBFlatTimingWheel.h:89 | which is after 4294968 seconds, for all ticks from 2 to 4294967000 milliseconds |
| `WheelTicks.TicksMonotone` | base/include/ESBFlatTimingWheel.h:88-92 | up to there later dates have no smaller ticks |
| `WheelTicks.TicksFallBack` | base/include/ESBFlatTimingWheel.h:89 | and there the ticks fall back, whatever their length |
| `WheelTicks.TicksFallBackOne` | base/include/ESBFlatTimingWheel.h:88-92 | also those of one millisecond |
| `WheelTicks.TicksBounds` | base/include/ESBFlatTimingWheel.h:88-92 | ticks are never ahead of the milliseconds, and less than two behind |
| `WheelTicks.QuotientMeans` | base/include/ESBFlatTimingWheel.h:89-90 | the division used in the proofs is that of the code |
| `EmbeddedLists.EmbeddedList.AddFirst` | base/source/ESBEmbeddedList.cpp:80-96 | the element comes first, and both directions of links agree |
| `EmbeddedLists.EmbeddedList.AddLast` | base/source/ESBEmbeddedList.cpp:98-114 | the element comes last |
| `EmbeddedLists.EmbeddedList.Remove` | base/source/ESBEmbeddedList.cpp:31-78 | the element leaves, wherever it stands, and its links are cleared; an empty list or no element changes nothing |
| `EmbeddedLists.EmbeddedList.RemoveFirst` | base/include/ESBEmbeddedList.h:61-67 | the first element leaves, or there is none |
| `EmbeddedLists.EmbeddedList.Size` | base/source/ESBEmbeddedList.cpp:21-29 | the number of elements |
| `EmbeddedLists.EmbeddedList.Index` | base/source/ESBEmbeddedList.cpp:116-125 | the element at an index, and none for an index outside the list |
| `EmbeddedLists.EmbeddedList.Validate` | base/source/ESBEmbeddedList.cpp:127-159 | exactly which disorder of the backward links is noticed, for any links whose forward chain ends |
| `EmbeddedLists.EmbeddedList.SeemsMeans` | base/source/ESBEmbeddedList.cpp:127-159 | what is noticed is all there is if and only if nothing comes before the first element |
| `EmbeddedLists.EmbeddedList.Overlooked` | base/source/ESBEmbeddedList.cpp:127-159 | a list with an element before the first that passes |
| `Dates.DateVar.PlusAssign` | base/source/ESBDate.cpp:23-28 | the fields after the assignment, with 32-bit wrap-around |
| `Dates.DateVar.MinusAssign` | base/source/ESBDate.cpp:35-43 | the same for subtraction |
| `Dates.PlusExact` | base/source/ESBDate.cpp:23-28 | addition is exact on microseconds if and only if the seconds do not overflow |
| `Dates.MinusExact` | base/source/ESBDate.cpp:35-43 | subtraction is exact if and only if the earlier date is taken from the later |
| `Dates.PlusMinus` | base/source/ESBDate.cpp:23-43 | each undoes the other, even when they wrap around |
| `Dates.OrderMeans` | base/source/ESBDate.cpp:23-43 | the order of dates is that of their microseconds |
| `LockProtocol.AlwaysSafe` | base/source/ESBReadWriteLock.cpp:77-323 | in every run: at most one writer, never a writer with a reader, and no wake-up is lost |
| `LockProtocol.StepSafe` | base/source/ESBReadWriteLock.cpp:77-323 | every step keeps this |
| `LockProtocol.StepMeans` | base/source/ESBReadWriteLock.cpp:77-323 | a step gives the lock to a writer exactly if nobody holds it, to a reader exactly if no writer holds it or waits, and to an attempt to read exactly if no writer holds it; it moves nobody else |
| `LockProtocol.NeverStuck` | base/source/ESBReadWriteLock.cpp:77-323 | as long as anybody holds the lock or waits, a holder can release or a signalled waiter can go on; if nobody holds it, one gets it |
| `LockProtocol.Drains` | base/source/ESBReadWriteLock.cpp:77-323 | if nobody new comes, every run of such steps is finite, with a bound, and ends with the lock idle |
| `ReadWriteLocks.ReadWriteLock.WriteAcquire` | base/source/ESBReadWriteLock.cpp:77-101 | the writer gets the lock exactly if no counter of holders is above 0, and otherwise waits; how all counters change, and who sleeps afterwards |
| `ReadWriteLocks.ReadWriteLock.WriteAwake` | base/source/ESBReadWriteLock.cpp:84-101 | the same when a wait is over, signalled or not |
| `ReadWriteLocks.ReadWriteLock.ReadAcquire` | base/source/ESBReadWriteLock.cpp:119-141 | the reader gets the lock exactly if no writer holds it or waits for it, and otherwise waits; how all counters change, and who sleeps afterwards |
| `ReadWriteLocks.ReadWriteLock.ReadAwake` | base/source/ESBReadWriteLock.cpp:126-141 | the same when a wait is over |
| `ReadWriteLocks.ReadWriteLock.WriteAttempt` | base/source/ESBReadWriteLock.cpp:172-184 | success exactly if no reader and no writer holds the lock, and then the writer holds it; otherwise nothing changes |
| `ReadWriteLocks.ReadWriteLock.ReadAttempt` | base/source/ESBReadWriteLock.cpp:215-227 | success exactly if no writer holds the lock, even if writers wait, and then one more reader holds it; otherwise nothing changes |
| `ReadWriteLocks.ReadWriteLock.WriteRelease` | base/source/ESBReadWriteLock.cpp:245-276 | the lock is free; a waiting writer is woken, or else all waiting readers; an error if there is no writer |
| `ReadWriteLocks.ReadWriteLock.ReadRelease` | base/source/ESBReadWriteLock.cpp:294-323 | one reader less; the last one wakes a waiting writer, and nobody else is woken; an error if there is no reader |
| `ReadWriteLocks.ReadWriteLock.Excluded` | base/source/ESBReadWriteLock.cpp:93-95 | what the counters say about exclusion |
| `QueueProtocol.AlwaysSafe` | base/source/ESBSharedQueue.cpp:58-262 | in every run: items come out in the order in which they went in, each once; the limit is kept; no wake-up is lost |
| `QueueProtocol.StepSafe` | base/source/ESBSharedQueue.cpp:58-262 | every step keeps this |
| `QueueProtocol.StepMeans` | base/source/ESBSharedQueue.cpp:58-262 | a push with memory puts its item behind the others exactly if there is room, a pop takes out the first item if there is one, and nothing else comes or goes |
| `QueueProtocol.RunMeans` | base/source/ESBSharedQueue.cpp:58-262 | over every run: what has been accepted are the items of the pushes that found room and memory, in their order, and what has been delivered is what a plain queue without waiters gives out |
| `QueueProtocol.NeverStuck` | base/source/ESBSharedQueue.cpp:58-262 | whoever waits for what is there can be served by a waiter that has been signalled |
| `QueueProtocol.Settles` | base/source/ESBSharedQueue.cpp:58-262 | if nobody new comes, every run of resumptions is finite, and ends with consumers waiting only for an empty queue, producers only for a full one, and not both |
| `QueueProtocol.ClearForgets` | base/source/ESBSharedQueue.cpp:264-296 | `clear` keeps the wake-up invariant exactly if no producer sleeps; none does without a limit, or while there are fewer items than the limit |
| `QueueProtocol.ClearStrands` | base/source/ESBSharedQueue.cpp:287 | a run after which a producer and a consumer wait for each other for ever |
| `SharedQueues.SharedQueue.Push` | base/source/ESBSharedQueue.cpp:74-98 | appends the item and wakes consumers, or waits exactly when the queue is full; an error changes nothing |
| `SharedQueues.SharedQueue.PushAwake` | base/source/ESBSharedQueue.cpp:74-98 | the same when a wait is over |
| `SharedQueues.SharedQueue.TryPush` | base/source/ESBSharedQueue.cpp:107-151 | the error cases, and otherwise the same step without a wait |
| `SharedQueues.SharedQueue.Pop` | base/source/ESBSharedQueue.cpp:169-200 | takes out and delivers the first item, waking the producers exactly if the queue was full; or waits, exactly when the queue is empty |
| `SharedQueues.SharedQueue.PopAwake` | base/source/ESBSharedQueue.cpp:169-200 | the same when a wait is over |
| `SharedQueues.SharedQueue.TryPop` | base/source/ESBSharedQueue.cpp:210-262 | the same without a wait |
| `SharedQueues.SharedQueue.Clear` | base/source/ESBSharedQueue.cpp:264-302 | an empty queue, in order exactly if no producer sleeps |
| `SharedQueues.SharedQueue.Size` | base/source/ESBSharedQueue.cpp:304-328 | what has been accepted and not yet delivered |
| `StoppableQueueProtocol.AlwaysSafe` | base/source/ESBSharedEmbeddedQueue.cpp:30-121 | in every run each accepted element has been delivered once, or cleared by `stop`, or is still queued, in order, and no wake-up is lost |
| `StoppableQueueProtocol.StepSafe` | base/source/ESBSharedEmbeddedQueue.cpp:30-121 | every step keeps this, also those between an unlock and its signal |
| `StoppableQueueProtocol.StepMeans` | base/source/ESBSharedEmbeddedQueue.cpp:30-121 | a push puts its element behind the others unless the queue has been stopped, a pop takes out the first one, and `stop` clears them |
| `StoppableQueueProtocol.RunMeans` | base/source/ESBSharedEmbeddedQueue.cpp:30-121 | over every run: what has been accepted are the elements that were pushed before the first stop, in their order, and what has been delivered is what a plain queue gives out |
| `StoppableQueueProtocol.StoppedForEver` | base/source/ESBSharedEmbeddedQueue.cpp:42-44 | after a stop nothing is accepted, delivered or cleared any more |
| `StoppableQueueProtocol.NeverStuck` | base/source/ESBSharedEmbeddedQueue.cpp:72-94 | a consumer that could be served, or must be released, has a signal or a resumption on its way |
| `StoppableQueueProtocol.Settles` | base/source/ESBSharedEmbeddedQueue.cpp:107-121 | every run of such steps is finite and ends with consumers waiting only for an empty queue; after a stop, with none waiting |
| `SharedEmbeddedQueues.SharedEmbeddedQueue.Push` | base/source/ESBSharedEmbeddedQueue.cpp:30-55 | the element is appended exactly if the call succeeds, which is when the queue has not been stopped, and a signal is due |
| `SharedEmbeddedQueues.SharedEmbeddedQueue.Pop` | base/source/ESBSharedEmbeddedQueue.cpp:57-105 | an error exactly after a stop, and otherwise the first element, which is then delivered, or a wait exactly if there is none |
| `SharedEmbeddedQueues.SharedEmbeddedQueue.PopAwake` | base/source/ESBSharedEmbeddedQueue.cpp:72-94 | the same when a wait is over |
| `SharedEmbeddedQueues.SharedEmbeddedQueue.Stop` | base/source/ESBSharedEmbeddedQueue.cpp:107-121 | the queue is stopped and empty, what was in it has been cleared, and a broadcast is due |
| `AstBuilder.BuildRoundTrip` | base/source/ASTTree.cpp:26-311 | the events of a list or map run to the end exactly if no map has a key twice, and then leave an empty stack and the element as root, with maps in key order; a key that comes twice is rejected |
| `AstBuilder.AcceptedMeans` | base/source/ASTTree.cpp:26-311 | conversely, any events that the tree accepts and that empty its stack for the first time are the events of a list or map with distinct keys, and that is the root up to key order |
| `AstBuilder.TraverseEmits` | base/source/ASTTree.cpp:313-431 | for any callbacks, the traversal calls them with the events of the element, in their order, up to the first call that says to stop |
| `AstBuilder.TraverseRecords` | base/source/ASTTree.cpp:313-431 | what a listener writes down that stops after any number of calls: exactly the events up to there |
| `AstBuilder.TraverseRoundTrip` | base/source/ASTTree.cpp:313-431 | another tree that listens to the traversal builds an equal element |
| `AstBuilder.BuildElement` | base/source/ASTTree.cpp:26-311 | the same as the round trip at any place in a list or below a key |
| `AstBuilder.StepMeans` | base/source/ASTTree.cpp:26-311 | every event that is accepted extends the events that the stack stands for |
| `AstElements.CanonicalInOrder` | base/source/ASTTree.cpp:300-306 | what has been built has its keys strictly increasing under the comparator |
| `AstElements.InOrderCanonical` | base/source/ASTTree.cpp:313-317 | such an element is built as it is |
| `AstElements.ListKept` | base/source/ASTTree.cpp:300-306 | a list is built with its elements in their order |
| `AstElements.PairsKept` | base/source/ASTTree.cpp:300-306 | a map is built with exactly its pairs |
| `AstElements.AllEventsAre` | base/source/ASTTree.cpp:365-381 | the events of a list are those of its elements, one after another |
| `AstElements.PairEventsAre` | base/source/ASTTree.cpp:319-363 | the events of a map are those of its pairs, one after another |
| `AstElements.EventsAre` | base/source/ASTTree.cpp:324-355 | the key before the value |
| `AstElements.VisibleMeans` | base/source/ASTTree.cpp:403-407 | text without a zero is shown whole, and other text up to its first zero |
| `AstElements.PutMeans` | base/source/ASTMap.cpp:251-270 | an insertion into an ordered map keeps the order and adds the one pair |
| `AstElements.KeyOrder` | base/source/ASTMap.cpp:251-270 | the comparator orders all keys that are not both boolean |
| `AstElements.KeysMean` | base/source/ASTMap.cpp:251-270 | strings before integers before decimals before booleans, and within a type by the value |
| `AstElements.TextOrder` | base/source/ASTString.cpp:41-55 | text comparison is total and antisymmetric |
| `AstElements.TextTransitive` | base/source/ASTString.cpp:41-55 | and transitive |
| `AstElements.TextLessMeans` | base/source/ASTString.cpp:41-55 | the text comes first that has ended, or has the smaller character, where the two differ first |
| `AstTrees.Tree.OnMapStart` | base/source/ASTTree.cpp:26-36 | an empty map goes on the stack, or there is no memory and no other change |
| `AstTrees.Tree.OnMapEnd` | base/source/ASTTree.cpp:38-67 | the map on top becomes the root, or the last element of the list below, or the value of the key below; one that cannot be inserted goes back on the stack, with the error |
| `AstTrees.Tree.OnListStart` | base/source/ASTTree.cpp:69-79 | an empty list goes on the stack, or there is no memory and no other change |
| `AstTrees.Tree.OnListEnd` | base/source/ASTTree.cpp:81-110 | the same for the end of a list |
| `AstTrees.Tree.OnNull` | base/source/ASTTree.cpp:112-151 | null is a value, and never a key |
| `AstTrees.Tree.OnScalar` | base/source/ASTTree.cpp:153-239 | a scalar is an element of a list, a key of a map or the value of a key |
| `AstTrees.Tree.InsertAny` | base/source/ASTTree.cpp:263-278 | where an element goes is decided by the top of the stack |
| `AstTrees.Tree.InsertPair` | base/source/ASTTree.cpp:280-311 | key and value go into the map below; a key that is there already is an error, and is off the stack then |
| `CompactStringMaps.CompactStringMap.Insert` | base/source/ESBCompactStringMap.cpp:29-101 | the error cases, which change nothing; a success replaces the value of a key that is there, in its place, or appends the new pair behind the others; growth keeps all pairs, and every write stays inside the buffer |
| `CompactStringMaps.CompactStringMap.Remove` | base/source/ESBCompactStringMap.cpp:103-133 | the finite map without the key, the rest in the same order; nothing changes if the key is not there |
| `CompactStringMaps.CompactStringMap.Find` | base/source/ESBCompactStringMap.cpp:135-158 | what the finite map says |
| `CompactStringMaps.CompactStringMap.Update` | base/source/ESBCompactStringMap.cpp:160-199 | the old value, and the new one in its place, if the key is there; an error and no change if not |
| `CompactStringMaps.CompactStringMap.Clear` | base/source/ESBCompactStringMap.cpp:201-206 | no pairs |
| `CompactStringMaps.CompactStringMap.Next` | base/source/ESBCompactStringMap.cpp:208-233 | the pair at a marker and the marker of the next |
| `CompactStringMaps.CompactStringMap.HasNext` | base/include/ESBCompactStringMap.h:130 | whether there is a pair at a marker |
| `CompactStringMaps.CompactStringMap.Visit` | base/source/ESBCompactStringMap.cpp:208-233 | iterating by marker yields every pair once, in the order of insertion |
| `CompactStringMaps.CompactStringMap.Seek` | base/source/ESBCompactStringMap.cpp:50-72 | the walk over the records finds the key, or the end |
| `CompactStringMaps.CompactStringMap.Grow` | base/source/ESBCompactStringMap.cpp:77-89 | after it a record and the terminator fit, with all pairs as they were |
| `CompactStringMaps.RequestSuffices` | base/source/ESBCompactStringMap.cpp:81 | the size that is requested, in 32-bit and 64-bit arithmetic, suffices exactly if the end of the new record has an offset in 32 bits |
| `CompactStringMaps.RequestDoubles` | base/source/ESBCompactStringMap.cpp:81 | for buffers below 2 GB this is twice the capacity, or what the record needs if that is more |
| `CompactStringMaps.RequestTooSmall` | base/source/ESBCompactStringMap.cpp:81 | a record that would end at the offset 2^32, for which a smaller buffer is requested than the old one |
| `CompactStringMaps.WriteRecord` | base/source/ESBCompactStringMap.cpp:91-98 | exactly the bytes of one record and of the terminator change |
| `CompactRecords.RecordAt` | base/source/ESBCompactStringMap.cpp:56-72 | what the bytes at the start of each record are |
| `CompactRecords.Appended` | base/source/ESBCompactStringMap.cpp:91-98 | a record written behind the last is parsed as one more pair |
| `CompactRecords.MovedDown` | base/source/ESBCompactStringMap.cpp:129-131 | after the move the bytes parse as all pairs but one |
| `CompactRecords.Overwritten` | base/source/ESBCompactStringMap.cpp:65 | a pointer written in place changes one value |
| `CompactRecords.DroppedMap` | base/source/ESBCompactStringMap.cpp:129-131 | dropping the pair drops the key from the finite map |
| `CompactRecords.ReplacedMap` | base/source/ESBCompactStringMap.cpp:65 | replacing a value updates the finite map |
| `PointerBytes.ReadAfterWrite` | base/source/ESBString.cpp:136-168 | reading gives back every 64-bit pointer that was written |
| `PointerBytes.ToFrom` | base/source/ESBString.cpp:136-168 | and writing gives back the bytes that were read |
| `PointerBytes.ByteMeans` | base/source/ESBString.cpp:136-168 | which byte of the number is where |
| `PointerBytes.WritePointer` | base/source/ESBString.cpp:158-168 | exactly the eight bytes at the place change, most significant first |
| `DiscardAllocators.DiscardAllocator.Allocate` | base/source/ESBDiscardAllocator.cpp:33-97 | for requests of any size: the error cases, which change nothing; a success hands out one more block, in the head or in a new chunk, which joins those outstanding under the base that was granted, all of which stay; all blocks since the last reset are disjoint, aligned and inside the memory of their chunks exactly if a large request stays below 4 GB with its header and a new chunk for small ones below 2 GB, and all recorded sizes can be trusted exactly if the low 32 bits of the new one stay below 2 GB |
| `DiscardAllocators.DiscardAllocator.TakeWhole` | base/source/ESBDiscardAllocator.cpp:56-73 | the same for a block with a chunk of its own, which joins the chain behind the head |
| `DiscardAllocators.DiscardAllocator.TakeFirst` | base/source/ESBDiscardAllocator.cpp:83-96 | the same for the first block of a new head |
| `DiscardAllocators.DiscardAllocator.Take` | base/source/ESBDiscardAllocator.cpp:93-96 | the next block of the head, behind all its others |
| `DiscardAllocators.DiscardAllocator.AllocateChunk` | base/source/ESBDiscardAllocator.cpp:128-148 | the base that the source allocator granted, the size that is asked from it, and the size that is recorded, for requests of any size |
| `DiscardAllocators.DiscardAllocator.NewChunkMeans` | base/source/ESBDiscardAllocator.cpp:56-91 | a request takes no chunk exactly if it fits into the head and is not larger than chunks are; what chunk it takes otherwise |
| `DiscardAllocators.SizesMean` | base/source/ESBDiscardAllocator.cpp:128-142 | a request gets the memory it needs exactly if it stays below 4 GB with its header; the size recorded for it is there exactly if the low 32 bits stay below 2 GB |
| `DiscardAllocators.WrongSizes` | base/source/ESBDiscardAllocator.cpp:128-142 | a request that gets no memory beyond the header, and one that gets enough but is recorded as almost 2^64 bytes |
| `DiscardAllocators.DiscardAllocator.Reset` | base/source/ESBDiscardAllocator.cpp:108-126 | the bases of all chunks but the last are returned, in their order and each once, and are no longer outstanding; the last is empty again; what it is used for next is in order exactly if its recorded size can be trusted |
| `DiscardAllocators.DiscardAllocator.Destroy` | base/source/ESBDiscardAllocator.cpp:20-31 | the bases of all chunks are returned, in their order and each once: exactly those that were outstanding |
| `DiscardAllocators.DiscardAllocator.BlocksDisjoint` | base/source/ESBDiscardAllocator.cpp:93-96 | blocks that have been handed out do not overlap |
| `DiscardAllocators.DiscardAllocator.BlockAligned` | base/source/ESBDiscardAllocator.cpp:140-145 | they are inside the memory of their chunk, and aligned if the alignment is a power of two and the bases that were granted are aligned |
| `Alignments.AlignsExactly` | base/include/ESBTypes.h:162 | every value is rounded up to a multiple of the alignment if and only if that is a power of two |
| `Alignments.AlignPower` | base/include/ESBTypes.h:162 | and then to the next multiple |
| `Alignments.Misaligned` | base/include/ESBTypes.h:162 | 25 is rounded up to 32 for an alignment of 24 |
| `Alignments.MaskRoundsDown` | base/include/ESBTypes.h:162 | the mask of a power of two cuts off the remainder |
| `Alignments.AndNotBits` | base/include/ESBTypes.h:162 | exactly the bits of the mask are cleared |
| `UniqueIds.Reread` | base/source/ESBUniqueId.cpp:34-123 | formatting an identifier and parsing the text gives back every 128-bit identifier |
| `UniqueIds.FormatRoundTrip` | base/source/ESBUniqueId.cpp:34-121 | the same about the values that the two compute |
| `UniqueIds.Layout` | base/source/ESBUniqueId.cpp:104-120 | 8, 4, 4, 4 and 12 digits with hyphens between them, 36 characters, as in section 3 of RFC 4122 |
| `UniqueIds.AcceptedMeans` | base/source/ESBUniqueId.cpp:34-74 | text is accepted exactly if it begins with the digits of 16 bytes, in either case and with hyphens nowhere but before a byte, and these are the bytes |
| `UniqueIds.Format` | base/source/ESBUniqueId.cpp:99-123 | the layout and a terminator, or an error for a buffer that is too small; which digit of the number is where, the lowest byte first, in lower case |
| `UniqueIds.Parse` | base/source/ESBUniqueId.cpp:34-74 | an error exactly for the text that is not accepted, and otherwise the number of the bytes, the first of them the lowest |
| `UniqueIds.HexRoundTrip` | base/source/ESBUniqueId.cpp:18-97 | digits and their values correspond |
| `UniqueIds.WritesDigit` | base/source/ESBUniqueId.cpp:87-97 | a digit is written as the character at its place in 0123456789abcdef |
| `UniqueIds.ReadsDigit` | base/source/ESBUniqueId.cpp:18-32 | a character is read as a digit exactly if it is at that place there or in 0123456789ABCDEF, and nothing else is a digit |
| `UniqueIds.TextIsWritten` | base/source/ESBUniqueId.cpp:99-121 | two digits for each byte, the lowest byte first, with hyphens at 8, 13, 18 and 23 |

## Left out

- Maps.Map.MinimumIterator: for an empty map the link that the search reads must be live (`Maps.Map.MinimumSafe` says when it is): what a freed node holds is not modelled.
- Maps.Map.Visit: the same for a walk over an empty map.
- Maps.Map.Insert: locking, the iterator that one variant returns, `update`, `findMaximum` and `findPredecessor` are not modelled; the comparator is taken to be a total order.
- BuddyAllocators.BuddyAllocator.constructor: pools of 16 bytes and less are excluded, since a block could not hold its own header; the size search does not end for sizes 0 and 1 (`BuddyAllocators.SearchEnds`).
- BuddyAllocators.BuddyAllocator.Allocate: a request that comes to the search for its class must not exceed 2^63 with its header. For most larger ones the search does not end; for the 22 largest it ends with blocks that are too small, whose headers would overlap (`BuddyAllocators.ClassHasRoom`).
- BuddyAllocators.BuddyAllocator.Deallocate: a pointer into the pool must be that of an outstanding block, as the code asserts.
- BuddyAllocators.BuddyAllocator.Reallocate: the same sizes are excluded when it comes to an allocation. Payload bytes that were never written have no value in the model, and a copy of such a byte has none either.
- BuddyAllocators.BuddyAllocator.Relocate: the same.
- TimingWheels.FlatTimingWheel.NextExpired: the buckets must exist, since the code reads them without a test, and the loop must end (`TimerQueues.ScanEnds`). Cleanup handlers are left out.
- WheelTicks.NotEarlyExactly: a timer whose tick never comes before the milliseconds of the seconds wrap around is not covered in the direction from wrapping to being early, and of ticks of more than ten days `WheelTicks.NotEarlyLong` gives the condition in seconds.
- EmbeddedLists.EmbeddedList.Remove: the element must be in the list if there are any, as the code asserts; `clear` of a list is only modelled through the timing wheel.
- ReadWriteLocks.ReadWriteLock.WriteRelease: callers release only what they hold, unless nobody holds it, which is the error case. Failures of pthread calls, initialisation and the pthread_rwlock branches are left out, and the counters are unbounded.
- SharedQueues.SharedQueue.Push: the inner list is a sequence; failures of pthread calls are left out.
- SharedEmbeddedQueues.SharedEmbeddedQueue.Stop: the handlers that destroy the elements are left out.
- AstBuilder.BuildRoundTrip: decimals are real numbers. Two boolean keys in one map are outside the comparator's domain (base/source/ASTMap.cpp:266-268); such a step has no outcome in the model, and so has the end of a container that was never begun.
- AstTrees.Tree.InsertPair: memory for a map's own node is taken to be there, as in the other callbacks; the map inside a map element is an ordered sequence here, not the red-black map that keeps it.
- CompactStringMaps.CompactStringMap.Insert: null arguments are left out; the initial capacity is at least 1, since the code writes a terminator, and the end of a new record must have an offset in 32 bits (`CompactStringMaps.RequestSuffices`).
- DiscardAllocators.DiscardAllocator.Allocate: what the source allocator grants must not overlap what is outstanding.
- Identifier generation, the HTTP parser, sockets, epoll, TLS, DNS, logging, files and threads: calls into code outside the model.
- Wildcard matching and the wildcard index, the buddy allocator with a failover, embedded maps, buffer pools and smart pointers: not modelled.
- `StringHash`, configuration entities, counters and time series: easy members or floating point.
