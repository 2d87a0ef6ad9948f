# co_async, verified

A Dafny model of the data structures and synchronisation protocols under the co_async coroutine I/O library,
with proofs of what they promise. `dafny verify dfyconfig.toml` checks all of it.

- **Timer tree and timer loop** (`RbShape`, `RbTree`, `TreeDepartures`, `Timers`). The intrusive red-black tree is pointer code over
  heap nodes, proved against a ghost tree whose labels are the nodes themselves; a path and a subtree name the place
  a rotation or a repair works at. `runDuration` is proved against a run on the sorted sequence of pending timers.
- **Futex-based synchronisation** (`FutexWaits`, `RingQueue`, `Queue`, `Mutex`, `Semaphore`). Each primitive is a state machine
  over its atomic operations, with an inductive invariant and a theorem about every run; beside it the object
  whose methods are the stretches of code between two suspensions, each proved to be a step of the machine.
- **Structured concurrency** (`WhenAll`, `WhenAny`, `Cancel`). Children may finish while their parent is still starting
  others, and inside the winner's cancel; callbacks may cancel any source, including one being cancelled. A
  cancellation is proved to mark exactly the sources that a route of uncancelled ones leads to.
- **Buffered streams** (`StreamSpec`, `BorrowedStream`, `StreamRoundTrip`, `StreamRetry`). `Input()` is everything not yet consumed and
  `Output()` everything put; every operation is specified on those, whatever chunks the device chooses, and its
  failures are tied to those that the device records.
- **Small structures** (`IntrusiveList`, `StampWords` and `StampQueue` over `Moduli`, `SplitString`).

Inputs the code does not control are parameters or free choices: the clock readings and the timers that resumed
coroutines insert and cancel, the device's chunk sizes and failures, which blocked task a notify wakes, the order of
completions, and which compare-exchange fails spuriously. Steps are sequentially consistent.

Where the code departs from what its names or comments suggest, the model follows the code:

- Erasing a node with two children dereferences null or leaves links that represent no tree of the others (`doErase`,
  up to a repair that would run on them; `EraseBreaks` is an example that runs to its end). Erasing a black node
  other than the root loses equal black heights (`doErase`, `EraseUnbalances`).
- A source that is registered with an already cancelled one is not reached through it by a later cancel
  (`LateRegistration`; `MarksExactly` and `BeneathExactly` say what is).
- String-delimited `getline` can run past the delimiter's first occurrence (`FirstOccurrenceExactly` says for
  which delimiters).
- The semaphore's and the concurrent push's loops go round again after a success. The counter and the occupancy
  keep their bounds all the same; `AcquireEmptyHanded`, `AcquireTwice`, `SpuriousStrands` and
  `ConcurrentRingQueue.push` state what goes wrong, `AloneTakesOne` and `AloneAddsOne` when nothing does.
- `RingQueue::size` (`SizeExact`) and `ListHead::doEmpty` are wrong as written. An empty split delimiter never ends
  (`EndsExactly`). A wait whose snapshot is compared after 2^32 notifies can be stranded (`WrapStrands`).
- A flush after a failed one sends again what the first had already sent (`FlushAgain`, `SendsTwice`).

## Model

| member | source | states |
|---|---|---|
| `RbShape.HeightBound` | co_async/utils/rbtree.hpp:102-172 | a tree with a black root, no red-red edge and equal black heights has height at most 2b and at least 2^b - 1 nodes, b its black height: height <= 2 log2(n + 1) |
| `RbShape.PlaceSplits` | co_async/utils/rbtree.hpp:153-170 | on a sorted sequence the insertion point is the one place with only elements the new one does not precede before it and only elements it precedes behind it |
| `RbShape.PlaceSorted` | co_async/utils/rbtree.hpp:153-170 | a sorted sequence stays sorted |
| `RbShape.LinksInside` | co_async/utils/rbtree.hpp:25-35 | child and parent links of a represented tree are mutual and stay inside it |
| `RbShape.BalancedPlug` | co_async/utils/rbtree.hpp:219-221 | in a tree with equal black heights, replacing one subtree by another keeps them equal iff both have the same black height or it was the whole tree |
| `RbTrees.RbTree.constructor` | co_async/utils/rbtree.hpp:265-265 | an empty tree is valid |
| `RbTrees.RbTree.rotateLeft` | co_async/utils/rbtree.hpp:66-82 | the links represent the rotated tree: parent links, the root and the inner subtree included |
| `RbTrees.RbTree.rotateRight` | co_async/utils/rbtree.hpp:84-100 | the mirror image |
| `RbTrees.RbTree.recolour` | co_async/utils/rbtree.hpp:112-115 | red uncle: the grandparent takes the red over and nothing else changes |
| `RbTrees.RbTree.turnRight` | co_async/utils/rbtree.hpp:122-123 | rotation of the grandparent and exchange of the two colours, on links |
| `RbTrees.RbTree.turnLeft` | co_async/utils/rbtree.hpp:139-140 | the mirror image |
| `RbTrees.RbTree.innerLeft` | co_async/utils/rbtree.hpp:117-121 | the inner rotation of a zig-zag, on links |
| `RbTrees.RbTree.innerRight` | co_async/utils/rbtree.hpp:134-138 | the mirror image |
| `RbTrees.RbTree.roundLeft` | co_async/utils/rbtree.hpp:109-125 | one round of the repair under a left-child parent ends two levels up with at most one red-red edge, in-order sequence and black heights unchanged |
| `RbTrees.RbTree.roundRight` | co_async/utils/rbtree.hpp:126-143 | one round under a right-child parent |
| `RbTrees.RecolourSteps` | co_async/utils/rbtree.hpp:111-115 | recolouring moves the only red-red edge two levels up and keeps order and black heights |
| `RbTrees.OuterRightSteps` | co_async/utils/rbtree.hpp:122-124 | so does the single rotation to the right |
| `RbTrees.OuterLeftSteps` | co_async/utils/rbtree.hpp:139-141 | so does the single rotation to the left |
| `RbTrees.InnerRightSteps` | co_async/utils/rbtree.hpp:117-124 | so does the double rotation under a left-child parent |
| `RbTrees.InnerLeftSteps` | co_async/utils/rbtree.hpp:134-141 | so does the double rotation under a right-child parent |
| `RbTrees.RepairEnds` | co_async/utils/rbtree.hpp:105-106 | when the loop condition fails no red-red edge is left once the root is black |
| `RbTrees.RbTree.fixViolation` | co_async/utils/rbtree.hpp:102-146 | from at most one red-red edge to none and a black root; same in-order sequence, same nodes, equal black heights iff equal before; it terminates |
| `RbTrees.RbTree.descend` | co_async/utils/rbtree.hpp:153-162 | the search ends in the hole with every element not after the new one before it and every element after it behind it |
| `RbTrees.RbTree.hook` | co_async/utils/rbtree.hpp:163-170 | the new node is a red leaf in that hole |
| `RbTrees.RbTree.InsertShape` | co_async/utils/rbtree.hpp:152-170 | hanging it there puts it behind every element it does not precede, leaves black heights alone and makes at most one red-red edge |
| `RbTrees.RbTree.doInsert` | co_async/utils/rbtree.hpp:148-172 | links mutual, root black, no red-red edge, equal black heights kept; the in-order sequence gains exactly the node, behind every element it does not precede; height <= 2 log2(n + 1) |
| `RbTrees.RbTree.unlinkOne` | co_async/utils/rbtree.hpp:204-218 | at most one child: the child takes the node's place and the repair starts at the child or the parent |
| `RbTrees.RbTree.findReplace` | co_async/utils/rbtree.hpp:180-184 | the replacement is the leftmost node of the right subtree, which is the next in order |
| `RbTrees.RbTree.unlinkTwo` | co_async/utils/rbtree.hpp:179-218 | two children, up to the repair: a null dereference iff the node is the root and its right child has a left child; otherwise the links are broken in one of three ways, the colour handed on is the successor's, and the node that the repair would start at, its parent and the root are the ones named |
| `RbTrees.RbTree.BrokenRepresentsNone` | co_async/utils/rbtree.hpp:185-218 | links broken in any of these ways represent no tree of the other nodes, whatever the colours |
| `RbTrees.RbTree.eraseTwo` | co_async/utils/rbtree.hpp:179-221 | two children, to the end of the erase: whenever no null is dereferenced the links represent no tree of the other nodes, and they are final unless the successor is black and the repair starts at a red node under a red parent, an exact condition on the tree before |
| `RbTrees.RbTree.unlink` | co_async/utils/rbtree.hpp:176-218 | on every node, up to the repair: the links represent a tree of exactly the other nodes iff the node has at most one child |
| `RbTrees.RbTree.EraseOrder` | co_async/utils/rbtree.hpp:204-218 | the in-order sequence loses exactly the erased node |
| `RbTrees.RbTree.EraseColours` | co_async/utils/rbtree.hpp:219-221 | a red node leaves valid colours, a black one a place to repair; equal black heights survive iff the node was red or the root |
| `RbTrees.RbTree.doErase` | co_async/utils/rbtree.hpp:174-222 | for a node with at most one child: links, order, black root and no red-red edge are kept and exactly the node is gone; equal black heights survive iff it was red or the root. For one with two: null is dereferenced under an exact condition, and otherwise the links represent no tree of the other nodes; the erase is then over, always so if the next node in order is red, or a repair begins on those links, under an exact condition |
| `RbTrees.RbTree.getFront` | co_async/utils/rbtree.hpp:224-230 | the first node of the in-order sequence, which never has two children |
| `RbTrees.RbTree.empty` | co_async/utils/rbtree.hpp:283-285 | true iff there is no node |
| `RbTrees.RbTree.doTraverseInorder` | co_async/utils/rbtree.hpp:240-248 | visits exactly the in-order sequence |
| `RbTrees.RbTree.link` | co_async/utils/rbtree.hpp:153-171 | search, hang in, repair: all that insertion promises, on a node whose own fields are set |
| `RbTrees.RbTree.excise` | co_async/utils/rbtree.hpp:176-221 | all that erasure promises but clearing the owner |
| `RbTrees.RbTree.takeOut` | co_async/utils/rbtree.hpp:176-218 | at most one child: what is left, in which order, with which colours, and a place from which the repair can start |
| `RbTrees.RbTree.blackenRoot` | co_async/utils/rbtree.hpp:145-145 | a black root without touching order or balance |
| `RbTrees.RbTree.liftLeft` | co_async/utils/rbtree.hpp:116-125 | the black-uncle branch, one or two rotations, ends two levels up |
| `RbTrees.RbTree.liftRight` | co_async/utils/rbtree.hpp:133-142 | the mirror image |
| `Timers.PlaceStable` | co_async/generic/generic_io.hpp:33-35 | inserting keeps the order by expiry, ties by insertion |
| `Timers.ResumesEarliest` | co_async/generic/generic_io.cpp:11-28 | every timer resumed is due at that look at the clock and is the least pending expiry, ties in insertion order, whatever the resumed coroutines have enqueued and cancelled |
| `Timers.NothingLost` | co_async/generic/generic_io.cpp:11-28 | timers resumed, cancelled and still pending are exactly those there at first and those inserted meanwhile |
| `Timers.OutcomeMeans` | co_async/generic/generic_io.cpp:22-27 | nullopt iff nothing is pending; otherwise the positive gap from that look to the least expiry |
| `Timers.GenericIOContext.enqueueTimerNode` | co_async/generic/generic_io.hpp:61-63 | the timer goes behind everything it does not precede |
| `Timers.GenericIOContext.doCancel` | co_async/generic/generic_io.hpp:28-31 | the timer is flagged and no other flag changes; exactly that timer leaves the tree if it is pending with at most one child, and nothing else happens if it is not pending |
| `Timers.FlagsExactly` | co_async/generic/generic_io.cpp:11-28 | after a run a timer is flagged iff it was flagged before or a coroutine has cancelled it, and it has not been resumed since |
| `Timers.CancelledNotResumed` | co_async/generic/generic_io.cpp:11-28 | a timer that a resumed coroutine cancels and nobody enqueues again is not resumed any more and not pending at the end |
| `Timers.NeverResumed` | co_async/generic/generic_io.cpp:11-28 | a timer that is neither pending nor enqueued is not resumed |
| `Timers.GenericIOContext.resume` | co_async/generic/timeout.hpp:18-27 | what a resumed coroutine enqueues and cancels takes effect in order, up to the cancellation of a pending timer with two children; the flags set are those of before and of the timers cancelled |
| `Timers.GenericIOContext.fire` | co_async/generic/generic_io.cpp:17-20 | the front timer leaves, and its coroutine runs and finds the flag clear; afterwards the flag is set again only if the coroutine cancelled the timer, and all other flags change only by being set so |
| `Timers.GenericIOContext.runDuration` | co_async/generic/generic_io.cpp:9-29 | the loop over the tree computes the run on the sorted sequence, resumption by resumption, for every script of insertions and cancellations; if one cancels a pending timer with two children, up to that |
| `Timers.RunsUntil` | co_async/generic/generic_io.cpp:11-28 | a run whose script is cut short is the same up to there |
| `Timers.ApplyAllStable` | co_async/generic/generic_io.hpp:28-35 | insertions and cancellations keep the order by expiry, ties by insertion |
| `RingQueues.RingQueue.constructor` | co_async/utils/ring_queue.hpp:14-18 | empty, with room for maxSize values |
| `RingQueues.RingQueue.empty` | co_async/utils/ring_queue.hpp:36-38 | iff nothing is stored |
| `RingQueues.RingQueue.full` | co_async/utils/ring_queue.hpp:40-43 | iff maxSize values are stored |
| `RingQueues.RingQueue.push` | co_async/utils/ring_queue.hpp:60-68 | appends the value, or refuses iff full and changes nothing |
| `RingQueues.RingQueue.pop` | co_async/utils/ring_queue.hpp:45-52 | removes and returns the oldest value, or nothing iff empty |
| `RingQueues.RingQueue.SizeExact` | co_async/utils/ring_queue.hpp:31-34 | size() is the number of stored values iff the cursors have not wrapped and the buffer is not full |
| `FutexWaits.futex_notify` | co_async/platform/futex.hpp:109-114 | wakes one blocked task with a matching mask, and none only if there is none |
| `Queues.ConditionVariable.wait` | co_async/generic/condition_variable.hpp:34-37 | the wait carries the snapshot taken at its start |
| `Queues.ConditionVariable.submit` | co_async/platform/futex.hpp:77-91 | the kernel blocks the task iff the word still equals the snapshot |
| `Queues.ConditionVariable.recheck` | co_async/generic/condition_variable.hpp:38-39 | the wait ends iff the word has moved, and is repeated with the old snapshot otherwise |
| `Queues.ConditionVariable.notify_one` | co_async/generic/condition_variable.hpp:42-45 | the 32-bit word advances and one matching blocked task wakes |
| `Queues.ConditionVariable.notify_all` | co_async/generic/condition_variable.hpp:47-50 | the word advances and exactly the matching blocked tasks wake |
| `Queues.Queue.constructor` | co_async/generic/queue.hpp:23-23 | the initial state |
| `Queues.Queue.push` | co_async/generic/queue.hpp:43-49 | one pass of the loop: iff there is room the value goes to the end of the stored values and one waiting consumer is woken, and otherwise nothing is stored and the caller waits with the current snapshot; it keeps order, bound and the no-lost-wake-up invariant |
| `Queues.Queue.pop` | co_async/generic/queue.hpp:51-59 | one pass of the loop: iff there is a value the oldest is returned and removed and one waiting producer is woken, and otherwise the caller waits; it keeps the same invariant |
| `Queues.Queue.submit` | co_async/platform/futex.hpp:77-91 | the kernel's side of that wait is a Submit step, and keeps the invariant unless such a multiple has come |
| `Queues.Queue.resume` | co_async/generic/condition_variable.hpp:36-38 | a woken task attempts again, or is back in the wait by a Recheck step, and that exactly when a positive multiple of 2^32 notifies have come since its snapshot |
| `QueueProtocol.AttemptKeepsInv` | co_async/generic/queue.hpp:43-59 | an attempt keeps the invariant: it uses one unit of its own room, makes one for the other side and wakes one task there, or finds no room and waits |
| `QueueProtocol.SubmitKeepsInv` | co_async/platform/futex.hpp:77-91 | blocking only on a current snapshot keeps it, unless the snapshot looks current because a positive multiple of 2^32 notifies have come |
| `QueueProtocol.StepKeepsInv` | co_async/generic/queue.hpp:43-59 | every step keeps it that compares no snapshot at such a moment |
| `QueueProtocol.QueueRuns` | co_async/generic/queue.hpp:43-59 | in every run that compares no snapshot a positive multiple of 2^32 notifies after it was taken: the values pushed are those of the Push actions that found room, they leave in that order, one for each Pop that found the queue non-empty, a blocked task never has more room than tasks already woken for it, and a run at rest has no blocked task that could proceed |
| `QueueProtocol.WrapStrands` | co_async/generic/condition_variable.hpp:34-45 | that assumption is needed: with 2^32 notifies between snapshot and submission a run comes to rest with a producer blocked on an empty queue |
| `QueueProtocol.SuccessKeepsInv` | co_async/generic/queue.hpp:43-56 | a successful attempt keeps the invariant |
| `Mutexes.BasicMutex.try_lock` | co_async/generic/mutex.hpp:15-18 | takes the mutex iff nobody holds it, and then is its only holder |
| `Mutexes.BasicMutex.lock` | co_async/generic/mutex.hpp:20-28 | one pass of the loop: takes the mutex iff nobody holds it and then is its only holder, else goes on to wait |
| `Mutexes.BasicMutex.submit` | co_async/platform/futex.hpp:77-91 | blocks iff the word is still set |
| `Mutexes.BasicMutex.store` | co_async/generic/mutex.hpp:31-31 | frees the word before anyone is notified: nobody holds the mutex |
| `Mutexes.BasicMutex.notify` | co_async/generic/mutex.hpp:32-32 | the unlock of the caller is over, and exactly one of the blocked tasks is woken, or none iff there is none; nobody else moves |
| `Mutexes.BasicMutex.unlock` | co_async/generic/mutex.hpp:30-33 | the word is free, the caller is out, and exactly one of the tasks blocked before is woken if there was one |
| `Mutexes.Locked.unlock` | co_async/generic/mutex.hpp:64-69 | unlocks once; a second call does nothing, and leaves the word free |
| `Mutexes.Locked.moveFrom` | co_async/generic/mutex.hpp:74-77 | move assignment exchanges the handles, so that no unlock is lost or doubled |
| `Mutexes.CallOnce.constructor` | co_async/generic/mutex.hpp:137-140 | the initial state |
| `Mutexes.CallOnce.call_once` | co_async/generic/mutex.hpp:168-170 | the first look at mCalled: an empty handle iff it is set |
| `Mutexes.CallOnce.lock` | co_async/generic/mutex.hpp:171-172 | locking on behalf of call_once is a step of the mutex machine inside it |
| `Mutexes.CallOnce.grant` | co_async/generic/mutex.hpp:173-177 | with the mutex held, the section is granted iff mCalled is still false, and then to nobody else |
| `Mutexes.CallOnce.set_ready` | co_async/generic/mutex.hpp:158-160 | sets mCalled, and moves nobody else |
| `Mutexes.CallOnce.release` | co_async/generic/mutex.hpp:162-165 | the handle gives the mutex back: the word is free and nobody holds it |
| `Mutexes.CallOnce.submit` | co_async/platform/futex.hpp:77-91 | its wait blocks iff the word is still set |
| `Mutexes.CallOnce.notify` | co_async/generic/mutex.hpp:30-33 | the second half of giving the mutex back |
| `MutexProtocol.OneMoves` | co_async/generic/mutex.hpp:15-31 | exchange, try_lock, block and store keep the invariant |
| `MutexProtocol.StepKeepsInv` | co_async/generic/mutex.hpp:14-33 | every step keeps it |
| `MutexProtocol.MutexRuns` | co_async/generic/mutex.hpp:14-33 | in every interleaving at most one task holds the mutex, and while it is free and somebody is blocked, an unlocker has yet to notify or a woken task yet to retry |
| `MutexProtocol.NotifyWakes` | co_async/generic/mutex.hpp:32-32 | a notify step ends the unlock of its task and wakes one blocked task if there is one, and moves nobody else |
| `CallOnceProtocol.StepKeepsInv` | co_async/generic/mutex.hpp:167-180 | every step keeps the invariant of call_once |
| `CallOnceProtocol.CallOnceRuns` | co_async/generic/mutex.hpp:137-181 | no two tasks are inside the section; once a task has called set_ready the flag is set and no later look grants the section, however long the run goes on; at most one grant in all if no task leaves its section before set_ready has been called |
| `SemaphoreCas.CounterBounded` | co_async/generic/semaphore.hpp:32-58 | in every interleaving of loads and compare-exchanges, spurious failures included, the counter stays in 0..mMaxCount and moves by exactly the successes; a call that waits has had none |
| `SemaphoreCas.AloneTakesOne` | co_async/generic/semaphore.hpp:32-58 | a call undisturbed by another call's success from its last load on moves the counter by exactly one iff its first exchange does not fail spuriously, and by nothing otherwise |
| `SemaphoreCas.AcquireEmptyHanded` | co_async/generic/semaphore.hpp:39-41 | a run from the start in which a spurious failure lets acquire return without a unit |
| `SemaphoreCas.AcquireTwice` | co_async/generic/semaphore.hpp:39-41 | a release between two exchanges of one acquire lets it take two units |
| `SemaphoreProtocol.AttemptKeepsInv` | co_async/generic/semaphore.hpp:32-58 | an attempt keeps the invariant, spurious failure or not |
| `SemaphoreProtocol.StepKeepsInv` | co_async/generic/semaphore.hpp:32-58 | every step keeps it |
| `SemaphoreProtocol.SemaphoreRuns` | co_async/generic/semaphore.hpp:32-58 | in every cooperative run counter == initial + (releases - lost ones) - (acquires - lost ones), lost to spurious failures, so initial + releases - acquires iff as many were lost on either side; a run at rest leaves a task blocked beside at most as many units as its side has lost, so none without spurious failures; acquires and releases are counted by the actions that found a unit or room for one |
| `SemaphoreProtocol.SpuriousStrands` | co_async/generic/semaphore.hpp:39-42 | one spurious failure can leave an acquire blocked beside a free unit for ever |
| `Semaphores.Semaphore.constructor` | co_async/generic/semaphore.hpp:20-22 | the initial state |
| `Semaphores.Semaphore.acquire` | co_async/generic/semaphore.hpp:32-44 | the loop as written, running alone, takes exactly one unit unless its first exchange fails spuriously, and waits iff the counter is 0; one waiting release is woken when it returns |
| `Semaphores.Semaphore.release` | co_async/generic/semaphore.hpp:46-58 | the same for giving one back |
| `Semaphores.Semaphore.submit` | co_async/platform/futex.hpp:77-91 | blocks iff the counter still equals the expected value |
| `Stamps.SizeFits` | co_async/utils/concurrent_queue.hpp:12-22 | bit_width(Capacity) makes the cursors large enough, and less than twice too large |
| `Stamps.StampFits` | co_async/utils/concurrent_queue.hpp:12-20 | the packed cursors fit the chosen stamp type iff Shift <= 32, which is what the static assertion demands |
| `Stamps.StampPacks` | co_async/utils/concurrent_queue.hpp:59-89 | the stamp is two independent cursors: both are read back, each advance moves one by 1 modulo 2^Shift |
| `Stamps.TestsExact` | co_async/utils/concurrent_queue.hpp:67-75 | canRead iff occupancy > 0, canWrite iff occupancy is not Capacity |
| `Stamps.AdvanceRead` | co_async/utils/concurrent_queue.hpp:77-83 | a read takes one from the occupancy |
| `Stamps.AdvanceWrite` | co_async/utils/concurrent_queue.hpp:85-89 | a write adds one to it |
| `StampWords.TestsAgree` | co_async/utils/concurrent_queue.hpp:59-75 | the offsets and tests as written, with shifts and masks, are those of the cursors on every stamp |
| `StampWords.AdvectReadAgrees` | co_async/utils/concurrent_queue.hpp:77-83 | the advance of the read cursor as written is the arithmetic one wherever both cursors fit the stamp |
| `StampWords.AdvectWriteAgrees` | co_async/utils/concurrent_queue.hpp:85-89 | so is that of the write cursor |
| `StampRuns.StepKeepsInv` | co_async/utils/concurrent_queue.hpp:24-53 | every load, exchange and failure of the two loops keeps the invariant |
| `StampRuns.StampRuns` | co_async/utils/concurrent_queue.hpp:24-53 | in every interleaving the occupancy is in 0..Capacity and equals successful writes less successful reads; the writes are those of the pushes that returned true and of those still in their loops |
| `StampRuns.AloneAddsOne` | co_async/utils/concurrent_queue.hpp:39-53 | a push that passes its test and is undisturbed by another call's success returns true, having added one to the occupancy iff its first exchange did not fail spuriously, and nothing otherwise |
| `StampRuns.CallsEnd` | co_async/utils/concurrent_queue.hpp:24-53 | a push is turned away iff the queue is full and a pop iff it is empty; a pop goes on until it has taken something or finds nothing, a push once in its loop returns true |
| `StampQueues.ConcurrentRingQueue.constructor` | co_async/utils/concurrent_queue.hpp:91-92 | empty; what the pops will deliver begins with what the first slot holds |
| `StampQueues.ConcurrentRingQueue.push` | co_async/utils/concurrent_queue.hpp:39-53 | one caller at a time: it refuses iff Capacity values are in; otherwise the value goes to the end of the line and the occupancy grows by one, unless the first exchange fails spuriously, when it takes the place of the last in line and the occupancy stays |
| `StampQueues.ConcurrentRingQueue.pop` | co_async/utils/concurrent_queue.hpp:24-37 | one caller at a time, any number of spurious failures: the pops deliver the line in order, so the first gives what the first slot held initially and every pushed value comes one pop late |
| `StreamSpec.ScanConserves` | co_async/iostream/stream_base.hpp:120-137 | on success exactly the text and the delimiter are consumed |
| `StreamSpec.SkipsNothing` | co_async/iostream/stream_base.hpp:120-137 | after a partial match no occurrence can begin inside what the scanner skips, if the delimiter is restartable |
| `StreamSpec.ScanFindsFirst` | co_async/iostream/stream_base.hpp:120-137 | then the line ends at the delimiter's first occurrence in the stream |
| `StreamSpec.ScanMisses` | co_async/iostream/stream_base.hpp:120-137 | a delimiter that is not restartable is missed in some stream |
| `StreamSpec.FirstOccurrenceExactly` | co_async/iostream/stream_base.hpp:120-137 | getline finds the first occurrence in every stream iff wherever the first byte recurs in the delimiter, the delimiter overlaps itself |
| `Streams.BorrowedStream.constructor` | co_async/iostream/stream_base.hpp:66-69 | nothing buffered |
| `Streams.BorrowedStream.allocinbuf` | co_async/iostream/stream_base.hpp:351-357 | allocates once and keeps the unread bytes |
| `Streams.BorrowedStream.fillbuf` | co_async/iostream/stream_base.hpp:359-370 | the stream goes on with what the device had left; nothing changes on failure; Eof only at its end or without room; it fails with the error that the device has answered |
| `Streams.BorrowedStream.getchar` | co_async/iostream/stream_base.hpp:75-83 | removes exactly the first byte; Eof only at the end; with no device failure it succeeds iff there is a byte, and any other error is the one the device has answered |
| `Streams.BorrowedStream.peekchar` | co_async/iostream/stream_base.hpp:319-325 | shows the first byte and removes nothing; with no device failure it succeeds iff there is a byte, and any other error is the one the device has answered |
| `Streams.BorrowedStream.getline` | co_async/iostream/stream_base.hpp:86-101 | for a char: exactly the bytes before the first eol, which is consumed too; everything, at the end; with no device failure it succeeds iff the stream holds an eol, and any other error is the one the device has answered |
| `Streams.BorrowedStream.dropline` | co_async/iostream/stream_base.hpp:104-117 | consumes the same bytes; with no device failure it succeeds iff the stream holds an eol, and any other error is the one the device has answered |
| `Streams.BorrowedStream.matchRest` | co_async/iostream/stream_base.hpp:123-135 | how much of the delimiter follows, consumed exactly |
| `Streams.BorrowedStream.again` | co_async/iostream/stream_base.hpp:121-136 | one round of the string scanner |
| `Streams.BorrowedStream.getlineUntil` | co_async/iostream/stream_base.hpp:120-137 | for a string: the text and the rest are those of the scanner on the whole stream, whatever the chunks; Eof iff it finds none; with no device failure it succeeds iff the scanner finds a line, and any other error is the one the device has answered |
| `Streams.BorrowedStream.dropUntil` | co_async/iostream/stream_base.hpp:140-156 | consumes exactly what getline consumes, on failure too; with no device failure it succeeds iff it does, and any other error is the one the device has answered |
| `Streams.BorrowedStream.getn` | co_async/iostream/stream_base.hpp:214-230 | exactly the first n bytes, or on failure the shorter prefix appended so far; with no device failure it succeeds iff there are n bytes, and any other error is the one the device has answered |
| `Streams.BorrowedStream.dropn` | co_async/iostream/stream_base.hpp:197-211 | drops exactly n bytes, or fewer only on failure; with no device failure it succeeds iff there are n bytes, and any other error is the one the device has answered |
| `Streams.BorrowedStream.getall` | co_async/iostream/stream_base.hpp:251-261 | everything up to the end of the data; it fails only with an error that the device has answered, and then what it has appended is a prefix |
| `Streams.BorrowedStream.dropall` | co_async/iostream/stream_base.hpp:241-248 | drops everything, or on a device failure a prefix, whose error it returns |
| `Streams.BorrowedStream.getchunk` | co_async/iostream/stream_base.hpp:297-306 | all of the unread bytes if there are any, else a first non-empty part of what the device has; without a device failure it fails only at the end |
| `Streams.BorrowedStream.tryread` | co_async/iostream/stream_base.hpp:310-316 | a prefix as long as buffer and unread bytes allow, without touching the device |
| `Streams.BorrowedStream.read` | co_async/iostream/stream_base.hpp:526-534 | removes exactly the prefix it returns; it fails only with an error of the device |
| `Streams.BorrowedStream.allocoutbuf` | co_async/iostream/stream_base.hpp:466-471 | allocates once and keeps the pending bytes |
| `Streams.BorrowedStream.store` | co_async/iostream/stream_base.hpp:391-396 | the copy loop appends to the pending bytes |
| `Streams.BorrowedStream.flush` | co_async/iostream/stream_base.hpp:474-500 | success: everything put is sent, in order, and nothing is pending; failure: only a prefix of it is sent, and the output is what it was iff the device took nothing or everything; it computes what the device replies settle; it terminates; it fails exactly when the device fails, with its error, and on success the device has been flushed behind the bytes |
| `Streams.BorrowedStream.drain` | co_async/iostream/stream_base.hpp:480-485 | the write loop sends exactly what the replies of the device settle, and ends well iff that is everything |
| `Streams.BorrowedStream.putchar` | co_async/iostream/stream_base.hpp:377-384 | sent and pending bytes gain exactly the character; it fails exactly when the device does, and touches the device only if there is no room |
| `Streams.BorrowedStream.putspan` | co_async/iostream/stream_base.hpp:387-409 | they gain exactly the span, whatever the short writes; what is sent on failure is a prefix of that; the loop terminates; it fails exactly when the device does, and touches the device only if there is no room |
| `Streams.BorrowedStream.putRound` | co_async/iostream/stream_base.hpp:397-406 | one round fills the buffer from the span and flushes it |
| `Streams.BorrowedStream.trywrite` | co_async/iostream/stream_base.hpp:413-437 | they gain exactly the prefix that fits |
| `Streams.BorrowedStream.puts` | co_async/iostream/stream_base.hpp:440-442 | sent and pending bytes gain exactly the text; what is sent on failure is a prefix of that |
| `Streams.BorrowedStream.putchunk` | co_async/iostream/stream_base.hpp:453-456 | on success everything put before and then the text has been sent, and nothing is pending; on failure what was sent is a prefix of that; it fails exactly when the device does |
| `Streams.BorrowedStream.putline` | co_async/iostream/stream_base.hpp:460-464 | on success everything put before, the text and a newline have been sent; on failure a prefix of that; it fails exactly when the device does, and on success the device has been flushed |
| `Streams.BorrowedStream.seenbuf` | co_async/iostream/stream_base.hpp:291-293 | drops exactly n unread bytes |
| `Streams.BorrowedStream.scan` | co_async/iostream/stream_base.hpp:87-95 | the first eol among the unread bytes, or their end |
| `Streams.BorrowedStream.pass` | co_async/iostream/stream_base.hpp:87-96 | what the buffered bytes settle about the line |
| `Streams.BorrowedStream.matchOne` | co_async/iostream/stream_base.hpp:124-134 | the next byte is the delimiter's next and is consumed, or it stays |
| `Streams.BorrowedStream.refill` | co_async/iostream/stream_base.hpp:97-98 | an emptied buffer is filled from the device and the stream is the same; nothing unread on failure |
| `Streams.BorrowedStream.againDrop` | co_async/iostream/stream_base.hpp:141-154 | one round of the string scanner for dropline |
| `Streams.RawStream.raw_read` | co_async/iostream/stream_base.hpp:48-53 | the device delivers any non-empty part of what it has, as far as there is room, or fails and keeps it; its failures are recorded |
| `Streams.RawStream.raw_write` | co_async/iostream/stream_base.hpp:54-59 | the device takes any prefix, or fails and takes nothing; its failures are recorded |
| `StreamRetry.FlushAgain` | co_async/iostream/stream_base.hpp:474-500 | a flush after a failed one sends again exactly the bytes that one had sent, unless it had sent all |
| `StreamRetry.SendsTwice` | co_async/iostream/stream_base.hpp:480-491 | a device that takes one byte, fails and then takes the rest receives that byte twice |
| `StreamRoundTrip.DecodeEncode` | co_async/iostream/stream_base.hpp:86-101 | decoding the encoding of newline-free lines gives them back |
| `StreamRoundTrip.PutLines` | co_async/iostream/stream_base.hpp:460-464 | putline after putline sends the encoding of the lines, and fails exactly when the device does |
| `StreamRoundTrip.GetLines` | co_async/iostream/stream_base.hpp:86-101 | getline after getline decodes the stream, and fails only at its end or with an error of the device |
| `StreamRoundTrip.WriteThenRead` | co_async/iostream/stream_base.hpp:460-464 | the round trip through two streams: all lines are written iff the sending device does not fail, and then, whatever the buffer boundaries and chunks, all are read and come back if the receiving one does not fail either, and otherwise its error does |
| `IntrusiveLists.ListHead.constructor` | co_async/utils/intrusive_list.hpp:136-138 | an empty ring |
| `IntrusiveLists.ListHead.InsertedRing` | co_async/utils/intrusive_list.hpp:52-57 | splicing a node in behind any element keeps next and prev one cycle, inverse to each other |
| `IntrusiveLists.ListHead.RemovedRing` | co_async/utils/intrusive_list.hpp:66-71 | so does splicing one out |
| `IntrusiveLists.ListHead.doInsertAfter` | co_async/utils/intrusive_list.hpp:52-57 | the list gains the node behind the pivot |
| `IntrusiveLists.ListHead.doInsertBefore` | co_async/utils/intrusive_list.hpp:59-64 | the list gains the node before the pivot |
| `IntrusiveLists.ListHead.doPushFront` | co_async/utils/intrusive_list.hpp:38-43 | the list gains it at the front |
| `IntrusiveLists.ListHead.doPushBack` | co_async/utils/intrusive_list.hpp:45-50 | the list gains it at the back |
| `IntrusiveLists.ListHead.doErase` | co_async/utils/intrusive_list.hpp:66-71 | the list loses exactly the node, whose links are cleared |
| `IntrusiveLists.ListHead.eraseFromParent` | co_async/utils/intrusive_list.hpp:26-35 | the same, and a no-op on a node in no list |
| `IntrusiveLists.ListHead.unhook` | co_async/utils/intrusive_list.hpp:28-33 | its body on a node in a list |
| `IntrusiveLists.HookedInSpliced` | co_async/utils/intrusive_list.hpp:38-64 | the four links of an insertion make a splice |
| `IntrusiveLists.CutOutSpliced` | co_async/utils/intrusive_list.hpp:26-35 | the links of a removal take one out |
| `IntrusiveLists.ListHead.doPopFront` | co_async/utils/intrusive_list.hpp:85-96 | the first node, or null iff empty |
| `IntrusiveLists.ListHead.doPopBack` | co_async/utils/intrusive_list.hpp:98-109 | the last node, or null iff empty |
| `IntrusiveLists.ListHead.doEmpty` | co_async/utils/intrusive_list.hpp:81-83 | as written the answer is no for every list |
| `IntrusiveLists.ListHead.doClear` | co_async/utils/intrusive_list.hpp:111-118 | an empty ring, and every former node's links cleared |
| `IntrusiveLists.ListHead.walk` | co_async/utils/intrusive_list.hpp:120-134 | from begin to end: exactly the list |
| `Cancellation.CancelSource.doRegister` | co_async/generic/cancel.hpp:75-77 | registers in front |
| `Cancellation.DoCancel` | co_async/generic/cancel.hpp:25-41 | exactly the sources are marked that were marked already or have a route of uncancelled ones from this one, registration by registration or through a callback that cancels the next; their cancellers are served and their lists cleared; each callback of a newly marked one runs once more and no other does; a repeated or re-entrant call changes nothing; it terminates |
| `Cancellation.Serve` | co_async/generic/cancel.hpp:32-38 | one round of the loop: the next canceller, a nested source or a callback, is served completely, and what earlier rounds did stays |
| `Cancellation.Invoke` | co_async/generic/cancel.hpp:199-203 | a callback runs once, and the sources it cancels are cancelled, and only what they reach |
| `Cancellation.LiveFalls` | co_async/generic/cancel.hpp:25-29 | the number of uncancelled sources never rises and falls with every new mark |
| `Cancellation.PartlyExtends` | co_async/generic/cancel.hpp:32-38 | a complete cancellation inside the loop, re-entrant or not, keeps the loop's account |
| `Cancellation.CancelsTwice` | co_async/generic/cancel.hpp:25-41 | two cancellations in a row make one |
| `Cancellation.ReachesBeneath` | co_async/generic/cancel.hpp:25-41 | every source with a route of uncancelled ones from the cancelled one is marked and cleared, and each callback registered with it has run exactly once more |
| `Cancellation.ServedNow` | co_async/generic/cancel.hpp:25-41 | after a cancellation, field by field: exactly the newly marked sources have had their lists cleared, and a callback has run once more iff one of them had it registered |
| `Cancellation.ConfinedBeneath` | co_async/generic/cancel.hpp:32-38 | what a canceller causes stays within what its source reaches |
| `Cancellation.MarksExactly` | co_async/generic/cancel.hpp:25-41 | a source is newly marked iff there is such a route |
| `Cancellation.BeneathExactly` | co_async/generic/cancel.hpp:25-41 | all sources registered beneath, at any depth, are marked iff each uncancelled one of them has such a route |
| `Cancellation.NoneLate` | co_async/generic/cancel.hpp:25-41 | they are if no cancelled source has an uncancelled one registered with it |
| `Cancellation.LateRegistration` | co_async/generic/cancel.hpp:75-77 | a source registered with one that is cancelled already is never marked by cancelling the root |
| `WhenAlls.UnfinishedUpdate` | co_async/awaiter/when_all.hpp:61-62 | finishing a child takes one from the number of unfinished children |
| `WhenAlls.StepKeepsInv` | co_async/awaiter/when_all.hpp:24-34 | every step keeps the invariant |
| `WhenAlls.WhenAllRuns` | co_async/awaiter/when_all.hpp:24-86 | for every mix of synchronous and later completions mCount is the number of unfinished children and the parent has been resumed, once, iff the start loop is over and all are done |
| `WhenAlls.ResultComesFromChild` | co_async/awaiter/when_all.hpp:107-144 | result i is the value child i finished with |
| `WhenAlls.WhenAllCtlBlock.finish` | co_async/awaiter/when_all.hpp:48-66 | stores, counts down, and resumes the parent iff that was the last |
| `WhenAlls.WhenAllCtlBlock.resume` | co_async/awaiter/when_all.hpp:30-32 | whatever completes while a child is being resumed, the parent is not; a started child ends with the first value meant for it, and the others are left alone |
| `WhenAlls.WhenAllCtlBlock.await_suspend` | co_async/awaiter/when_all.hpp:24-34 | hands over to the last child, or to the parent iff there is none, with nobody having resumed it before; the siblings that have ended by then have ended with their own values |
| `WhenAnys.StepKeepsInv` | co_async/generic/when_any.hpp:55-64 | every step keeps the invariant |
| `WhenAnys.WhenAnyRuns` | co_async/generic/when_any.hpp:44-68 | for every completion order, children that end inside the winner's cancel() included: the caller has resumed iff all children have been started and have ended, which they have once their tasks have and no cancel() is under way; and then the result is that of the first task to end, stored once, iff no outer cancel came before it |
| `WhenAnys.WhenAny.taskEnds` | co_async/generic/when_any.hpp:58-62 | iff the source is cancelled the child ends there, storing nothing, else it cancels the source and goes into its cancel() |
| `WhenAnys.WhenAny.cancelReturns` | co_async/generic/when_any.hpp:62-63 | the winner stores the value of the first task to end, and its child ends |
| `WhenAnys.WhenAny.outerCancel` | co_async/generic/when_any.hpp:51-51 | the caller's cancellation reaches the shared source |
| `WhenAnys.TaskEndKeepsInv` | co_async/generic/when_any.hpp:58-62 | a task that ends keeps the invariant, before, inside or after the winner's cancel |
| `SplitStrings.FindText` | co_async/utils/string_utils.hpp:213-214 | the first occurrence, or none iff there is none |
| `SplitStrings.JoinSplit` | co_async/utils/string_utils.hpp:212-229 | joining the parts restores the input |
| `SplitStrings.PartsAreFree` | co_async/utils/string_utils.hpp:212-229 | no part contains the delimiter |
| `SplitStrings.SplitJoinExactly` | co_async/utils/string_utils.hpp:212-229 | splitting the join of a list gives it back iff no delimiter begins inside a part that has one behind it and none lies in the last part |
| `SplitStrings.CharRoundTrip` | co_async/utils/string_utils.hpp:223-224 | for a char delimiter: iff no part has the char |
| `SplitStrings.NextAhead` | co_async/utils/string_utils.hpp:187-190 | each increment drops exactly the current part |
| `SplitStrings.EndsExactly` | co_async/utils/string_utils.hpp:169-229 | the iteration ends iff the delimiter is not empty |
| `SplitStrings.SplitIterator.constructor` | co_async/utils/string_utils.hpp:170-176 | stands at the first part |
| `SplitStrings.SplitIterator.find_next` | co_async/utils/string_utils.hpp:212-229 | one step of that cursor |
| `SplitStrings.collect` | co_async/utils/string_utils.hpp:248-254 | exactly the parts |
| `SplitStrings.SplitInFront` | co_async/utils/string_utils.hpp:212-229 | the first part is p exactly when the delimiter put behind p is the first one |
| `TreeDepartures.Grow` | co_async/utils/rbtree.hpp:148-172 | a tree built by n insertions is a red-black tree of n nodes and of height at most 2 log2(n + 1) |
| `TreeDepartures.ThreeInserts` | co_async/utils/rbtree.hpp:148-172 | three insertions make a node with two children |
| `TreeDepartures.EraseBreaks` | co_async/utils/rbtree.hpp:174-222 | whose erasure runs to its end and leaves links that represent no tree of the other two |
| `TreeDepartures.FourInserts` | co_async/utils/rbtree.hpp:148-172 | four insertions make a black node, not the root, without children |
| `TreeDepartures.EraseUnbalances` | co_async/utils/rbtree.hpp:219-221 | whose erasure loses equal black heights |

## Left out

- `RbTrees.RbTree.doErase`: with two children, where the repair starts at a red node under a red parent, the model stops there; what its rounds do to links that represent no tree is not modelled.
- `RbTrees.RbTree.excise`: the at-most-one-child path only; `exciseTwo` is the other.
- `RbTrees.RbTree.takeOut`: likewise; `unlinkTwo` is the other.
- `RingQueues.RingQueue.constructor`: gives the array maxSize + 1 slots, which the cursors walk; the source allocates maxSize.
- `RingQueues.RingQueue.SizeExact`: requires maxSize > 0, where the modulus is defined.
- `QueueProtocol.QueueRuns`: assumes that no snapshot is compared a positive multiple of 2^32 notifies after it was taken; `WrapStrands` shows it must.
- `StampWords.AdvectReadAgrees`: for shifts up to 32, as is `AdvectWriteAgrees`, where the static assertion holds; the words before the casts are unbounded.
- `Timers.GenericIOContext.runDuration`: a run ends where a coroutine cancels a pending timer with two children, because that breaks the tree; each timer is enqueued once.
- `Timers.GenericIOContext.enqueueTimerNode`: the timer is not in the tree yet, which the source does not check.
- `Timers.GenericIOContext.doCancel`: a pending timer has at most one child; `resume` stops before any other.
- `StampQueues.ConcurrentRingQueue.push`: one caller at a time; interleavings are in `StampRuns`, which does not model the slots' contents.
- `CallOnceProtocol.CallOnceRuns`: a granted task that leaves without set_ready lets another one be granted, as in the source.
- `Cancellation.DoCancel`: cancellers are served one after another, and a callback runs to its end; callbacks that suspend midway, register or unregister, and cancellers destroyed during a cancel are not modelled.
- `Cancellation.Invoke`: a callback's only effects are its count and the sources it cancels; what it does beyond that is left open.
- `SplitStrings.collect`: requires a non-empty delimiter; with an empty one the source does not return (`EndsExactly`).
- `Streams.BorrowedStream.again`: a goto target in the source, here a method called in a loop; likewise `matchRest`, `scan`, `pass`, `take`, `store`, `drain` and `putRound` are stretches of the source's loops under names.
- Cancelling a mutex, queue or semaphore wait; errors other than a kernel wait's refusal.
- `try_push` and `try_pop` of Queue, which notify only on a full or empty edge.
- `getspan`, `peekn` and `write` of the stream, which do not keep the stream's contents; `getstruct`, `putstruct`, `close`.
- The vector form of `when_any`; `SplitString::rest` and the array form of `collect`; `set_max_size`, the unchecked ring operations and `InfinityQueue`; `doClear` and `getBack` of the tree.
- `when_any`'s `result.value()` on an empty result, which throws when the caller was cancelled before any child ended.
- Expiries are plain integers; index and size arithmetic does not wrap.
- ThreadPool, SpinMutex and memory orders; io_uring and the platform wrappers; exceptions and allocators.
