# A model of TmULThreads

TmULThreads is a user-level threading library: a timer manager on hierarchical wheels, a
cooperative scheduler, message queues, a fixed-block memory pool and a few containers. This
project models the parts with the most state and states what they keep over every run.

## The parts

**Red-black trees** (`cmn/rbtree.c`). `RbTree` has the two rebalancing loops as functions on a
zipper, a subtree with the path above it, and proves that they keep the red-black rules and the
in-order sequence. `RbLinks` has the code itself, on a memory of nodes with left, right and parent
links, and proves that each routine builds exactly the tree that the function gives and writes to
no other node. `RbWalk` has the in-order walk, `RbAugment` the upkeep of summaries kept in the
nodes. The source spells out each case for the left and the right hand; a `Side` parameter covers
both.

**Timer wheels** (`TIMERS/src`). A timer sits on the tree of the largest unit of time left, packed
with the smaller units into one word, and moves to smaller wheels as the clocks reach it.
`PackedTime` has the word, `TimerModel` the life of one timer, `TimerRun` all runs of starting,
deleting, ticking and running handlers, with the main theorems, and `TimerHistory` what the state
tells of the run that has led there. `TimerTree`, `TimerTables` and
`TimerService` have the code on the linked trees, and prove that each call takes its steps of the
machine of `TimerRun`: the service object keeps the run so far, so what is proved of all runs holds
of it. `BottomHalf` has the hand-over of expired timers between two threads, and `TimerThreads` puts
the machines of `TimerRun` and `BottomHalf` together into one system.

**Scheduler** (`core/sched.c`, `core/iostream.c`). `Sched` has the run lists, the wait list, the
lists of the descriptors, the counters and the shortcut `nxt_imm_task` as functions on values.
`SchedSteps` has where each step puts a task, and for how long. `ListHead` has the linked rings of
`cmn/list.h`. `SchedLinks` has the code: a scheduler object whose
lists are such rings in one memory, and whose every method does what the function does.

**Message queue, pool, hash table, Jenkins hash** (`core/msg_queue.c`, `mem/mem_main.c`,
`cmn/hashlib.c`, `cmn/jhash.h`). `MsgQueue` is a monitor over interleaved steps of its threads, on
top of `Pool`; `Hashing` proves that the chained table gives the answers of a finite map; `JHash`
proves the byte form and the word form equal and the mixing step a bijection, and `JHashValue` works
out the hash of one key.

## Where the code does not do what one would expect

These are results of the model, each with the exact condition.

- A duration of 1024 hours or more wraps in the packed word. `FireTimeBounds` proves that the fire
  time is the promised one exactly when the duration is shorter. `ShortestWrap` gives the first two
  that are not: a timer for 1024 hours is never placed, one for a tick more fires on the next tick.
- A timer for zero ticks, or for a multiple of 1024 hours, is counted and never placed. `OnePlace`
  proves that the count is exact if and only if no such timer was ever started, `CountedUnplaced`
  gives a run with one.
- `timer_get_remaining_time` reads an unsigned difference as a signed number. `RemainingPositive`
  proves that it returns the time left if and only if that is less than 2^31 ticks, `RemainingIff`
  that this is so over every run exactly for durations of less than 2^31 ticks, and `RemainingFails`
  that a longer timer is told wrong right after its start.
- `free_blk` stores the offset of a block in an `int`. `FreeExact` proves that a block that is out is
  released if and only if its offset is less than 2^31 or its size divides 2^32 - 1. `AllReturnIff`
  has the condition for a caller: over every run each block can be given back if and only if the total
  fits 32 bits, and either the offset of the last block fits 31 or the size divides 2^32 - 1.
  `BlockStuck` takes a block that cannot be given back.
- `free_blk` can also index outside its table, in front of it or behind, and then anything may happen to
  the pool. `OutsideIff` proves exactly when some address does this, for every size and number of
  blocks, and `BreaksIff` that a run can do it exactly then, or by dividing by a size of zero.
  `OutsideFits` has the condition for totals that fit: the total size is not a multiple of the alignment
  and a block is no larger than the alignment, or the size does not divide 2^32 - 1 and some offset of
  2^31 or more gets past the tests. `LargePool` is an example, with an index of -2048.
- `mem_pool_create` rounds the total size up in unsigned arithmetic. `BlocksFitIff` proves that the
  blocks lie in the memory asked for exactly when this does not overflow, `FitsIff` the same for a
  queue in terms of `maxmsg`.
- `msg_create_Q` passes the block size and the number of blocks to `mem_pool_create` the other way
  round. `DroppedWhenFull` proves that a queue takes 24 messages, whatever `maxmsg` up to 3890368 is.
  For larger ones the last block cannot be given back: `ConservedIff` proves that blocks and queued
  messages balance over every run exactly up to there, `BlockLost` has the run that loses a block, and
  `DroppedEarly` shows that the queue then takes no more than 23. With a `maxmsg` of 0, `NoneAsked`
  proves that receiving the first message divides by zero.
- `create_hash_table` asks for blocks as large as one address for each bucket. `EntriesFit` proves
  that an entry fits its block exactly when there are three buckets or more. With two, `EntriesLost`
  proves that adding a second entry makes the data of the first NULL. With more than 16384, the last
  block cannot be given back: `WorkableIff` proves both bounds exact, and `BucketLost` that in a table
  filled and with its last entry removed there is no block for another.
- The test of an index in the hash table lets through a negative index and the one just past the
  buckets; `Call` proves that these, and no others, are out of bounds.
- `hash_tbl_lookup` returns NULL for a missing key and also for NULL data; `NullIff` says after which
  runs.
- `wait_on_fd` and `wake_io_task` do not test the descriptor, and `spawn_task` not the priority. From 16
  and 20 on they index past the arrays of lists; 100, the priority that `thread_attr_init` gives, is
  among these. `WaitOnFd`, `WakeIoTask` and `Spawn` tell these calls from the others, and promise
  nothing after them.
- Round robin gives everyone a turn unless the first of several tasks of the list runs at the outset;
  `schedule` then lets it run on for ever. `RoundRobin` proves the equivalence, and `FirstStays` that
  this is so right after two tasks of one priority have been started.
- A task that wakes itself can become its own `nxt_imm_task` and run on after it has been put on a
  wait list. `WakesOther` has the exact condition, `WakesItself` what follows, `WakesItselfFirst` a
  state right after start-up in which it happens.

## Model

| member | source | states |
|---|---|---|
| RbTree.PlugRedBlack | cmn/rbtree.c:72-282 | A tree with a hole filled is red-black if and only if the filling is balanced, the path around it has its black height everywhere, and no two reds meet |
| RbTree.HeightBound | cmn/rbtree.c:72-282 | A red-black tree of n nodes is of height at most 2 log2(n+1) |
| RbTree.InsertFixInorder | cmn/rbtree.c:72-135 | Rebalancing after an insertion keeps the in-order sequence |
| RbTree.InsertRound | cmn/rbtree.c:76-132 | One round of the insertion loop leaves the two-reds violation as the only one, higher up |
| RbTree.InsertFixRedBlack | cmn/rbtree.c:72-135 | Insertion ends in a tree that keeps every red-black rule |
| RbTree.EraseFixInorder | cmn/rbtree.c:137-215 | Rebalancing after a removal keeps the in-order sequence |
| RbTree.EraseRound | cmn/rbtree.c:142-212 | One round of the removal loop ends it or moves the missing black one level up |
| RbTree.EraseFixRedBlack | cmn/rbtree.c:137-215 | Rebalancing after a removal restores every red-black rule |
| RbTree.EraseRedBlack | cmn/rbtree.c:217-282 | Erasing any node of a red-black tree leaves one, also when the successor takes its place |
| RbTree.EraseInorder | cmn/rbtree.c:217-282 | Erasing takes exactly the erased node out of the in-order sequence |
| RbLinks.Rotate | cmn/rbtree.c:26-70 | Both rotations, in place: the tree around the node is rotated, all parent links agree, and no other node is written |
| RbLinks.InsertRecolor | cmn/rbtree.c:83-91 | The red-uncle case repaints three nodes and moves the view up two levels |
| RbLinks.InsertRotate | cmn/rbtree.c:93-106 | The black-uncle cases end with the rotation of the grandparent |
| RbLinks.InsertRoundStep | cmn/rbtree.c:76-132 | One round on the links does what one round of the function does |
| RbLinks.InsertColor | cmn/rbtree.c:72-135 | The linked tree after rb_insert_color is the one that the function gives, and nothing else is written |
| RbLinks.EraseRedSibling | cmn/rbtree.c:147-153 | The red-sibling case turns the sibling up and leaves a black sibling |
| RbLinks.EraseBlackSibling | cmn/rbtree.c:154-175 | The three black-sibling cases, each against its branch of the function |
| RbLinks.EraseRoundStep | cmn/rbtree.c:142-212 | One round of the removal loop on the links does what the function does |
| RbLinks.EraseColor | cmn/rbtree.c:137-215 | The linked tree after __rb_erase_color is the one that the function gives, and nothing else is written |
| RbLinks.UnlinkSimple | cmn/rbtree.c:222-278 | A node with a missing child is spliced out |
| RbLinks.FindSuccessor | cmn/rbtree.c:228-232 | The loop ends at the leftmost node of the right subtree |
| RbLinks.UnlinkSuccessor | cmn/rbtree.c:226-262 | The successor takes the place, the links and the colour of the erased node, also when it is its right child |
| RbLinks.Erase | cmn/rbtree.c:217-282 | The linked tree after rb_erase is the one that the function gives, and nothing else is written |
| RbLinks.ReplaceNode | cmn/rbtree.c:435-456 | The new node has the place, colour and links of the victim; all others keep place and colour |
| RbWalk.Extreme | cmn/rbtree.c:355-381 | rb_first and rb_last find the ends of the in-order sequence, NULL in an empty tree |
| RbWalk.Neighbor | cmn/rbtree.c:383-433 | rb_next and rb_prev, NULL for a node in no tree |
| RbWalk.NeighborAt | cmn/rbtree.c:383-433 | From place k of the in-order sequence they step to k+1 and k-1, so each undoes the other |
| RbWalk.Walk | cmn/rbtree.c:355-409 | Stepping with rb_next from rb_first meets every node once, in order, and ends |
| RbWalk.LinkNode | cmn/rbtree.h:99-106 | The new red leaf hangs at the chosen link and no node but its parent is written |
| RbAugment.SummedIsSummary | cmn/rbtree.c:303-315 | When every node has the callback's value of its children, it has the summary of its whole subtree |
| RbAugment.AugmentPath | cmn/rbtree.c:284-301 | The climb makes all summaries right, if those off the path and its siblings were |
| RbAugment.InsertDamage | cmn/rbtree.c:303-315 | Rebalancing after an insertion spoils summaries only around the path to the new node |
| RbAugment.EraseDamage | cmn/rbtree.c:317-350 | Rebalancing after a removal spoils summaries only around the path to the deepest node |
| RbAugment.AugmentInsert | cmn/rbtree.c:307-315 | After an insertion and this call every summary of the tree is right |
| RbAugment.AugmentEraseBegin | cmn/rbtree.c:321-340 | Finds the deepest node on the rebalance path that stays in the tree |
| RbAugment.AugmentEraseEnd | cmn/rbtree.c:346-350 | After a removal and this call every summary of the tree is right |
| PackedTime.GetJoin | TIMERS/inc/tmrtypes.h:77-102 | Reading the fields of a word gives what was put there |
| PackedTime.ClearJoin | TIMERS/src/update.c:28-33 | Each mask clears its own field and no other |
| PackedTime.PackFields | TIMERS/src/tmr_init.c:64-77 | Packing a duration and reading it back gives its ticks, seconds, minutes and hours, the hours modulo 1024 |
| PackedTime.ClearFields | TIMERS/src/update.c:28-33 | The same for every word and every wheel |
| PackedTime.ZeroFields | TIMERS/src/update.c:17-26 | The word is zero if and only if nothing of any unit is left |
| TimerModel.AdvanceOk | TIMERS/src/tmr_init.c:262-273 | The increments of update_times move the tick by one and keep the four clocks in step |
| TimerModel.PlaceDue | TIMERS/src/tmr_init.c:40-62 | A timer placed at a boundary of its wheel is due exactly its remaining time later |
| TimerModel.ServedAtBoundary | TIMERS/src/update.c:17-47 | A timer whose wheel reaches it expires if it is due, and otherwise moves to a smaller wheel with the same due time |
| TimerModel.TickTimer | TIMERS/src/update.c:49-66 | One tick on one timer: it expires exactly at its due time and keeps that due time until then |
| TimerModel.UnitsTicks | TIMERS/src/tmr_init.c:64-77 | The units of a duration add up to the duration modulo the span of the format |
| TimerModel.BeginDue | TIMERS/src/tmr_init.c:79-120 | A started timer is placed unless its duration wraps to nothing, and is due at its fire time |
| TimerModel.FireTimeBounds | TIMERS/src/tmr_init.c:64-120 | The fire time is after the start, not after the time asked for, early by less than the largest unit; it is the promised one if and only if the duration does not wrap |
| TimerModel.ShortestWrap | TIMERS/inc/tmrtypes.h:77-102 | The shortest duration that wraps is the span of the format, and is never placed; one tick more fires on the next tick |
| TimerModel.Stages | TIMERS/src/update.c:49-66 | Serving one wheel after the other is serving each timer by itself |
| TimerModel.StagesDying | TIMERS/src/update.c:49-66 | The timers that expire in the four stages are disjoint, and together those that expire in the tick |
| TimerModel.FilterSound | TIMERS/src/tmr_init.c:238-260 | When the filter finds nothing to serve, serving would change nothing |
| TimerRun.ApplyKeeps | TIMERS/src/tmr_init.c:79-273 | Starting, deleting, ticking, handling and freeing keep the invariant of places, times and queue |
| TimerRun.RunInv | TIMERS/src/tmr_init.c:79-273 | The invariant holds after every run |
| TimerRun.ExactFiring | TIMERS/src/update.c:17-66 | Over every run a timer that is not deleted is on a wheel before its fire time and logged under exactly that tick from then on |
| TimerRun.AllFireExactly | TIMERS/src/update.c:17-66 | The same of all timers at once, whose duration does not wrap to nothing |
| TimerRun.NoneMissed | TIMERS/src/tmr_init.c:238-273 | Over every run the clocks agree with the ticks, no wheel has passed a timer on it, and the filter holds back no tick on which a timer expires or moves |
| TimerRun.OnePlace | TIMERS/src/tmr_init.c:79-226 | Over every run each timer is on the wheels, expired, deleted or never placed, and only one of these; the count is exact if and only if none was started for a duration that wraps to nothing |
| TimerRun.CountedUnplaced | TIMERS/src/tmr_init.c:79-120 | A timer for a multiple of the span, or for no time, is counted though it is on no wheel |
| TimerRun.ForgetKeeps | TIMERS/src/btm_hlf.c:41-52 | A record that is freed after its handler has run, or after its deletion, can be used for a new timer |
| TimerRun.HandlersOnce | TIMERS/src/btm_hlf.c:25-54 | Over every run each handler runs at most once, in order of expiry, and every expired timer has run or is waiting to |
| TimerRun.RemainingPositive | TIMERS/src/update.c:149-165 | Over every run a running timer has the time left until its start and duration add up to, between one tick and its duration, and that is what is returned if and only if it is less than 2^31 ticks |
| TimerRun.RemainingIff | TIMERS/src/update.c:149-165 | The time left is returned right over every run if and only if the duration is less than 2^31 ticks |
| TimerRun.RemainingFails | TIMERS/src/update.c:149-165 | Right after the start of a longer timer it is wrong |
| TimerHistory.TickMoves | TIMERS/src/tmr_init.c:262-273 | A tick is taken exactly with the timers whose fire time is the next tick, in some order; it moves the clock by one and these timers from the wheels to the expired list |
| TimerHistory.ClockCounts | TIMERS/src/tmr_init.c:262-273 | After every run the clock tells how many ticks were taken |
| TimerHistory.SomeTick | TIMERS/src/tmr_init.c:262-273 | After every run a tick can be taken |
| TimerHistory.FilterExact | TIMERS/src/tmr_init.c:238-260 | Over every run the filter lets a tick through if and only if a wheel that turns at it, by the count of ticks, has a timer |
| TimerHistory.FiresInTime | TIMERS/src/update.c:17-66 | Over every run a timer not deleted has expired if and only if as many ticks were taken as its fire time says, and that is no later than asked for |
| TimerHistory.Fires | TIMERS/src/update.c:17-66 | From every state, ticks alone make a timer on the wheels expire, exactly as many as are left to its fire time |
| TimerHistory.BornBy | TIMERS/src/tmr_init.c:79-120 | Over every run a timer has the duration of the call that started it and the tick at which it was made |
| TimerHistory.StaysBorn | TIMERS/src/tmr_init.c:79-120 | Over every run each start of a record not in use is known so, if not too many timers are counted, until the record is used again |
| TimerHistory.GoneBy | TIMERS/src/tmr_init.c:209-226 | Over every run a timer counts as deleted only if it was deleted when it was on a wheel |
| TimerHistory.StaysGone | TIMERS/src/tmr_init.c:209-226 | Over every run a timer deleted so is on no wheel, does not expire, and its handler is not run, until the record is used again |
| TimerTree.FindLink | TIMERS/src/update.c:68-92 | The descent ends at the empty link with all smaller or equal keys before and all larger ones after |
| TimerTree.TimerAdd | TIMERS/src/update.c:68-99 | The wheel stays a red-black tree ordered by expiry; the timer comes after those of the same expiry |
| TimerTree.TimerDel | TIMERS/src/update.c:101-107 | The wheel loses exactly this timer, whose node is marked as being in no tree |
| TimerTree.TimerTreeWalk | TIMERS/src/update.c:109-139 | A timer of the searched expiry is found if and only if there is one, in at most 2 log2(n+1) steps |
| TimerTables.FindSlotAndPlace | TIMERS/src/tmr_init.c:40-62 | The record, the tree of the wheel and the flag agree after placing; a timer with nothing left is not placed |
| TimerTables.ServeOne | TIMERS/src/update.c:17-33 | One timer taken off its wheel expires, with the count one less, or goes to a smaller wheel |
| TimerTables.ProcessTimers | TIMERS/src/update.c:35-47 | The loop serves exactly the timers that the wheel's clock has reached, each once, and returns their number |
| TimerTables.ProcessTick | TIMERS/src/update.c:49-66 | The four wheels after a tick hold what the model says, exactly the due timers were appended to the expired list, and the number returned is that of the timers that expired or moved |
| TimerTables.TouchedIff | TIMERS/src/update.c:35-66 | The timers counted are those that the tick makes expire or move |
| TimerTables.TimersPending | TIMERS/src/tmr_init.c:238-260 | The filter on the trees is the filter of the model |
| TimerService.Service.constructor | TIMERS/src/thr_spec.c:93-125 | The zeroed globals stand for the empty run of the machine |
| TimerService.Service.StartTimer | TIMERS/src/tmr_init.c:79-120 | One start step of the machine, on a record that is new or has been freed: the timer is known with this duration and the present tick; it fails exactly when more than 2000 are counted |
| TimerService.Service.DelTimer | TIMERS/src/tmr_init.c:209-226 | One delete step of the machine, on a record that has not been freed after its handler: a running timer is deleted and on no wheel, another is left alone |
| TimerService.Service.UpdateTimes | TIMERS/src/tmr_init.c:262-273 | One tick step of the machine: the clock is one further, and exactly the timers whose fire time this is go to the expired list; the bottom half is sent its event if and only if a timer has expired or moved |
| TimerService.Service.ProcessNext | TIMERS/src/btm_hlf.c:32-52 | One round of the loop, between any other calls: one handler step of the machine, for the first expired timer |
| TimerService.Service.ProcessExpired | TIMERS/src/btm_hlf.c:25-54 | As many handler steps as there are expired timers: their handlers run in order, the list is empty afterwards, and nothing else changes |
| TimerService.Service.Exact | TIMERS/src/tmr_init.c:79-273 | After any calls of the service the clocks tell the number of ticks taken, the timers on its trees are those of the run, and each timer not deleted expires exactly at its fire time |
| BottomHalf.ApplyKeeps | TASK/src/tsk_lnx.c:136-171 | Each step of either thread keeps the hand-over invariant |
| BottomHalf.NoneStranded | TIMERS/src/btm_hlf.c:15-54 | Over every interleaving, timers on the list are being handled, or the event is pending or about to be sent; handlers run once each, in order |
| BottomHalf.AllHandled | TIMERS/src/thr_spec.c:81-91 | Once the event is sent the service thread runs all handlers by its own steps |
| BottomHalf.AllHandledAfter | TIMERS/src/thr_spec.c:81-91 | The same from every reachable state |
| BottomHalf.Rests | TASK/src/tsk_lnx.c:136-157 | And then it sleeps, with the event taken |
| BottomHalf.WordKept | TASK/src/tsk_lnx.c:159-171 | What is sent stays in the event word until the server takes the event |
| TimerThreads.ApplyKeeps | TIMERS/src/btm_hlf.c:15-54 | Each event of the system keeps timers and threads in agreement on the expired list and the handlers run; that each timer expires once is proved, not assumed |
| TimerThreads.RunJoined | TIMERS/src/btm_hlf.c:15-54 | Over every run of the system each part is in the state that its own run leads to, and they agree |
| TimerThreads.ExactAndHanded | TIMERS/src/update.c:17-66 | Over every interleaving of ticks, starts, deletions and both threads, every timer not deleted expires exactly at its fire time, and no expired timer is stranded |
| TimerThreads.FiredAreHandled | TIMERS/src/thr_spec.c:81-91 | From every state of the system, once the event is sent, steps of the service thread alone run the handlers of exactly the timers whose fire time has come |
| TimerThreads.TickTaken | TIMERS/src/tmr_init.c:262-273 | A tick is taken exactly when the last event has been sent and with the timers due; it moves the clock by one, puts these on the list, and the event has to be sent if and only if a timer has expired or moved |
| TimerThreads.ClockCounts | TIMERS/src/tmr_init.c:262-273 | Over every run of the system the clock tells how many ticks were taken |
| TimerThreads.TickPossible | TIMERS/src/tmr_init.c:262-273 | From every state of the system the next tick is one or two events away |
| TimerThreads.DeletedNeverRuns | TIMERS/src/tmr_init.c:209-226 | A timer deleted before it has expired never expires and its handler is never run, whatever either thread does |
| Pool.CreatedBalanced | mem/mem_main.c:64-155 | A new pool has all its blocks and none out |
| Pool.AllocExact | mem/mem_main.c:185-206 | Allocation fails if and only if all blocks are out, and otherwise hands out one that was not |
| Pool.BlockIndex | mem/mem_main.c:208-239 | The index computed for a block, through two numbers stored in an int, is its own if and only if its offset is less than 2^31 or its size divides 2^32 - 1 |
| Pool.FreeExact | mem/mem_main.c:208-239 | A release succeeds if and only if the address is that of a block that is out and of which this is so, and gives back this block alone; one that is refused changes nothing |
| Pool.RoomyIff | mem/mem_main.c:64-113 | The memory asked for holds all blocks if and only if size times number and the rounding fit 32 bits |
| Pool.BlocksFitIff | mem/mem_main.c:64-155 | Each block lies in the pool's memory if and only if the same sum fits |
| Pool.OutsideIff | mem/mem_main.c:208-239 | A release can index outside the table if and only if the condition on size and number of blocks holds: the memory has room for one more block, or the quotients of the offsets of 2^31 or more leave the table |
| Pool.OutsideFits | mem/mem_main.c:64-239 | If the total fits 32 bits: if and only if the total is unaligned and a block no larger than the alignment, or the size does not divide 2^32 - 1 and some offset of 2^31 or more is not refused |
| Pool.RunInv | mem/mem_main.c:185-239 | After every run of calls that has not broken the pool, the slots, both counts and the blocks held agree; if it has, a release could have done so at the outset |
| Pool.BreaksIff | mem/mem_main.c:208-239 | Some run of calls breaks a new pool if and only if blocks are empty or an index can be outside the table |
| Pool.AllReturnIff | mem/mem_main.c:185-239 | Over every run each block held can be given back if and only if the total fits 32 bits, and either the last offset fits 31 or the size divides 2^32 - 1 |
| Pool.GivenBack | mem/mem_main.c:208-239 | A block that is held and can be given back is then not held, and no other changes hands |
| Pool.BlockStuck | mem/mem_main.c:185-239 | Otherwise the last block, once taken, cannot be given back |
| Pool.LargePool | mem/mem_main.c:208-239 | Of 4095 blocks of 1 MB, the release of block 2048 leads to the index -2048 |
| Pool.HeldApart | mem/mem_main.c:135-206 | Blocks out at the same time never overlap and lie in the pool's memory |
| Pool.MemInfo.constructor | mem/mem_main.c:64-155 | The table that the loop builds is that of the ledger |
| Pool.MemInfo.AllocBlock | mem/mem_main.c:185-206 | The scan of the table does what the ledger does |
| Pool.MemInfo.FreeBlk | mem/mem_main.c:208-239 | The release does what the ledger does, and tells when the index is outside the table or the size is zero, where nothing is promised |
| MsgQueue.ApplyKeeps | core/msg_queue.c:137-182 | Every step of a sender or receiver keeps blocks, order and wakeups in balance, if all blocks can be given back |
| MsgQueue.ApplyOrder | core/msg_queue.c:137-182 | Every step keeps order and wakeups, whatever the pool does |
| MsgQueue.NoLostWakeup | core/msg_queue.c:137-182 | Over every interleaving and for every maxmsg but 0, while a receiver is blocked there is a woken receiver for each queued message, and received followed by queued are the messages of the sends that found a free block, in their order |
| MsgQueue.ReceiversConserved | core/msg_queue.c:137-160 | Over every interleaving, each thread that has entered msg_rcv has one message, waits, or has been woken |
| MsgQueue.TakesFirst | core/msg_queue.c:137-160 | A thread that looks at the queue takes the first message, and waits if there is none |
| MsgQueue.WokenEmpty | core/msg_queue.c:137-182 | While a receiver is blocked, the woken receivers empty the queue by looking at it |
| MsgQueue.Conserved | core/msg_queue.c:137-182 | Over every interleaving, received followed by queued are the messages of the sends that found fewer than 24 queued, in their order, and a block is out for each queued message, for maxmsg up to 3890368 |
| MsgQueue.ConservedIff | core/msg_queue.c:81-182 | Over every interleaving a block is out for each queued message if and only if maxmsg is at most 3890368 |
| MsgQueue.BlockLost | core/msg_queue.c:137-182 | For a larger maxmsg, after 24 messages have been sent and received a block is missing and no message is queued |
| MsgQueue.DroppedEarly | core/msg_queue.c:137-182 | After 23 more have been sent the next is dropped, with fewer than 24 queued |
| MsgQueue.NoneAsked | core/msg_queue.c:81-160 | For a maxmsg of 0, sending and receiving one message divides by zero |
| MsgQueue.FitsIff | core/msg_queue.c:81-134 | The message blocks lie in the memory of the pool if and only if maxmsg is small enough for its size to fit 32 bits |
| MsgQueue.LookedKeeps | core/msg_queue.c:137-160 | Receiving releases the block of the first message, and the release always succeeds, if all blocks can be given back |
| MsgQueue.DroppedWhenFull | core/msg_queue.c:81-134 | A message is dropped if and only if 24 are queued, whatever maxmsg up to 3890368 was |
| ListHead.InitRing | cmn/list.h:34-38 | A head linked to itself is the empty ring |
| ListHead.EmptyRing | cmn/list.h:184-187 | The test for emptiness holds if and only if the ring has no entry |
| ListHead.AddRing | cmn/list.h:47-73 | list_add makes the entry the first of the ring |
| ListHead.AddTailRing | cmn/list.h:47-87 | list_add_tail makes the entry the last of the ring |
| ListHead.DelRing | cmn/list.h:96-111 | list_del takes exactly this entry out, and writes only to its neighbours |
| ListHead.DelTwice | cmn/list.h:96-111 | Deleting an entry a second time changes nothing |
| ListHead.DelSelf | cmn/list.h:34-111 | Deleting an entry that is linked to itself changes nothing |
| ListHead.SecondRing | cmn/list.h:384-386 | The link saved by list_for_each_safe is to the second entry, or to the head if there is none |
| Sched.First | core/sched.c:104-117 | The first run list that is not empty, none before it having a task |
| Sched.BookedBooks | core/sched.c:331-397 | Moving a task between lists with the matching counts and flag keeps the books |
| Sched.SomeRunnable | core/sched.c:68-75 | The count of runnable tasks is zero if and only if every run list is empty |
| Sched.ScheduleKeeps | core/sched.c:222-258 | schedule keeps the invariant, also from a task that has just been put on a wait list |
| Sched.Dispatches | core/sched.c:68-119 | The idle task runs if and only if no task can; otherwise the most urgent task woken since the last dispatch, or else one of the most urgent |
| Sched.ParkedKeeps | core/sched.c:347-369 | Moving the running task to a wait list keeps the books and the shortcut |
| Sched.WokenKeeps | core/sched.c:371-397 | Waking any other task keeps the invariant, also one that is awake |
| Sched.StartedKeeps | core/sched.c:399-416 | Starting a task keeps the invariant |
| Sched.WokenAllKeeps | core/iostream.c:222-234 | Waking all tasks that wait for a descriptor keeps the invariant |
| Sched.ApplyKeeps | core/sched.c:222-479 | Every step keeps the invariant |
| Sched.AllStarting | core/tmlibinit.c:23-49 | After start-up with any tasks, the books are right but for the parent task, on no list, and the idle task, counted |
| Sched.FirstParkedKeeps | core/sched.c:285-319 | The first wait of the parent task makes the books right |
| Sched.OneListEach | core/sched.c:331-479 | Over every run from start-up each task but the idle one is on exactly one list, once; its flag says whether that is a run list; both counts are exact; the shortcut is to a task that can run and does not; what runs is the idle task or can run |
| Sched.InTurn | core/sched.c:95-119 | If the running task is not first in the most urgent list, its tasks run one after the other, and after one round the list is as it was |
| Sched.RoundRobin | core/sched.c:95-119 | As many schedules as there are tasks on the list give each a turn, if and only if the running task is not the first of several |
| Sched.WakesOther | core/sched.c:371-397 | A wakeup leaves the shortcut right if and only if it is of another task or the shortcut is to one as urgent |
| Sched.WakesItself | core/sched.c:68-90 | After a wakeup of itself a waiting task is still the shortcut, and runs on if others can run |
| Sched.WakesItselfFirst | core/sched.c:371-397 | It can happen right after start-up |
| Sched.FirstStays | core/sched.c:95-119 | After two tasks of one priority have been started, the first runs, is first in the list, and the second never has its turn |
| SchedSteps.WaitsLast | core/sched.c:347-479 | A task that waits is last on the list of its descriptor, or on the wait list, and cannot run; the other lists of waiting tasks stay |
| SchedSteps.WaitsUntilWoken | core/iostream.c:222-239 | Over every run it stays on that list and cannot run until it or its descriptor is woken, and then it can |
| SchedSteps.WakesFirst | core/sched.c:371-397 | A task that is woken is first on the run list of its priority and off the list it was on |
| SchedSteps.WakesWaiting | core/iostream.c:222-234 | Waking a descriptor empties its list, wakes exactly its tasks, and puts them one by one in front of the run lists of their priorities |
| SchedSteps.StartsLast | core/sched.c:399-416 | A task that is started is last on the run list of its priority |
| SchedSteps.WokenInTurn | core/sched.c:68-119 | Of two tasks of one priority that are woken, none as urgent being there to run, the first runs at once and the second has the next turn |
| SchedLinks.DelRings | cmn/list.h:96-111 | Among all rings of the scheduler, list_del takes the task off its own and leaves the others; a second list_del changes nothing |
| SchedLinks.AddRings | cmn/list.h:47-87 | Linking a task that is on no list makes it the first or last of one ring and leaves the others |
| SchedLinks.MovedRings | core/sched.c:331-397 | Unlinking and linking on the rings is the move of the model |
| SchedLinks.ReadyListed | core/iostream.c:222-234 | A task on a list can be moved on, also after it has been unlinked once before |
| SchedLinks.ReadySelf | core/sched.c:347-369 | So can a task that is linked to itself and on no list, as the parent task is |
| SchedLinks.FirstRunList | core/sched.c:104-117 | The loop over the rings finds the first run list that is not empty |
| SchedLinks.Scheduler.constructor | core/sched.c:285-329 | Rings set up, parent and idle task created and the idle task unlinked: the state of the model at start-up |
| SchedLinks.Scheduler.Spawn | core/thread_lib.c:46-109 | A new task is linked to itself, and started if it has something to run and its priority a run list; other priorities are told apart |
| SchedLinks.StartUp | core/tmlibinit.c:23-49 | Start-up as a whole, up to the first dispatch, ends in the state from which the runs of the model begin |
| SchedLinks.Scheduler.FirstWait | core/sched.c:347-369 | The first wait of the parent, whose unlinking changes nothing, establishes the invariant |
| SchedLinks.Scheduler.NextTaskReady | core/sched.c:95-119 | The scan finds the first task of the first ring that is not empty, and moves it to the end of its ring |
| SchedLinks.Scheduler.NextEligibleTask | core/sched.c:68-90 | The idle task, the shortcut or the next ready task |
| SchedLinks.Scheduler.Reschedule | core/sched.c:222-258 | One schedule of the model; there always is a task to run |
| SchedLinks.Scheduler.AddTaskToWaitQueue | core/sched.c:347-369 | A task flagged as on a run list is last on the wait list, counts and flag changed; any other is left alone |
| SchedLinks.Scheduler.WaitOnFd | core/sched.c:470-479 | One such step of the model, keeping the invariant, for a descriptor below 16; others are told apart |
| SchedLinks.Scheduler.WaitForEvent | core/sched.c:428-432 | One blocking step of the model, keeping the invariant |
| SchedLinks.Scheduler.WakeupTask | core/sched.c:371-397 | The task is first on the run list of its priority, and the shortcut follows, also if it was unlinked before |
| SchedLinks.Scheduler.WakeupNewTask | core/sched.c:399-416 | The task is last on the run list of its priority, and the shortcut follows |
| SchedLinks.Scheduler.WakeIoTask | core/iostream.c:222-234 | The loop over the ring, with the saved link and both unlinks of each task, wakes each waiting task once, from the first on, keeping the invariant, for a descriptor that has a list |
| JHash.MixBijective | cmn/jhash.h:24-35 | The mixing step has an inverse on both sides |
| JHash.WordsAgree | cmn/jhash.h:44-113 | Hashing words ends in the state that hashing their little-endian bytes ends in, for every key and initial value |
| JHash.BlocksAgree | cmn/jhash.h:53-77 | The blocks that bytes are cut into, the last filled up with zeros, are those of the words they spell |
| JHash.FoldInjective | cmn/jhash.h:53-79 | What follows in a key never makes two different states equal |
| JHash.OneBlockDiffers | cmn/jhash.h:44-82 | Keys of the same length that differ within one block of twelve bytes never end in the same state |
| JHash.LengthCounts | cmn/jhash.h:64 | Keys of different length with the same blocks never end in the same state |
| JHash.ZeroCounts | cmn/jhash.h:64-77 | So a key and the same key with a zero byte after it do not, unless that fills a block |
| JHash.WordLengthCounts | cmn/jhash.h:103 | The same for keys of words |
| JHash.InitvalCounts | cmn/jhash.h:44-53 | Different initial values never lead to the same state |
| JHashValue.KnownHash | cmn/jhash.h:21-82 | The state at the end of the key of the bytes 1 to 11, with the initial value 0x12345678 |
| JHash.MixWords | cmn/jhash.h:24-35 | The 27 assignments are the mixing function |
| JHash.AddLast | cmn/jhash.h:65-77 | The switch that falls through adds the last bytes as a block filled up with zeros |
| JHash.HashBytes | cmn/jhash.h:44-82 | The loop over bytes computes the hash of the padded blocks |
| JHash.HashWords | cmn/jhash.h:87-113 | The loop over words computes the hash of the word blocks |
| Hashing.FindInChain | cmn/hashlib.c:86-91 | The first entry with the key, none before it having it |
| Hashing.LastOfChain | cmn/hashlib.c:159-162 | The last entry of a chain |
| Hashing.LookupEntry | cmn/hashlib.c:94-103 | The data of the key, if and only if the map has it; out of bounds if and only if the index is negative or just past the buckets |
| Hashing.NullIff | cmn/hashlib.c:94-191 | Over every run, what is returned is NULL if and only if each addition of the key was followed by a removal, or the first since then brought NULL |
| Hashing.UnlinkKey | cmn/hashlib.c:120-139 | The entry with the key is unlinked from the head or from its predecessor |
| Hashing.AddEntry | cmn/hashlib.c:143-191 | A present key is left alone; an absent one is added, or the call fails if and only if its index is too large or there are as many entries as buckets; out of bounds as above |
| Hashing.DeleteEntry | cmn/hashlib.c:105-141 | Exactly this key goes, and its block returns to the pool; an absent key fails; out of bounds as above |
| Hashing.Map | cmn/hashlib.c:143-191 | The size of the map, the count of entries and the pool's blocks in use are the same number |
| Hashing.Walk | cmn/hashlib.c:241-260 | The walk visits the chains in order and returns the number of entries visited |
| Hashing.WalkComplete | cmn/hashlib.c:241-260 | These are the entries of all keys, each exactly once |
| Hashing.HashTable.constructor | cmn/hashlib.c:32-69 | The empty map, with 52 buckets when none are asked for, if there are from 3 to 16384 |
| Hashing.HashTable.Call | cmn/hashlib.c:94-207 | Each call answers and changes the contents as the finite map does, unless its index is negative or just past the buckets |
| Hashing.HashTable.CallAll | cmn/hashlib.c:94-207 | Any sequence of calls gets the replies that the finite map gives, up to the first out of bounds |
| Hashing.Absent | cmn/hashlib.c:105-191 | Over every run a key is missing if and only if each of its additions was followed by a removal |
| Hashing.FirstAddWins | cmn/hashlib.c:143-191 | Over every run the data of a key are those of the first addition since its last removal |
| Hashing.AddReply | cmn/hashlib.c:143-191 | Over every run an addition is done if and only if the key is there already, or its index is that of a bucket and there are fewer keys than buckets |
| Hashing.DeleteReply | cmn/hashlib.c:105-141 | Over every run a removal is done if and only if some addition of the key was done and has not been followed by a removal |
| Hashing.LookupReply | cmn/hashlib.c:94-103 | Over every run a lookup fails exactly for such a key too, and otherwise finds the data of the first addition since the last removal |
| Hashing.EntriesFit | cmn/hashlib.c:32-58 | Entries fit the blocks, apart from each other and within the pool, if and only if there are three or more buckets |
| Hashing.EntriesKept | cmn/hashlib.c:32-58 | With three or more buckets, writing one entry word by word leaves every other entry as it was |
| Hashing.EntriesLost | cmn/hashlib.c:143-191 | With two buckets, writing the second entry makes the data of the first NULL |
| Hashing.WorkableIff | cmn/hashlib.c:32-58 | Entries fit their blocks, and over every run each block can be given back, if and only if there are from 3 to 16384 buckets |
| Hashing.BucketLost | cmn/hashlib.c:105-191 | With more buckets, after as many additions as buckets and the removal of the last, there is no block for another |

## Left out

- Nodes are entries of a map from addresses to links, not Dafny objects; colour and parent are two fields, not one packed word.
- Clocks are unbounded: the 32-bit counters are taken not to wrap.
- A tick is one step, as in the build in which service_timers serves the wheels itself; delays of the other build between a tick and its soft-irq are not modelled.
- TimerService.Service.ProcessExpired: takes no timer to expire while the handlers run; ProcessNext is one round by itself, and TimerThreads has the interleaving.
- TimerService.Service.DelTimer: is not about a timer whose handler has run, whose freed record the code would read.
- TimerThreads.ApplyKeeps: each timer has a record of its own; the reuse of freed records is in TimerRun and TimerService only.
- TimerService.Service.StartTimer: which block the allocator hands out is a parameter, new or freed before; failing allocation is not modelled.
- timer_restart, repeating timers, mod_timer and setup_timer.
- BottomHalf.ApplyKeeps: the threads are steps of a machine on values, so the mutex and the condition variable are not objects.
- MsgQueue.ApplyKeeps: likewise; a signal wakes one or more waiting threads and waits may end spuriously.
- MsgQueue.NoLostWakeup: is not about a maxmsg of 0, where all blocks have one address; for values that FitsIff excludes it takes the writes outside the memory of the pool to do no harm.
- MsgQueue.Conserved: is about the values of maxmsg for which it holds, as is DroppedWhenFull; ConservedIff proves that there are no others.
- Pool.MemInfo.FreeBlk: promises nothing of the pool after an index outside the table or a division by zero.
- Pools are found by their ledger, not by an identifier; deleting a pool is not modelled.
- Sched.ApplyKeeps: wakeups are of tasks other than the running one, priorities have a run list, and tasks do not exit, get signals or lose priority by their time slice; waiting and the schedule after it are one step.
- SchedLinks.Scheduler.Spawn: promises nothing after a priority that has no run list, as WaitOnFd and WakeIoTask after a descriptor that has no list.
- SchedLinks.Scheduler.FirstWait: the parent task waits before it first yields; until then it is on no list.
- Time statistics, sched_need and the switch of contexts.
- Hashing.HashTable.constructor: promises nothing of a table with fewer than 3 or more than 16384 buckets, as WorkableIff shows it cannot; the buckets start cleared, which the code leaves to the allocator.
- Hashing.HashTable.Call: promises nothing of the table after an index out of bounds; keys are compared by equality, and the callback that frees data is not modelled.
- flush_hash_table and destroy_hash_table.
- jhash_3words and its two callers, which mix no length.
- core/lock.c, sockets, descriptors, POSIX message queues, signals, debugging output and the other operating-system ports.
