# ylib in Dafny

A model of the parts of ylib whose correctness is hard to see from the code, and proofs of what they promise.
`dafny verify dfyconfig.toml` checks all of it.

- **Regions** (`Band`, `RegionSpec`, `RegionX`, `RegionSweepX`, `RegionY`, `Region`, `RegionAlgebra`).  A region is
  a flat array of y-bands, each followed by its x-bands and an empty band.  One sweep over the rows of both operands,
  with a sweep over x-bands inside, does union, intersection and difference, coalescing in place.  The points of the
  result are exactly those of the set operation, for all regions, and the array is in a normal form that is unique;
  so the laws of sets hold for the arrays themselves.
- **Ring buffer** (`RingBuf`, `RingHistory`).  One writer and any number of readers, copying byte by byte beside each
  other, as a step system with a 32-bit version that wraps around; what a read gets is told from the calls of write.
- **Threads** (`ThreadEx`).  Callers, worker and owner queue of a background thread as a step system.
- **Message queue and task manager** (`MsgQ`, `TaskManager`, `TaskHistory`, `Queues`).  The priority queue whose semaphore is posted
  outside the lock, and the slot-limited run queue, as step systems.
- **Graph and dependency manager** (`GraphSpec`, `Dfs`, `Graph`, `Scheduler`, `TaskDepMan`, `DepRun`).  The search with two stacks
  decides whether a cycle reaches a vertex; the manager checks a task graph with it, and releases tasks by counting down; `DepRun` runs it
  from start to end.
- **Trie** (`TriePath`, `TrieShape`, `TrieOrder`, `TrieSame`, `TrieComplete`, `Trie`).  The nibble trie, changed in
  place, refines a map from byte strings; removal prunes, iteration is in order, equality is equality of the maps, and
  completion finds the longest common extension.
- **Hash, cache, heap, tree iterators** (`HashTable`, `HashL`, `Hash`, `Lru`, `HeapOrder`, `Heap`, `TreeOrder`,
  `TreeSorted`, `TreeIter`).  Each refines its simple specification: a map, a sequence by age, a sorted permutation, a recursive
  traversal.

`Basics` holds what several modules share.

Code that changes its data step by step is a class or a method with loops, proved against functions on values; code
that runs in several threads is a set of steps, each of which is one atomic action of one thread, and what is proved
holds for every sequence of steps.

## What the proofs showed about the code

- `ytaskdepman_remove_task` does not count down the tasks that waited for the one removed.  `RemoveTask` states exactly
  when the counters still fit; `CompletesIffCountsFit` says what follows, and `DepRun.RemovedPrerequisiteBlocks` makes
  the calls that show it.
- `ytaskmanager_cancel_task` on a task that a balance call has moved to the run queue, but not yet started, makes that
  start fail, and the process dies.  `DiesIffCancelledTooSoon` states that exactly.
- `ylru_put` compares a 32-bit sum that can wrap around; nothing is evicted then, and the recorded size is too small.
  `Put` states exactly when, and `WrapAround` fills such a cache.
- `yhashl_init2` and `yhashl_hremap` accept 32 bits, but the number of buckets is a 32-bit word, and 2^32 does not fit.
  With up to 31 bits everything holds, with 32 nothing does (`HRemap`).  `yhash_set` itself gets there: at 31 bits its
  test for a full table wraps to zero, so any node makes it grow (`Set` states exactly when, `GrowTooFar` shows it).
- The state diagram in `src/ythreadex.h` lacks the way back from started to ready when no thread can be created; the
  model follows the code.
- A read of the ring buffer can be torn after 2^31 writes to its slot between the two version loads, and not before.
- `src/trie.c` line 266 takes a comparison result other than zero for "the same"; the model follows the code.

## Model

| member | source | states |
|---|---|---|
| `Band.AnalyzeLayout` | src/geo/yband.h:164-189 | the case split of two overlapping or separate bands: the layout it names and the three bands it hands out are the part below the other band, the common part and the part above |
| `Band.PartsSplit` | src/geo/yband.h:164-189 | those three parts are exactly the points of one band alone, of both, and beyond the nearer end; "separate" and "subset" mean what they say about points |
| `RegionSpec.XUnique` | src/geo/rgn.c:37-44 | two normal rows of x-bands with the same points are the same bands |
| `RegionSpec.RowsUnique` | src/geo/rgn.c:37-51 | two lists of rows in normal form with the same points are equal: the normal form is unique |
| `RegionSpec.RowsOfEncode` | src/geo/rgn.c:47-56 | writing rows as a flat band array with its sentinels and reading them back gives the rows |
| `RegionSpec.EncodeIsRegion` | src/geo/rgn.c:47-56 | legal rows, written flat and closed by the empty band, are a region array |
| `RegionX.XAppendNormal` | src/geo/rgn.c:283-310 | appending a band that starts where the row ends, or later, keeps the x-bands sorted and strictly apart and adds exactly its points |
| `RegionX.BandAdd` | src/geo/rgn.c:296-310 | appends one band at most, coalescing into the previous band in place when they touch; what is before the row stays |
| `RegionX.BandOpNoOverlap` | src/geo/rgn.c:317-330 | appends a band that stands alone exactly for the operations that keep it |
| `RegionX.BandOpOverlap` | src/geo/rgn.c:332-342 | appends the common band for all operations but difference |
| `RegionX.BandOp` | src/geo/rgn.c:348-389 | one x-step writes one band at most, keeps the row normal, makes it right for the set operation up to the nearer end, and hands the rest of the farther band on |
| `RegionSweepX.SweepX` | src/geo/rgn.c:532-570 | the whole x-sweep of a common y-band: the row written is normal, has at most as many bands as both inputs together, and has exactly the points of the set operation |
| `RegionY.RowAppendNormal` | src/geo/rgn.c:422-475 | appending a row, merged into the last one when they touch and have equal x-bands, keeps the normal form |
| `RegionY.RowAppendPoints` | src/geo/rgn.c:422-475 | and adds exactly the points of that row |
| `RegionY.RbandCanMerge` | src/geo/rgn.c:422-445 | true exactly when the last row touches the new one and has the same x-bands |
| `RegionY.RbandAdd` | src/geo/rgn.c:452-475 | on the flat buffer: grows the previous row in place or copies the row behind it |
| `RegionY.RbandOpNoOverlap` | src/geo/rgn.c:485-499 | a row that stands alone is added for exactly the operations that keep it |
| `RegionY.RbandOpOverlap` | src/geo/rgn.c:501-588 | the common row is computed, dropped when empty, merged when it can be, and written otherwise |
| `Region.RbandOp` | src/geo/rgn.c:595-666 | one y-step extends the output by what the set operation says up to the nearer end, writes fewer bands than were reserved for it, and hands the rest of the farther row on |
| `Region.RbandBsz` | src/geo/rgn.c:233-253 | the size of a rect-band: its y-band, its x-bands and their sentinel |
| `Region.Advance` | src/geo/rgn.c:747-770 | after a y-step both cursors stand on the first row not used up, and at least one row more is used up: the sweep ends |
| `Region.RgnOp` | src/geo/rgn.c:682-791 | union, intersection and difference of any two regions: the new array is a region in normal form whose points are exactly that set operation on the points of the operands |
| `RegionAlgebra.SameArray` | src/geo/rgn.c:37-51 | two region arrays in normal form with the same points are equal, band by band |
| `RegionAlgebra.Commutes` | src/geo/rgn.c:827-861 | union and intersection give the same array with the operands exchanged |
| `RegionAlgebra.Associates` | src/geo/rgn.c:827-861 | and however three operands are grouped |
| `RegionAlgebra.IntersectIsDiffOfDiff` | src/geo/rgn.c:827-842 | a minus (a minus b) is the same array as the intersection of a and b |
| `RegionAlgebra.PartsJoin` | src/geo/rgn.c:827-861 | for a in normal form, the union of (a and b) with (a minus b) is a itself, as an array |
| `RegionAlgebra.Distributes` | src/geo/rgn.c:827-861 | intersection distributes over union, as arrays |
| `RegionAlgebra.MutateRectToRgnbands` | src/geo/rgn.c:216-225 | a rectangle as a region: normal form, and exactly its points |
| `RegionAlgebra.RgnOpRect` | src/geo/rgn.c:832-868 | the operations with a rectangle as the second operand |
| `RegionAlgebra.RectsExact` | src/geo/yrgn.h:150-175 | the rectangles of a region in normal form are disjoint and cover exactly its points |
| `RegionAlgebra.ForeachRect` | src/geo/yrgn.h:156-175 | the loop over the rectangles of a region visits disjoint rectangles that cover exactly its points |
| `RingBuf.StepInv` | src/ringbuf.c:169-212 | every step of the writer and of any reader keeps versions, slot contents, the write index and what each reader has copied in agreement |
| `RingBuf.RunInv` | src/ringbuf.c:169-212 | so every run keeps it, with any number of readers, interleaved byte by byte |
| `RingBuf.CheckIsExact` | src/ringbuf.c:196-212 | while fewer than 2^31 writes hit the slot between the two version loads, a read is accepted exactly when none did |
| `RingBuf.AcceptedReadIsOneWrite` | src/ringbuf.c:169-212 | an accepted read holds the bytes of exactly one write, at least as new as the last one published when the reader looked, or the initial zeros if none was published |
| `RingHistory.AcceptedIsFresh` | src/ringbuf.c:196-212 | told from the run: an accepted read holds the data of one call of write, the last one published when the read began or a later one, or the initial zeros if there was none |
| `RingHistory.ReadSucceeds` | src/ringbuf.c:196-212 | while no write to its slot begins, whatever the writer and other readers do besides, a read is never refused and yields exactly the data published last before it began, or the initial zeros |
| `RingHistory.ReadFinishes` | src/ringbuf.c:196-212 | left to itself a read is accepted after as many steps as there are bytes, and two |
| `RingHistory.RefusedIffInWrite` | src/ringbuf.c:205-207 | the first look refuses a slot exactly while it is being written |
| `RingHistory.CanBegin` | src/ringbuf.c:196-201 | a read can begin at any time |
| `RingHistory.WriteFinishes` | src/ringbuf.c:169-193 | a write can be made at any time, whatever the readers do, is over after as many steps of the writer as there are bytes, and four, and its data is then what is published last |
| `RingBuf.TornReadAtTheBound` | src/ringbuf.c:80-95 | the bound is tight: a run with 2^31 writes between the loads in which a mix of two writes is accepted |
| `Graph.Graph.AddVertex` | src/ygraph.h:207-212 | a new vertex, without edges |
| `Graph.Graph.AddEdge` | src/graph.c:225-244 | adds the edge at both ends, or refuses the one that is there |
| `Graph.Graph.RemoveEdge` | src/graph.c:245-258 | takes the edge out at both ends, or says that it is not there |
| `Graph.Graph.FindEdge` | src/graph.c:208-223 | finds an edge exactly when it is there |
| `Graph.Graph.HasVertex` | src/graph.c:106-114 | whether the vertex is in the list |
| `Graph.Graph.RemoveVertex` | src/graph.c:83-104 | takes the vertex out with exactly the edges at it |
| `Dfs.NextEdgeFitsTop` | src/graph.c:154-167 | the edge on top of the edge stack leads into the top vertex exactly when that vertex has edges waiting: the vertex stack is the search path and cuts the edge stack into segments |
| `Dfs.PopVertex` | src/graph.c:160-167 | popping a vertex without waiting edges keeps the search invariant |
| `Dfs.SkipEdge` | src/graph.c:169-176 | dropping an edge from a finished vertex keeps it |
| `Dfs.FollowEdge` | src/graph.c:178-189 | pushing an unvisited vertex with its incoming edges keeps it |
| `Dfs.BackEdgeMeansCycle` | src/graph.c:169-173 | an edge from a vertex on the path closes a cycle that reaches the base |
| `Dfs.NothingLeft` | src/graph.c:154-193 | an empty edge stack means that no cycle reaches the base, and that the visited vertices are those that do |
| `Graph.Graph.HasCycle` | src/graph.c:116-206 | true exactly when some cycle can reach the base vertex; otherwise the count is the number of vertices that can |
| `GraphSpec.NoWayOutMeansCycle` | src/taskdepman.c:430-470 | a set of vertices that all have an edge staying inside it has a cycle: why counting the ancestors of the root is enough |
| `TaskDepMan.TaskDepMan.AddTask` | src/taskdepman.c:310-325 | a new task with counter zero, while the manager is ready |
| `TaskDepMan.TaskDepMan.RemoveTask` | src/taskdepman.c:327-342 | removes a task and its edges but leaves the counters of its dependents: exact counters stay exact exactly if it had none, and fit the plan exactly if it was all that they waited for |
| `TaskDepMan.TaskDepMan.AddDependency` | src/taskdepman.c:344-362 | adds the edge and counts one more; refuses a dependency twice; exact counters stay exact |
| `TaskDepMan.TaskDepMan.RemoveDependency` | src/taskdepman.c:364-382 | takes the edge out and counts one less; exact counters stay exact |
| `TaskDepMan.TaskDepMan.FindRoot` | src/taskdepman.c:447-455 | finds the one task without outgoing edges, or says that there are several |
| `TaskDepMan.TaskDepMan.Verify` | src/taskdepman.c:430-470 | which code is returned, exactly; "fine" exactly for an acyclic graph with one root, and then every task has a path to it |
| `TaskDepMan.TaskDepMan.Start` | src/taskdepman.c:472-496 | starts exactly the graphs that pass, and otherwise hands on which test failed; injects exactly the tasks without prerequisites, each once, and leaves graph and counters as they were |
| `TaskDepMan.TaskDepMan.ReleaseTargets` | src/taskdepman.c:260-275 | counts down each target once and injects exactly those whose counter falls to zero |
| `TaskDepMan.TaskDepMan.OnTaskFinished` | src/taskdepman.c:222-278 | is one step of the scheduler below |
| `Scheduler.StepInv` | src/taskdepman.c:222-278 | each finished task keeps: the counter of every task that still waits is the number of its unfinished prerequisites, tasks are injected exactly when none is left, and never twice |
| `Scheduler.RunKeepsInv` | src/taskdepman.c:222-278 | so does every run, in whatever order the tasks finish |
| `Scheduler.ExactAfter` | src/taskdepman.c:260-275 | a finished task counts down each task that waited for it by one and no other: if every counter, of waiting and of running tasks, is the number of unfinished prerequisites, it still is |
| `Scheduler.CountersAreExact` | src/taskdepman.c:222-278 | so from exact counters every run, at every moment, has every counter equal to the number of unfinished prerequisites |
| `Scheduler.Progress` | src/taskdepman.c:222-278 | while something is left, some injected task is still to finish |
| `Scheduler.DoneRun` | src/taskdepman.c:222-278 | a finished run injected each task exactly once, after all its prerequisites had finished, and reported completion once, with the root, at the very end |
| `Scheduler.RunToTheEnd` | src/taskdepman.c:222-278 | every run can be carried on until it is done |
| `Scheduler.CompletesIffCountsFit` | src/taskdepman.c:222-278 | with counters that are not too low, the plan can be completed exactly when every waiting task counts what it waits for |
| `DepRun.Run` | src/taskdepman.c:222-278 | the manager itself, started and told of finished tasks in any order until none runs: its states are a run of the scheduler; it ends finished exactly when the counters before the start fit, each task then injected once after its prerequisites and completion reported last with the root; from exact counters it always finishes, with exact counters all along |
| `DepRun.RemovedPrerequisiteBlocks` | src/taskdepman.c:327-342 | three tasks added, two dependencies, one prerequisite removed, started: the check passes, and the manager never finishes, in whatever order tasks finish |
| `ThreadEx.StepInv` | src/threadex.c:246-304 | for each state, who may be doing what and which messages have been posted: every step of callers, worker and owner keeps it |
| `ThreadEx.RunInv` | src/threadex.c:451-531 | so does every interleaving |
| `ThreadEx.CallbackOrder` | src/threadex.c:160-219 | the callbacks made are a prefix of started-done, started-cancelling-cancelled or cancelling-cancelled |
| `ThreadEx.WorkerNeverCrashes` | src/threadex.c:267-304 | the worker never meets a state that it is not written for |
| `ThreadEx.StateFollowsDiagram` | src/ythreadex.h:48-75 | the state moves along the documented arrows only, but for the way back when no thread could be created |
| `ThreadEx.RestIsComplete` | src/threadex.c:160-219 | when nothing but a new call can happen, the thread was never touched or all callbacks of one order were made |
| `ThreadEx.RestIsFate` | src/threadex.c:246-304 | at rest the callbacks made are exactly those of the thread's fate, told from the calls made and what the worker did: none if it was never started or cancelled, done if the function returned and nobody cancelled in time, cancelled late or early otherwise |
| `ThreadEx.CancelCancels` | src/threadex.c:501-531 | in any reachable state with the lock free: cancelling a started thread leads to started-cancelling-cancelled whatever follows, cancelling a ready one to cancelling-cancelled, and any other cancellation changes nothing |
| `ThreadEx.StartRuns` | src/threadex.c:451-486 | a ready thread started by either call, and cancelled by nobody, is at rest only when it is done |
| `ThreadEx.CanStart` | src/threadex.c:451-486 | a ready thread can always be started, either way |
| `ThreadEx.DoneUnlessCancelled` | src/threadex.c:501-531 | at rest a thread is done or untouched exactly if no cancellation was taken while it was ready or started |
| `ThreadEx.DoneMeansReturned` | src/threadex.c:246-304 | done is posted only after the user's function returned; at rest it has returned exactly in threads that finished, or were cancelled after the worker had entered it |
| `ThreadEx.StepDoesWork` | src/threadex.c:160-304 | without new calls every step uses up work: the thread comes to rest |
| `MsgQ.StepInv` | src/msgq.c:106-125 | tokens, consumers holding one and producers yet to post make up the queue size after every step; nothing is lost, made up or reordered within a priority |
| `MsgQ.RunInv` | src/msgq.c:106-228 | so in every interleaving of any number of threads |
| `MsgQ.NeverStarved` | src/msgq.c:203-228 | a dequeue never finds the queue empty |
| `MsgQ.HighestThenOldest` | src/msgq.c:203-228 | a dequeue takes the oldest message of the highest priority that has one |
| `MsgQ.FifoPerPriority` | src/msgq.c:106-228 | what was received of one priority is a prefix of what was sent of it |
| `MsgQ.NoLostWakeup` | src/msgq.c:203-228 | a waiting consumer is held up exactly while all that is queued is spoken for or about to be posted |
| `MsgQ.TokensWithinCapacity` | src/msgq.c:106-143 | the semaphore never exceeds the capacity, so posting never blocks |
| `MsgQ.EnqueueAnswers` | src/msgq.c:106-125 | in any reachable state: refused as invalid exactly for an invalid message or priority, refused as full exactly when the messages accepted less those received fill the capacity, and otherwise put at the end of its priority |
| `MsgQ.SentIsWhatFoundRoom` | src/msgq.c:106-228 | the messages sent of each priority are exactly those of the run that were valid and found room, in order; the size is their number less one for each dequeue |
| `MsgQ.StepDoesWork` | src/msgq.c:203-228 | without new messages every step uses up work |
| `MsgQ.RestIsEmpty` | src/msgq.c:203-228 | so in the end all that was accepted has been received, each priority in order |
| `TaskManager.StepInv` | src/taskmanager.c:372-460 | additions, balance calls, starts, completions and cancellations keep each ready list in order, the run queue within its slots, and enough balance calls under way |
| `TaskManager.SlotsUsedWell` | src/taskmanager.c:372-460 | in every interleaving running tasks never exceed the slots, and pending balance calls are at least the smaller of waiting tasks and free slots: at rest no slot idles while a task waits |
| `TaskManager.EachTaskOnce` | src/taskmanager.c:165-259 | no task is in two queues, or twice in one |
| `TaskHistory.WhoWaits` | src/taskmanager.c:165-259 | told from the run: a task waits exactly if it was added, was neither cancelled nor started, and is not in the run queue; as many balance calls are under way as additions and completions owe |
| `TaskHistory.FirstCome` | src/taskmanager.c:184-193 | each ready list is in the order in which its tasks were first added |
| `TaskHistory.AddGoesLast` | src/taskmanager.c:597-610 | a task never added before goes to the end of the list of its priority; one that was is refused |
| `TaskHistory.BalanceTakesTheFirst` | src/taskmanager.c:208-222 | with a task waiting and a slot free a balance call moves the most urgent task, and among those the one added first; otherwise it moves none |
| `TaskHistory.NoneLost` | src/taskmanager.c:372-460 | a task that nobody cancels waits or is in the run queue until it is finished, and there it was started or is about to be |
| `TaskHistory.StartedOnce` | src/taskmanager.c:409-411 | no task is started twice |
| `TaskHistory.FinishFreesItsSlot` | src/taskmanager.c:439-462 | a finished task alone leaves the run queue, and a balance call is owed for its slot |
| `TaskHistory.CancelTakesOut` | src/taskmanager.c:612-631 | cancelling takes a waiting task out of its list and leaves the others in order; a task in the run queue stays there; for any other task nothing changes |
| `TaskHistory.CancelledNeverStarts` | src/taskmanager.c:612-631 | a task cancelled while it waits is never again in a queue and never started, whatever follows |
| `TaskManager.DiesIffCancelledTooSoon` | src/taskmanager.c:409-411 | once all moved tasks have had their start, the process has died of a start that was refused exactly when some task was cancelled between its move to the run queue and its start |
| `TaskManager.NeverDies` | src/taskmanager.c:409-411 | without such a cancellation it never dies of one |
| `TaskManager.CancelInTheWindow` | src/taskmanager.c:612-631 | a concrete run in which it does |
| `TriePath.BytesOfNibbles` | src/trie.c:37-67 | splitting a key into nibbles and joining them again gives the key |
| `TriePath.NibblesOfBytes` | src/trie.c:37-67 | and so does the other way round for paths of whole bytes |
| `TriePath.SameOrder` | src/trie.c:46-48 | the order of nibble paths is the lexicographic order of the keys |
| `Trie.Trie.constructor` | src/trie.c:431-438 | an empty trie stands for the empty map |
| `Trie.Trie.GetNode` | src/trie.c:232-256 | finds the node of a key exactly when every step of the way is there |
| `Trie.Trie.Get` | src/trie.c:367-381 | the value of the map, or none |
| `Trie.Trie.Insert` | src/trie.c:408-429 | updates the map at that key alone, refuses exactly empty keys, empty values and keys that are too long, says whether it replaced a value, and keeps the trie pruned |
| `Trie.Trie.RemoveEmptyByteLeaf` | src/trie.c:142-160 | cuts off the back and then the front node where they have become empty leaves; the map stays |
| `Trie.Trie.RemoveKey` | src/trie.c:168-203 | the result tells whether the key was there and whether the node above must be looked at; elsewhere no empty leaf is left |
| `Trie.Trie.Remove` | src/trie.c:458-466 | takes exactly that key out of the map, says whether it was there, and leaves no dead branch |
| `TrieShape.SomeKeyBelow` | src/trie.c:122-160 | in a pruned trie every node but the root is on the way to a key |
| `Trie.Trie.NodeIffKey` | src/trie.c:232-256 | so the node of a key is there exactly when some stored key extends it |
| `Trie.Trie.IterateInternal` | src/trie.c:303-365 | below a node: every key once, in order, with the right suffix rebuilt in the buffer, and never a buffer error |
| `Trie.Trie.Iterate` | src/trie.c:383-405 | visits the stored keys that extend a prefix, each once, in lexicographic order, all of them unless the callback stops, and then those up to the refused one |
| `TrieOrder.VisitedOnce` | src/trie.c:383-405 | no key is visited twice |
| `Trie.Trie.EqualInternal` | src/trie.c:258-280 | true exactly when the nodes below agree, place by place |
| `Trie.Trie.Equal` | src/trie.c:473-480 | true exactly when both tries have the same keys and values that the comparison, read as the code reads it, calls the same |
| `Trie.Trie.NextByte` | src/trie.c:530-584 | one turn of the search stops where the keys part or one ends, or goes on with the byte that they all share |
| `Trie.Trie.AutoComplete` | src/trie.c:511-593 | writes the longest extension that all keys with the prefix share; leaf exactly for one key, branch for several, fail exactly for none, and the size error exactly when it does not fit |
| `TrieComplete.LongestAt` | src/trie.c:541-556 | two keys that part within the next byte, or one that ends, bound what can be shared |
| `HashTable.SlotInRange` | src/hashl.c:83-96 | the top bits of a hash value name a bucket of the table |
| `HashTable.SlotIsTopBits` | src/hashl.c:83-96 | it is the top bits: what they leave out is less than their last unit |
| `HashTable.MapSizeFits` | src/yhashl.h:98-101 | the number of buckets is a 32-bit word: right up to 31 bits, zero for 32 |
| `HashTable.NoBucketAt32` | src/hashl.c:83-96 | with 32 bits every hash value names a bucket outside the table |
| `HashTable.EntryMoved` | src/hashl.c:129-138 | moving one node to the new table keeps what has been moved without loss or duplicate |
| `HashTable.AllMoved` | src/hashl.c:127-141 | when all nodes have moved the new table holds the same map |
| `HashL.HashL.constructor` | src/hashl.c:150-181 | an empty map, usable exactly with at most 31 bits |
| `HashL.HashL.Init2` | src/hashl.c:150-181 | refuses exactly the numbers of bits out of range, and so not 32, with which the table is not usable |
| `HashL.HashL.MoveAll` | src/hashl.c:122-141 | moves every node to a table of up to 31 bits, which then holds the same map; with 32 bits the first node goes astray, if there is one |
| `HashL.HashL.HRemap` | src/hashl.c:103-143 | changes the number of buckets, within its limits, and nothing of the map, exactly when at most 31 bits are asked for; with more the table is not usable, and a node goes astray exactly if there is one |
| `HashL.RemapTo32` | src/hashl.c:103-143 | a concrete table with one node that breaks when remapped to 32 bits |
| `HashL.HashL.Get` | src/hashl.c:226-236 | the value under the stored key that equals the key, or none |
| `HashL.HashL.Set` | src/hashl.c:194-210 | replaces the node of an equal key, which keeps its stored key, or adds one |
| `HashL.HashL.Remove` | src/hashl.c:212-224 | takes exactly that key out and hands its node back |
| `Hash.Hash.Set` | src/hash.c:219-261 | updates the map, says whether the key is new, grows by one bit exactly when there are more than twice as many nodes as buckets, and keeps the size at most twice the number of buckets plus one; all that exactly unless a table of 31 bits is not empty, whose doubled size wraps to zero, so that it grows to 32 |
| `Hash.GrowTooFar` | src/hash.c:233 | a concrete run of insertions after which one more breaks the table |
| `Hash.Hash.Remove2` | src/hash.c:379-398 | removes the key, says whether it was there, shrinks by one bit exactly when fewer than half as many nodes as buckets are left and the least size is not reached, and keeps the bound on the size |
| `Hash.Hash.Get` | src/hash.c:405-413 | the value, or not found |
| `Hash.Hash.Keys` | src/hash.c:347-357 | lists keys of the map, each once, as many as there are or fit |
| `Lru.Lru.MakeRoom` | src/lru.c:252-266 | evicts the shortest run of oldest entries that makes room, and nothing when the 32-bit sum wraps around |
| `Lru.Lru.Put` | src/lru.c:243-281 | for a key not cached: refuses what is larger than the cache; otherwise the new entry goes to the front and exactly the shortest suffix of oldest entries goes; the size is the sum of the data sizes and within the limit afterwards exactly when the sum before the eviction fits 32 bits; the hash grows too far only from 31 bits |
| `Lru.WrapAround` | src/lru.c:252-266 | a concrete cache filled by two calls whose sum wraps: nothing is evicted and the recorded size is zero |
| `Lru.Lru.Get` | src/lru.c:283-307 | takes the entry out of list and hash and hands its data over, or has the data made |
| `HeapOrder.DownSwap` | src/heap.c:206-223 | sinking past the greater child leaves only the links below that child to be mended |
| `HeapOrder.UpSwap` | src/heap.c:228-238 | rising past the parent leaves only the link above to be mended |
| `HeapOrder.RootIsGreatest` | src/heap.c:349-355 | nothing in a heap is greater than its root |
| `Heap.Heap.Down` | src/heap.c:206-223 | mends the order below a slot; every node stays, and knows its slot |
| `Heap.Heap.Up` | src/heap.c:228-238 | mends the order above a slot; every node stays, and knows its slot |
| `Heap.Heap.Create2` | src/heap.c:279-307 | builds a heap of exactly the given nodes, bottom-up |
| `Heap.Heap.Push` | src/heap.c:337-347 | adds exactly that node |
| `Heap.Heap.Peek` | src/heap.c:349-355 | a greatest node, or none for the empty heap |
| `Heap.Heap.Pop` | src/heap.c:357-368 | takes a greatest node out, and only that one |
| `Heap.Heap.Heapify` | src/heap.c:400-409 | mends the order after a change of one node |
| `HeapOrder.ReplacedIsChanged` | src/heap.c:400-409 | whatever value one node of a heap is given, the slots are then what Heapify asks for |
| `Heap.Heap.Change` | test/heap.c:183-186 | so giving any node any value and calling Heapify leaves a heap of the same nodes |
| `Heap.Heap.PopAll` | test/heap.c:137-139 | popping to empty yields all nodes, the greatest first |
| `TreeOrder.MirroredPre` | src/treel.c:118-170 | pre-order from one side is post-order from the other, backwards |
| `TreeOrder.BfsIsLevels` | src/treel.c:172-205 | working off a queue yields one level after the other |
| `TreeOrder.EachOncePre` | src/treel.c:118-160 | pre-order has each node at or below the top exactly once |
| `TreeOrder.EachOnceLevels` | src/treel.c:172-205 | so has level order |
| `TreeOrder.EachOncePost` | src/treel.c:207-245 | and so has post-order |
| `TreeSorted.PreIsSorted` | src/treel.c:118-170 | told by comparing places: pre-order has each node before those below it, and brothers with all below them from the chosen side |
| `TreeSorted.PostIsSorted` | src/treel.c:207-245 | post-order has each node after those below it, and brothers from the chosen side |
| `TreeSorted.LevelOrderIsSorted` | src/treel.c:172-205 | level order has higher levels first, and each level from left to right |
| `TreeIter.Iterator.constructor` | src/treel.c:280-298 | what is to come is the recursive order of the whole subtree |
| `TreeIter.Iterator.FirstLeaf` | src/treel.c:73-91 | the descent to the first leaf leaves what is to come as it was |
| `TreeIter.Iterator.PreNext` | src/treel.c:118-160 | yields the first of what is to come and prefetches the next by the stack |
| `TreeIter.Iterator.LevelNext` | src/treel.c:172-205 | the same by the queue |
| `TreeIter.Iterator.PostNext` | src/treel.c:207-245 | the same by brothers and parents |
| `TreeIter.Iterator.HasNext` | src/treel.c:316-319 | true exactly while something is to come |
| `TreeIter.Visit` | test/treel.c:86-99 | run to exhaustion, each iterator yields each node once, in the order of its kind and direction as told by comparing places |

## Left out

- Allocation failure, null arguments, the callbacks that free keys and values, and reference counts.
- Region coordinates next to `INT_MIN` and `INT_MAX`, as documented in `src/geo/geo.h` line 73.
- The pointer to the previous rect-band is an offset into the buffer; the C keeps the address across a reallocation.
- Region operands and results are arrays of exactly the region's length; the growth policy of `src/dynb.c` is not modelled.
- `ygeog_diff3` and `ygeog_union3` on two rectangles: the same sweep on two regions of one rectangle each.
- Weak memory: the steps of the ring buffer are sequentially consistent.  Its slots are indices, not byte offsets.
- Progress messages and `pthread_cancel` in `src/threadex.c`; publishing does not take the state lock.
- Cancelling a dependency manager, and its errors after start; injecting the leaves is one step, as on the owner's thread.
- TaskDepMan.TaskDepMan.Verify: requires a task without outgoing edges when there are tasks, because the code reads a null root otherwise.
- Task handles are vertex numbers; listeners, locks around the graph, and the log are not modelled.
- `ytaskmanager_cancel_all`, `ytaskmanager_find_task`, tags by name and queue-event listeners.
- A cancelled ready task keeps its tag and its reference, as in the code; nothing is claimed about references.
- Destroying the message queue and its time stamps.
- `ytrie_copy`, `ytrie_clone`, `ytrie_reset` and `ytrie_getref`: copying is easier than what is modelled.
- Trie.Trie.AutoComplete: requires room for the trailing zero, and a key in the trie when the prefix is empty, because the code asserts it.
- Trie values are numbers that are never null; lengths are not cut to 32 bits.
- Trie.Trie.Iterate: the callback's answer is a function of the calls made so far, which stands for its tag.
- Hash nodes are values in the buckets, so their addresses are not modelled.
- HashL.HashL.Set: the number of nodes is unbounded, where the code has a 32-bit word; `Hash` stays far below 2^32 nodes by itself.
- In C a shift by 32 bits has no defined result; the model takes the low 32 bits of 2^32.  A result of -EFAULT, which the code does not have, stands for a node linked outside the bucket array; nothing is claimed after that.
- The predefined hash functions, comparisons and key copies of `src/hash.c` and `src/hashl.c`.
- Lru.Lru.Put: requires a key that is not cached; for one that is, the code frees a node that stays linked.
- Cache entries are values, so the identity of list nodes is not modelled.
- `yheap_pushpop` and `yheap_poppush`, which take the address of a slot for a node; `yheap_reset` and `yheap_iterates`.
- The heap's static comparison by subtraction, which can overflow.
- Trees do not change while an iterator runs; links are places in the tree rather than addresses.
- `src/crc.c`, `src/statmath.c`, `src/mempool.c`, `src/pool.c`, `src/list.c`, `src/dynb.c`, `src/rx.c`, `src/set.c`: easier members, or arithmetic on doubles.
- Looper, logging, files, statistics output: input and output.
