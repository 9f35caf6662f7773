# Verified models of the libqb engines

libqb is a C library of building blocks for client/server programs: ring buffers,
ordered maps, timers and a main loop, deferred log formatting, a logging thread,
shared-memory IPC and handle databases.  This project models the parts of it whose
correctness is a matter of pointers, indices and interleavings, and proves what
those parts are for.  `dafny verify dfyconfig.toml` checks everything.

| files | engine |
|---|---|
| `RingLayout`, `RingProtocol`, `RingWrites`, `RingDrain` | the chunk ring: word arithmetic and memory; one writer and one reader interleaved at every shared access; what callers asked for is what is committed; readers that get everything |
| `RingReclaim`, `OverwriteRing`, `StaleRing` | the overwriting ring: reclaiming on any memory; the ring as a class over an array; payload that looks like a header |
| `TrieNodes`, `TrieNotify`, `TrieMap`, `KeyOrder`, `TrieIter` | the Patricia trie: node store, notifiers, the map, and iteration |
| `StrCmp`, `SkipLanes`, `SkipList` | the skiplist: lanes, forward arrays and their take-over |
| `HashTable`, `ThreeMaps` | the chained hash table, and all three maps side by side |
| `TimerHeap` | the timer list, a binary heap with back pointers |
| `MainLoop`, `LoopTimers`, `LoopTimes`, `LoopJobs`, `LoopOrder`, `LoopSchedule` | the main loop with timer slots and jobs; slot states; expiries and levels as requested; where jobs are; order of service; accounting and fairness |
| `LogFormat`, `LogPositions`, `LogSpace`, `LogWalkers` | log records: what a format asks for, what each conversion gives back, what the writer does to a buffer of any size, and the walkers that write and read |
| `LogThread`, `LogDrain` | producers, worker and stop of the logging thread; the worker at work |
| `EventWakeup`, `EventDelivery` | events in a ring and wake-up bytes on a socket; every byte owed is sent |
| `GrowArray`, `Handles` | the non-moving array and the reference-counted handles |
| `Common`, `MapTypes` | what the models share |

## How things are modelled

* Trie and skiplist nodes live in a store from addresses to nodes, which the methods
  reassign; a freed node is no longer in the store.  In the trie nothing can be read at an
  address outside the store.  In the skiplist such a read gives NULL, and the invariant
  says that every pointer of a lane leads to a node in the store.
* The two protocols between threads, the ring's writer and reader, and the main loop
  with its callbacks are step machines.  A run is any sequence of actions; an action
  that is not enabled does nothing.  `After(run)` is the state a run leads to, and the
  results are about `After(run)` for every run.
* Memory is sequentially consistent.  Random numbers, clock readings, skiplist levels,
  and whether a socket takes bytes are parameters of methods or of actions.
* Some promises hold of the code only on part of its inputs.  The models keep the code's
  behaviour, and the exact condition is proved: `LogFormat.InStepExactly` with
  `LogFormat.EscapeLosesStep` and `LogFormat.MarkLosesStep`; `LogSpace.ContainedExactly`
  with `LogSpace.ResultTooLong` and `LogSpace.StoredBehind`; `LogThread.LeftBehind` with
  `LogThread.StopCanLoseARecord`; `EventWakeup.BytesAgainstEvents` with
  `EventWakeup.EmptyEventStrandsAByte`; `ThreeMaps.Run` with `TrieMap.MiscountedRemoval`
  for the trie's count; `LoopSchedule.SleepsOnWorkExactly` with
  `LoopSchedule.SleepsOnLeftovers`; `OverwriteRing.Ring.Write` with
  `StaleRing.OverlongOnStale` for chunks longer than the ring.

## Model

| member | source | states |
|---|---|---|
| RingLayout.StoreCell | lib/ringbuffer.c:90-99 | a store through the doubly mapped area changes exactly the addressed cells modulo the ring size, and every other cell keeps its value |
| RingLayout.StepLands | lib/ringbuffer.c:449-469 | stepping over a chunk from an index lands on that index plus the chunk's words, wrapped, for every length and position |
| RingLayout.SpaceFreeMeaning | lib/ringbuffer.c:336-367 | the three-way index computation of the free space is the ring size less the words in use, less one when anything is in use; equal indices mean empty or, with a positive queue length, no space |
| RingLayout.ChunksAppend | lib/ringbuffer.c:66-99 | a chunk laid out directly behind a sequence of chunks extends that sequence by exactly that chunk |
| RingProtocol.HoldsExtend | lib/ringbuffer.c:508-530 | copying one byte further makes the copied prefix one byte longer and nothing else |
| RingProtocol.StepKeeps | lib/ringbuffer.c:409-582 | every single access of writer or reader keeps the invariant that ties indices, memory, semaphore and both program counters to the committed and delivered chunks |
| RingProtocol.After | lib/ringbuffer.c:409-690 | the invariant holds after every interleaving, from a fresh ring of any size |
| RingProtocol.DeliveredIsCommitted | lib/ringbuffer.c:633-690 | in every state of every run the chunks delivered are, in order and byte for byte, the first of those committed, and write_pt equals read_pt only when nothing is unread |
| RingProtocol.ReaderFindsMagic | lib/ringbuffer.c:656-670 | a reader past the semaphore always finds the committed magic |
| RingProtocol.WriterSparesUnread | lib/ringbuffer.c:430-530 | no step of the writer changes a byte of an unread chunk |
| RingProtocol.RefusedIffFull | lib/ringbuffer.c:336-367 | a write is refused if and only if it would not leave the 12-byte margin and, on a non-empty ring, one word more |
| RingWrites.LogIsWhatWasAsked | lib/ringbuffer.c:508-530 | in every run the committed chunks are, byte for byte and in order, the data of the writes that the space check let through, all of them whenever the writer is idle |
| RingWrites.WriteEnds | lib/ringbuffer.c:409-530 | each step of the writer brings a write nearer to its end, whatever the reader does in between |
| RingWrites.WriteGoesOn | lib/ringbuffer.c:409-447 | once the check has been made its outcome stays: a write is refused exactly if there was no room at that moment |
| RingWrites.WriteCompletes | lib/ringbuffer.c:508-530 | a write of d begun by an idle writer ends within the length of d and 9 of its steps, among any steps of readers; the log is unchanged if the ring was full at the check, and otherwise has exactly d behind it; each undelivered chunk has one token |
| RingWrites.RefusedIffTooSmall | lib/ringbuffer.c:672-681 | a read is refused (ENOBUFS) if and only if its buffer is smaller than the chunk at hand, which stays |
| RingWrites.ReadDecides | lib/ringbuffer.c:633-681 | a read with the room asked for starts to copy if and only if the chunk fits; otherwise three steps leave the ring as it was |
| RingDrain.RestMeansDelivered | lib/ringbuffer.c:633-690 | with the reader at rest and no token left, everything committed has been delivered, save the chunk of a writer about to post |
| RingDrain.ServeStep | lib/ringbuffer.c:633-690 | every step of a read brings it nearer to its end or delivers the head of the queue |
| RingDrain.Drained | lib/ringbuffer.c:633-690 | wherever the writer stands, save before its post, as many reads as chunks are queued, with room, deliver everything committed |
| OverwriteRing.KeptIsLongest | lib/ringbuffer.c:418-428 | what survives a reclaim is the longest suffix of the chunks that leaves len + margin free |
| OverwriteRing.HoldingIsSuffix | lib/ringbuffer.c:418-428 | after any sequence of writes the ring holds a suffix of what was written, the last chunk included |
| OverwriteRing.WalkLands | lib/ringbuffer.c:449-469 | following the stored sizes from read_pt over all chunks lands on write_pt |
| OverwriteRing.WriteImage | lib/ringbuffer.c:430-506 | the stores of alloc, memcpy and commit leave the old chunks as they were and add the new one |
| RingReclaim.ReclaimImage | lib/ringbuffer.c:532-582 | the stores of a reclaim leave every chunk but the oldest as it was |
| RingReclaim.FewerMagics | lib/ringbuffer.c:532-582 | on any memory a reclaim leaves fewer words that look like the magic of a header, so that reclaiming comes to an end |
| RingReclaim.DrainedChunks | lib/ringbuffer.c:418-428 | reclaiming without end from the oldest chunk on comes to the place behind the last one, and goes on from there |
| OverwriteRing.CleanDrain | lib/ringbuffer.c:418-428 | unless a word behind the last chunk looks like a header, it stops right there |
| OverwriteRing.Ring.constructor | lib/ringbuffer.c:146-152 | a ring opened for `size` bytes takes any chunk of up to `size` bytes |
| OverwriteRing.Ring.SpaceFree | lib/ringbuffer.c:336-367 | the result is the free space of the chunks held, and never more than the ring |
| OverwriteRing.Ring.Reclaim | lib/ringbuffer.c:532-582 | exactly the oldest chunk goes; on any memory the call is refused with EINVAL if and only if no header, real or apparent, is at read_pt, and otherwise that header is cleared and stepped over |
| OverwriteRing.Ring.MakeRoom | lib/ringbuffer.c:418-428 | the reclaim loop ends on every memory, drops oldest chunks only while room is missing, and fails exactly for a length that the empty ring has no room for |
| OverwriteRing.Ring.Write | lib/ringbuffer.c:508-530 | every chunk that an empty ring could take is accepted and appended behind the chunks kept; a longer one is refused with EINVAL, and leaves a valid, empty ring if and only if reclaiming stops at write_pt, as it does when no apparent header is there |
| OverwriteRing.Ring.WriteAll | lib/ringbuffer.c:409-530 | after any sequence of writes the ring holds exactly what the keep-longest-suffix rule leaves, and the chunk walk lands on write_pt |
| StaleRing.MakeStale | lib/ringbuffer.c:508-582 | two writes and a reclaim that leave an apparent header behind the last chunk |
| StaleRing.OverlongOnStale | lib/ringbuffer.c:409-447 | a chunk too long for that ring is refused, but leaves read_pt beyond write_pt |
| TrieNodes.WalkSound | lib/trie.c:309-345 | a position that the characters of a key lead to spells that key |
| TrieNodes.WalkComplete | lib/trie.c:309-345 | every position in the tree is reached by what it spells, so lookups lose nothing |
| TrieNodes.PathsDiffer | lib/trie.c:309-345 | no two nodes stand for the same key |
| TrieNodes.AddChildKeeps | lib/trie.c:141-169 | a new child changes the value and notifiers of no key |
| TrieNodes.SplitKeeps | lib/trie.c:171-221 | splitting a node, with children, value and notifiers moved, changes them for no key |
| TrieNodes.ExtendKeeps | lib/trie.c:259-268 | extending a fresh leaf's segment changes them for no key |
| TrieNodes.UnlinkKeeps | lib/trie.c:347-384 | releasing an unused leaf changes them for no key |
| TrieNodes.LoadKeeps | lib/trie.c:520-543 | writing a node's value or notifiers changes the entry of its own key and of no other |
| TrieNotify.NotifiedOncePerRegistration | lib/trie.c:587-620 | an update of k calls a notifier, with each event, exactly once for each of its registrations that concern it: with the event of the update if that is asked for and the prefix is a prefix of k (recursive) or k itself; with FREE, if that is asked for, on a replacement or deletion; and otherwise not at all |
| TrieNotify.CallsTell | lib/trie.c:587-620 | every call carries the updated key, the value before and the value after |
| TrieNotify.AllAnnounced | lib/trie.c:587-620 | the calls for an update are all of these, told by the values before and after alone |
| TrieNotify.NoneFreedOnInsert | lib/trie.c:605-617 | no FREE call is made for an insertion |
| TrieNotify.CallsFromNode | lib/trie.c:587-620 | the walk up the parents makes the same calls as going through every prefix of the key |
| TrieMap.Trie.Lookup | lib/trie.c:309-345 | the node and segment offset found are where the key leads; no node if and only if there is none, exact or not |
| TrieMap.Trie.SplitNode | lib/trie.c:171-221 | every key keeps its value and notifiers |
| TrieMap.Trie.Insert | lib/trie.c:223-307 | afterwards a node ends exactly at the key, and every key keeps its value and notifiers |
| TrieMap.Trie.Release | lib/trie.c:347-384 | only nodes without value and notifiers on the way to the released one are freed, none on that way is left bare, and no key's entry changes |
| TrieMap.Trie.Notify | lib/trie.c:587-620 | the calls made are those the registrations demand for the update |
| TrieMap.Trie.Get | lib/trie.c:559-569 | the value a plain map has for the key |
| TrieMap.Trie.CountGet | lib/trie.c:788-793 | the number of keys, less the removals that counted without removing, as a size_t |
| TrieMap.Trie.Put | lib/trie.c:520-543 | the map changes at the key only, the registrations stay, and every registration that concerns the change is called exactly once for each event due (FREE on a replacement, not on an insertion) with the key, the value it had and the value it has |
| TrieMap.Trie.Rm | lib/trie.c:545-557 | the key is gone and no other; true is returned, and counted, exactly when a node ended at the key; a removed value is announced once, as deleted and as freed, to each registration that asked, and an absent key to nobody |
| TrieMap.MiscountedRemoval | lib/trie.c:545-557 | an empty map with one watched key counts SIZE_MAX keys after that key's removal, which is reported as done |
| TrieMap.Trie.NotifyAdd | lib/trie.c:622-682 | EEXIST exactly for a clash; otherwise one more registration at the key and nothing else changes |
| KeyOrder.LessTotal | lib/trie.c:67-68 | the signed-character order of keys is total |
| TrieIter.ChildIsNext | lib/trie.c:81-138 | the first child in child order starts with the least key above its parent |
| TrieIter.SiblingIsNext | lib/trie.c:81-138 | climbing to the next sibling skips no key |
| TrieIter.Successor | lib/trie.c:81-138 | the next node in the walk is the least below the root above the present one |
| TrieIter.NodeNext | lib/trie.c:81-138 | the next live node, or none if and only if none is left under the root |
| TrieIter.UnderPrefix | lib/trie.c:309-345 | the nodes under the node that a prefix leads to, also inside its segment, are exactly those whose keys start with the prefix |
| TrieIter.IterNext | lib/trie.c:740-771 | the least key still to come is returned with its value, or nothing if and only if there is none |
| TrieIter.IterateAll | lib/trie.c:725-786 | a full walk returns each live key (with the prefix, if one is given) exactly once in ascending order with its value, and gives every reference back |
| StrCmp.CompareEqual | lib/skiplist.c:154-171 | strcmp is zero exactly on equal keys |
| StrCmp.CompareTransitive | lib/skiplist.c:154-171 | strcmp orders keys transitively |
| SkipLanes.RankSplits | lib/skiplist.c:173-194 | a sorted lane is split by a key into nodes below it and nodes not below it |
| SkipLanes.InsertLane | lib/skiplist.c:424-437 | linking a node behind its predecessor keeps a lane sorted and linked |
| SkipLanes.RemoveLane | lib/skiplist.c:467-490 | bypassing a node keeps a lane sorted and linked |
| SkipLanes.TakeOver | lib/skiplist.c:493-531 | when the header takes over the removed node's forward array, lanes up to that node's level stay and the ones above become empty, with no array shared, lost or dangling |
| SkipLanes.LanesAreSubsequences | lib/skiplist.c:380-531 | each lane is a subsequence of the one below |
| SkipListMap.SkipList.Lookup | lib/skiplist.c:173-194 | the node of the key, or none if and only if the key is absent |
| SkipListMap.SkipList.Search | lib/skiplist.c:387-421 | the predecessors on every lane in use, or the matching node |
| SkipListMap.SkipList.Get | lib/skiplist.c:533-543 | the value a plain map has for the key |
| SkipListMap.SkipList.CountGet | lib/skiplist.c:585-590 | the number of keys |
| SkipListMap.SkipList.Put | lib/skiplist.c:380-440 | for every level drawn, the map changes at the key only and all lanes stay in order; a new node is on exactly the lanes up to that level |
| SkipListMap.SkipList.Rm | lib/skiplist.c:442-531 | the key is gone and no other, true exactly if it was there, and all lanes stay in order |
| SkipListMap.SkipList.Remove | lib/skiplist.c:476-515 | unlinking and array take-over together remove exactly one key |
| HashTable.HashFnv | lib/hashtable.c:65-80 | the loop computes the FNV hash, folded onto itself and masked to a bucket number |
| HashTable.XorBit | lib/hashtable.c:73-78 | the exclusive or has a bit exactly where its operands differ |
| HashTable.AndBit | lib/hashtable.c:78-78 | the bitwise and has a bit exactly where both operands have it |
| HashTable.ShiftBit | lib/hashtable.c:78-78 | shifting right by n brings bit n + i to place i |
| HashTable.FoldBits | lib/hashtable.c:78-78 | bit i of a bucket number is set exactly if i is below the order and the bits i and order + i of the hash differ |
| HashTable.FnvAppended | lib/hashtable.c:73-77 | one character more is one more turn on the hash of the characters before it |
| HashTable.KnownHashes | lib/hashtable.c:65-80 | the published FNV-1a hashes of "" and "a", and the bucket of "a" among eight |
| HashTable.OrderFor | lib/hashtable.c:483-494 | the table has more buckets than max_size, and at least eight, and no smaller power of two would do |
| HashTable.Removed | lib/hashtable.c:153-173 | taking a node out of a bucket forgets its key and no other |
| HashTable.HashMap.Get | lib/hashtable.c:89-118 | the value a plain map has for the key |
| HashTable.HashMap.Put | lib/hashtable.c:185-235 | the map changes at the key only, and the count with it |
| HashTable.HashMap.Rm | lib/hashtable.c:153-183 | the key is gone and no other, true exactly if it was there |
| HashTable.HashMap.CountGet | lib/hashtable.c:374-379 | the number of keys |
| ThreeMaps.Perform | lib/trie.c:520-569 | one operation keeps the three maps equal, and hash table and skiplist answer like a plain map |
| ThreeMaps.Run | lib/skiplist.c:380-543 | over any run of operations hash table and skiplist give a plain map's answers and counts; the trie differs only where it claims to remove an absent key, and counts one too few for each such answer; with removals of present keys only, all answers and counts agree |
| TimerHeap.UpStep | include/tlist.h:110-133 | one exchange with the parent moves the only violation one level up |
| TimerHeap.DownStep | include/tlist.h:135-184 | one exchange with the smaller child moves the only violation one level down |
| TimerHeap.RootIsLeast | include/tlist.h:451-489 | the root of a heap expires first |
| TimerHeap.DeleteTimers | include/tlist.h:186-217 | replacing an entry by the last one drops exactly that timer |
| TimerHeap.TimerList.SiftUp | include/tlist.h:110-133 | ends, restores the heap, and keeps the timers and their back pointers |
| TimerHeap.TimerList.SiftDown | include/tlist.h:135-184 | ends, restores the heap, and keeps the timers and their back pointers |
| TimerHeap.TimerList.Add | include/tlist.h:280-317 | a heap with exact back pointers and one timer more |
| TimerHeap.TimerList.Delete | include/tlist.h:186-217 | a heap with exact back pointers without that timer, wherever it was |
| TimerHeap.TimerList.Expire | include/tlist.h:451-489 | exactly the timers due before the sampled time fire, once each, the earliest first, and the others stay |
| LoopTimers.StepKeeps | lib/loop_timerlist.c:50-72 | every action of the loop, its timers and its callbacks keeps slots, timer list, job lists and histories consistent |
| LoopTimers.After | lib/loop.c:139-218 | the invariant holds after every run |
| LoopTimers.SlotStates | lib/loop_timerlist.c:50-72 | a slot is ACTIVE if and only if exactly one timer list entry points to it, and JOBLIST if and only if it is queued on its own level or in dispatch |
| LoopTimers.AssertsHold | lib/loop_timerlist.c:50-72 | both assertions of the timer source hold |
| LoopTimers.EveryAddAccountedFor | lib/loop_timerlist.c:179-238 | each add has fired once, or was deleted, or still waits in its slot, and only one of these |
| LoopTimers.DeleteByHandle | lib/loop_timerlist.c:126-152 | a delete succeeds if and only if that very add still waits, whatever became of its slot |
| LoopTimers.NeverFiresAfterDelete | lib/loop_timerlist.c:240-277 | a deleted timer never fires in any continuation |
| LoopTimes.StepAsked | lib/loop_timerlist.c:179-238 | every action keeps slots and timer list in step with the requests: level and expiry of each add are those asked for |
| LoopTimes.FiresAfterExpiry | lib/loop_timerlist.c:50-72 | in every run a timer has fired only after a poll whose clock reading was beyond the expiry requested for that add |
| LoopTimes.ExpiryIsAsRequested | lib/loop_timerlist.c:234-238 | an entry of the timer list has the expiry of the request its slot stands for |
| LoopTimes.PollHandsOverTheDue | include/tlist.h:451-489 | a poll hands over exactly the timers whose expiry is below the clock reading, once each, the earliest first, and leaves the others as they were |
| LoopTimes.OnTheLevelAskedFor | lib/loop_timerlist.c:62-72 | a timer is queued, and dispatched, on the level of its request |
| LoopJobs.OnePlace | lib/loop_job.c:90-165 | a job or descriptor is never in two places at once |
| LoopJobs.AddedIsQueued | lib/loop_job.c:90-120 | an item added is on a list of the level it was added to and of no other |
| LoopJobs.OnTheLevelAskedFor | lib/loop_job.c:47-68 | it is queued, and dispatched, on the level last asked for |
| LoopJobs.DeletedNeverRuns | lib/loop_job.c:122-165 | an item deleted from its level is nowhere, and never runs in any continuation that does not add it again |
| LoopJobs.TimeoutChosen | lib/loop.c:182-201 | the poll timeout is 0 exactly if timers have expired or items were left over, 50 exactly if only jobs have come up, and else reaches to the next timer |
| LoopJobs.PollResults | lib/loop.c:163-181 | what the two polls count: the jobs that waited, and the timers handed over |
| LoopJobs.StopEnds | lib/loop.c:31-53 | a stop inside a callback ends the run of the loop with that callback, until it is begun again |
| LoopOrder.FirstCome | lib/loop_job.c:115-118 | over any stretch of a run, of two items that stay queued on a level, wait list and job list taken together, the one that was first stays first |
| LoopOrder.StepShifts | lib/loop.c:55-75 | items join at the end of their list, and leave by name or from the head of the line |
| LoopOrder.HeadIsServed | lib/loop.c:39-44 | a run of a level dispatches the head of its line |
| LoopOrder.JobIsLast | lib/loop_job.c:115-118 | a job added is the last in line |
| LoopOrder.AtMostFour | lib/loop.c:31-53 | a level is left exactly when its list is empty, when four items have been dispatched in a row, or when the loop was stopped |
| LoopSchedule.StepCounts | lib/loop.c:31-75 | every action keeps the todo counters in step with the job lists |
| LoopSchedule.TodoIsWhatIsQueued | lib/loop.c:31-75 | the todo counters add up to the queued items and the one in dispatch |
| LoopSchedule.NeverSleepsOnWork | lib/loop.c:163-206 | from the second iteration on, or in a run begun with empty lists, the loop never polls up to the next timer while anything is queued |
| LoopSchedule.FirstIterationIgnoresLeftovers | lib/loop.c:139-206 | in the first iteration the loop sleeps if and only if its own polls found nothing, whatever was left over |
| LoopSchedule.SleepsOnWorkExactly | lib/loop.c:163-206 | with work queued the loop polls up to the next timer if and only if it is in the first iteration of a run and its own polls found nothing |
| LoopSchedule.SleepsOnLeftovers | lib/loop.c:139-206 | a run in which it does: a callback stops the loop with an item queued behind it, and the loop is begun again |
| LoopSchedule.RunsEveryThree | lib/loop.c:148-161 | in any 3 m successive iterations each level is run at least m times |
| LoopSchedule.NoStarvation | lib/loop.c:31-53 | an item at index i stays queued for at most k/4 finished runs of its level and 3(k/4+1) iterations, under any load, where k is i and what the run under way has taken |
| LoopSchedule.OrderKept | lib/loop.c:55-75 | no step changes the order of two items that stay queued on a level |
| LoopSchedule.JobsWaitForThePoll | lib/loop_job.c:47-68 | a job added to a wait list reaches the job list only in the next iteration's poll |
| LogFormat.NumberOfBytes | lib/log_format.c:544-551 | a number copied out and back is the same number |
| LogFormat.TextReads | lib/log_format.c:494-503 | rewriting the extended-information mark does not change what a reader takes from the format |
| LogFormat.SettledReads | lib/log_format.c:483-710 | on formats whose first "%%" is followed by no argument, what is read is what was written: same kinds, bytes, values and offsets |
| LogFormat.InStepExactly | lib/log_format.c:714-931 | for every format and argument list the reader looks for each argument where the writer put it if and only if the format is in step |
| LogFormat.OffsetsArePlaces | lib/log_format.c:714-931 | over arguments stored by their kinds, a reader that goes by these kinds finds each one where it was stored |
| LogFormat.PlainIsInStep | lib/log_format.c:483-710 | every format without "%%" and without a trailing mark is in step |
| LogFormat.EscapeLosesStep | lib/log_format.c:698-705 | "%%d" is not: the writer takes an int that the reader does not |
| LogFormat.MarkLosesStep | lib/log_format.c:494-503 | neither is "%d" with a mark behind it: the reader looks one byte too early |
| LogFormat.InStepImage | lib/log_format.c:483-710 | the record of a format in step is its text, its arguments and bytes the reader never looks at |
| LogPositions.ScanKnows | lib/log_format.c:506-543 | the running state of the walkers at a place of the format is what the characters before it say: inside a conversion, a length modifier seen, and the decimal value of the precision digits |
| LogPositions.KindsByPlace | lib/log_format.c:506-697 | the arguments taken are those of the conversions, in order, each of the kind its character and length modifier say |
| LogPositions.DecimalOfNumeral | lib/log_format.c:538-541 | the value read from the digits of a number is that number |
| LogPositions.AllGivenBackInStep | lib/log_format.c:483-931 | for every format in step each argument comes back as its conversion says: numbers, doubles and pointers unchanged, a character as its low byte, a string as its prefix of the precision in force or whole, NULL as "(null)" |
| LogSpace.OverrunExactly | lib/log_format.c:665-687 | for every argument list and buffer: something is stored behind the buffer if and only if the first two conversions left when it is full are strings, and the result exceeds its length if and only if there are some and all are strings |
| LogSpace.ContainedExactly | lib/log_format.c:483-710 | stores and result keep to the buffer if and only if the conversions left when it is full do not start with a string, or start with one that an argument of fixed size follows |
| LogSpace.MemoryBehind | lib/log_format.c:483-710 | bytes behind the buffer are unchanged, whatever they were, when no store leaves it; otherwise a terminator is found at the end of the highest store |
| LogSpace.WholeRecord | lib/log_format.c:483-710 | a record that fits is in the buffer whole, and the result is its length |
| LogSpace.ResultTooLong | lib/log_format.c:665-687 | "%s" in a buffer of 3 bytes with a string s gives the result 4 + its length |
| LogSpace.StoredBehind | lib/log_format.c:665-687 | "%s%s" in a buffer of 5 bytes stores the second string behind it, with the exact place |
| LogWalkers.MyStrlcpy | lib/log_format.c:468-474 | the copy, terminated, and the number of characters written; for a limit of 0 nothing is copied and the length of the source returned |
| LogWalkers.SaveArg | lib/log_format.c:544-697 | each argument case stores what the room lets through and goes on, except that an argument of fixed size without room stops the writer |
| LogWalkers.SaveString | lib/log_format.c:665-687 | a string is cut to precision and room; in a full buffer it is passed over, and past the end stored without limit |
| LogWalkers.Serialize | lib/log_format.c:483-710 | for every buffer size, the memory and the result that LogSpace describes; when the record fits, it is in the buffer whole, each argument at the stated offset |
| LogWalkers.LoadArg | lib/log_format.c:770-922 | each argument case reads back the argument, a string as far as it was kept |
| LogWalkers.Deserialize | lib/log_format.c:714-931 | from the record alone, the arguments written; they are looked for at the places of InStepExactly, which are the offsets they were written at |
| LogWalkers.RoundTrip | lib/log_format.c:483-931 | write then read gives back each argument as its conversion in the format says, unchanged or, for a string, cut to the decimal value of the precision digits, at the writer's offsets |
| LogThread.StepKeeps | lib/log_thread.c:58-106 | every step of producers, worker and stop keeps the token, memory, order and fate invariants |
| LogThread.After | lib/log_thread.c:217-263 | they hold after every interleaving |
| LogThread.MemoryWithinLimit | lib/log_thread.c:242-256 | whenever the lock is free memory_used is the total size of the queued records and at most 512000 |
| LogThread.NeverTakesFromEmpty | lib/log_thread.c:78-95 | the worker never takes from an empty list, the extra token of stop included |
| LogThread.NothingUnaccounted | lib/log_thread.c:58-106 | records are written in the order queued, and offered = dropped + written + queued |
| LogThread.DroppedIffOverLimit | lib/log_thread.c:242-256 | a message is dropped if and only if it would take the queue over the limit |
| LogThread.RestMeansWritten | lib/log_thread.c:68-76 | a worker that waits while nobody is about to post has written everything |
| LogThread.LeftBehind | lib/log_thread.c:78-86 | an exiting worker leaves the records of producers about to post, and one more if stop has not posted: all is flushed if and only if stop has posted and no producer is about to |
| LogThread.GoneForGood | lib/log_thread.c:78-86 | a worker that has left writes nothing any more |
| LogThread.StopCanLoseARecord | lib/log_thread.c:298-303 | a run in which stop returns and a queued record is never written |
| LogDrain.QueuedIsWhatWasOffered | lib/log_thread.c:217-256 | the records queued are those of the producers that passed the limit test, in order, and those written are the first of them |
| LogDrain.ServeOne | lib/log_thread.c:68-106 | a turn of the worker writes the oldest record, gives its memory back and reports what was dropped |
| LogDrain.WorkerDrains | lib/log_thread.c:68-106 | from every reachable state with a waiting worker and nobody inside the lock or about to post, as many turns as records are queued write them all, and the worker waits again |
| LogDrain.StopFlushes | lib/log_thread.c:298-303 | once stop has posted and no producer is about to, everything queued is written before the worker leaves |
| EventWakeup.StepKeeps | lib/ipcs.c:338-388 | every access of server and client keeps the accounts of events, bytes and debts |
| EventWakeup.After | lib/ipcs.c:390-431 | they hold after every interleaving |
| EventWakeup.WakeupsConserved | lib/ipcs.c:338-431 | events committed = bytes sent + outstanding_notifiers, and POLLOUT is armed if and only if some are outstanding |
| EventWakeup.AssertsHold | lib/ipcs.c:355-372 | outstanding_notifiers is never negative |
| EventWakeup.BytesAgainstEvents | lib/ipcc.c:452-476 | the exact balance of unread bytes and events, empty events included |
| EventWakeup.NeverMoreBytesThanEvents | lib/ipcc.c:452-476 | unless events of length 0 are sent, an idle client never sees more unread bytes than unread events |
| EventWakeup.ByteWillCome | lib/ipcc.c:468-474 | a client that waits for the byte of an event has it in the socket or owed by a server that will send it |
| EventWakeup.NoEventUnannounced | lib/ipcs.c:338-388 | an event unread while both sides rest has a byte in the socket or POLLOUT armed |
| EventWakeup.EmptyEventStrandsAByte | lib/ipcc.c:468-474 | an event of length 0 leaves its byte behind |
| EventDelivery.DebtsArePaid | lib/ipcs.c:338-363 | from every reachable state with the server at rest and bytes owed, a writable socket, or an event that the ring refuses, leads in owed + 3 steps to rest with all of them sent, nothing owed and POLLOUT disarmed |
| EventDelivery.NewEventPaysToo | lib/ipcs.c:364-376 | so does a new event, whose own byte is sent with them |
| EventDelivery.NewEventAnnounced | lib/ipcs.c:374-387 | with nothing owed its byte is sent at once, or owed with POLLOUT armed when the socket is full |
| EventDelivery.WaitingClientIsServed | lib/ipcc.c:468-474 | from every reachable state a client that waits for its byte gets it by steps of the server, one writable socket at most and its own receive |
| EventDelivery.EventsInOrder | lib/ipcs.c:390-431 | events are taken in the order they were sent, and the empty ones among them are those that take no byte |
| GrowArray.GrowingArray.Grow | lib/array.c:216-240 | fails only over the maximum, and no element moves |
| GrowArray.GrowingArray.Index | lib/array.c:111-181 | an index ever answered is answered with the same address for good; out-of-range and invalid exactly as documented by the error codes |
| GrowArray.GrowingArray.NoAliases | lib/array.c:58-73 | no two elements share an address |
| Handles.Changed | lib/hdb.c:57-220 | a change to one handle and its slot leaves every other handle's slot, count and instance in order |
| Handles.Released | lib/hdb.c:184-191 | dropping the last reference frees the instance and clears the slot and disturbs no other handle |
| Handles.Database.Create | lib/hdb.c:57-126 | a new handle with a new instance and one reference, or failure only when every possible slot is taken |
| Handles.Database.Get | lib/hdb.c:128-157 | a checked handle is good from creation to destruction and never through a reused slot; the reference is counted |
| Handles.Database.Put | lib/hdb.c:166-194 | one reference less, and the instance is freed exactly with the last |
| Handles.Database.Destroy | lib/hdb.c:196-220 | the handle is dead at once, and its instance freed when the gets still out are put back |
| Handles.Database.IteratorNext | lib/hdb.c:254-280 | the next live handle with a reference to it, skipping none |
| Handles.FreedOnce | lib/hdb.c:166-220 | an instance is freed exactly once if its handle is destroyed and every get put back, and otherwise never |

## Left out

- Shared memory, files, sockets, credentials, poll drivers, signals, syslog and journal: only the counting semaphore and the byte channel are modelled.
- qb_rb_space_used: its wrapped branch counts one word more than the other, so that used + free is not constant.
- Overwriting rings with a semaphore: a reclaim takes no token, so that a drained ring can read as full.
- Ring reads without a semaphore behind the last chunk: only the magic word is checked, and old payload can look like a header.
- Removal of the semaphore while a reader waits (EIDRM), peek with a separate reclaim, and rings of 4 GiB and more.
- OverwriteRing.Ring.WriteAll: states what runs of chunks leave that an empty ring could take; a longer one among them may leave the indices apart, see StaleRing.OverlongOnStale.
- Failing allocations, the growth of the timer heap's array by realloc, and the statistics num_nodes and mem_used of the trie.
- Empty keys in the trie, notify_del, notifier callbacks that change the map, and changes to a map while iterators are live (all three maps).
- Notifications and iterators of skiplist and hash table.
- HashTable.HashMap.Rm: does not model reference counts, which are 1 without live iterators.
- HashTable.OrderFor: sizes of 2^30 and more, for which the shift that gives the bucket count overflows an int and is undefined.
- MainLoop, LogThread, EventWakeup and RingProtocol are step machines on values, because other threads and callbacks act between any two steps; update in place is not captured there. In the main loop a timer list is a set of entries of which the earliest due one expires; its array form is TimerHeap.
- Absolute timers, timers whose callbacks change the list during expiry inside TimerHeap (the step machine allows them), qb_loop_poll_mod changing the priority of a queued entry, and deleting with a check of 0.
- Timer checks and handle checks are assumed new and non-zero, as the random source almost always makes them.
- The poll source of the main loop: descriptors add to job lists only while polling.
- LogWalkers.Serialize: records of 4 GiB and more, for which the 32-bit location wraps around; precisions of 2^64 - 1 and more; a buffer of no bytes at all, in which the code looks for the mark all the same.
- The bare child that trie_insert makes for the terminator of a key ending inside a segment is never released; how many nodes a trie keeps is not modelled.
- LogWalkers.Deserialize: the text that snprintf produces and the 20-byte buffer for a single conversion are not modelled, only which argument is taken from where.
- Log records larger than an int can count, and draining the queue by stop when the thread was never active.
- Wake-up sends that fail for other reasons than EAGAIN, flow control and disconnection.
- Log filters, connection statistics, the replacement semaphore, stopwatch and strlcat.
