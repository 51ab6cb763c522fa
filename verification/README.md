# Verified models of the repository's core programs

The repository is a collection of small C programs. This project models the ones whose correctness
is not obvious and proves what they are for. Each module stands for one program or component; the
programs update memory in place, so most of them are classes, arrays and linked nodes with methods
proved against a specification on values.

| file | program |
|---|---|
| `Streams.dfy`, `FlowSpec.dfy`, `FdRing.dfy`, `FlowTable.dfy`, `Reassembly.dfy`, `CaptureResult.dfy` | tcpflow: TCP segments written at their sequence offset into one file per flow, with a bounded ring of open files |
| `Calculator.dfy` | the two-stack expression evaluator |
| `SkipList.dfy` | the skip list |
| `BufferList.dfy`, `Relay.dfy` | the proxy's chain of recycled chunks and the paired connections that use it |
| `FileEvents.dfy`, `Timers.dfy` | the event loop: file events over epoll, select and kqueue, and the timer list |
| `Bytes.dfy`, `CInt.dfy` | bytes, and C's division of int, for the modules that need them |
| `HappyNumber.dfy` | both happy-number tests, by seen list and by two speeds |
| `Fenwick.dfy`, `Sieve.dfy`, `QuickSort.dfy` | the binary indexed tree, the prime sieve, the quicksort |
| `Bst.dfy`, `CopyList.dfy`, `KGroup.dfy` | the binary search tree with parent links, the copy of a list with random pointers, the k-group reversal |

`dafny verify dfyconfig.toml` checks everything.

## Main results

- **tcpflow.** `FlowTable.Capture.StorePacket` and `CaptureAll` say that, after any run of segments over
  any number of flows, the records and files are those of `FlowSpec`, a plain map in which every file
  is always open. Eviction, reopening with `r+` or `w`, sorting and shrinking the ring cannot be seen; which
  flows an open closes is exact as well (`FdRing.OpenTakesNext`, `FdRing.OpenEvictsOldest`), and over a run
  it is those whose last segments came first (`FdRing.OpenEvictsByUse`).
  `Reassembly.StreamReassembled` says what such a file contains: the stream, whatever the order, overlap
  and duplication of its segments, with zeros in the gaps (`CaptureResult.CaptureTrace` says it of the file on the
  disk); `Reassembly.LimitedFile` says the same for a byte limit. The hash table refines a map, the cached position is the real one, at most
  `max_fds` files are open, and the retry loop ends because a full descriptor table always leaves
  something to close.
- **Evaluator.** `Calculator.ComputesMeaning`: every well-formed expression is evaluated to the meaning of
  its syntax tree, and no empty stack is popped, except that a bare number prints an unset slot.
- **Skip list.** `SkipList.List.PerformAll` and `SkipList.RunOnBag`: over every run the lanes behave as one sorted
  list, and the list as a multiset of values, up to a deletion that reads through a null pointer; that
  happens exactly when every stored value is smaller than the one to delete.
- **Proxy.** `BufferChain` refines a byte queue; `Relay.Pair.Serve` keeps, in both directions and
  over every interleaving, that the bytes sent followed by the bytes queued are the bytes received, and ties
  both connections to the sequence of events; `Relay.FreedWhen` says when they are freed.
  `Relay.FalseEnd` says when a living stream is taken for an ended one.
- **Event loop.** `FileEvents.CreateExact` says exactly which registrations keep mask table, largest descriptor
  and kernel together, `RunExact` which runs do so in every state, `CreateAdds` when a registration succeeds and what
  it adds. `Timers.ScanRuns` says which timers
  a pass runs, `Timers.FireExact` what each leaves, `Timers.EndsExactly` when a pass ends at all, and `Timers.MissingExact` when the poll timeout is right.
- **Algorithms.** Termination and correctness of Floyd's walk on the happy-number orbit, the entries a Fenwick
  update visits, a list copy isomorphic to its original, tree deletion in all three cases, a quicksort that
  may call itself on the same range, group reversal by relinking, and a sieve guarded by `dp[i*i]`.

## Where the code falls short of its purpose

Each is stated with the exact condition under which the code does what it should.

- `calculate.c:122-123` leaves the loop before a number standing alone is pushed, so `5=` prints a slot that was
  never set (`Calculator.ComputesMeaning`).
- `skiplist/skiplist_full_complete.c:92` reads `q->value` although `q` is null when every stored value is smaller
  than the target (`SkipList.List.Delete`, outcome `NullDereference`).
- `unp/tcpflow/tcpip.c:306` drops segments numbered at most 64K before the first one, and so also those of a stream that
  starts at position 0xffff0000 or later (`Reassembly.DroppedSlice`).
- `redis_ae/tcpproxy/util.c:118-128`: after the last chunk is filled and the first one is recycled, the write node
  is full but not the tail, and stays so: the chain is stuck, hands out buffers of length 0, and a
  receive of length 0 is taken for the end of the stream. `BufferChain.BufferList.Pop` says exactly when a pop gets
  the chain stuck, and `Relay.FalseEnd` that a stream that has neither failed nor ended is taken for an ended one exactly
  then; `Relay.GetStuck` brings a new pair into that state with three full reads and one write, and `Relay.LoseStream`
  shows the next read marking the client to be closed. The `head == NULL` branch of `util.c:168-173` cannot be reached.
- `redis_ae/tcpproxy/ae.c:98-113`: registering an empty mask for an idle descriptor leaves epoll with an entry the table does
  not know, and can raise `maxfd` to a descriptor without events; a kqueue that accepts the read filter and refuses
  the write filter leaves the read filter behind (`FileEvents.Harmless`, exact by `CreateExact` for one call and by
  `RunExact` for a run).
- `redis_ae/tcpproxy/ae_select.c:53-65` reports every registered descriptor once anything is ready, with an empty mask
  when nothing of it is (`FileEvents.ScanReports`).
- `redis_ae/tcpproxy/ae.c:149-161`: a negative interval leaves a deadline with negative milliseconds exactly when the
  clock's milliseconds do not make up for them (`Timers.AddIsExact`). The nearest timer is the first in the order of
  the code; `Timers.NearestExact` says exactly when that is the earliest in time, `Timers.NearestNotEarliest` gives two
  timers for which it is not. With intervals that are not negative every deadline stays proper and it always is
  (`Timers.ScanPunctual`, `Timers.NearestIsEarliest`).
- `redis_ae/tcpproxy/ae.c:320-328`: the sleep should last until the deadline, and be none if that is past.
  It does so exactly when a deadline ahead has milliseconds at most 1000 behind the clock's, and a past one
  was missed by full seconds or has milliseconds that far behind (`Timers.MissingExact`).
- `redis_ae/tcpproxy/ae.c:268-269`: a timer whose callback does not delete it is due again in the same pass exactly when the callback
  re-arms it with an interval that is not positive (`Timers.DueAgain`). For callbacks that always return
  the same and delete no timer, and a clock that stands still, the pass ends exactly when no timer that is due re-arms like that
  (`Timers.EndsExactly`); otherwise it is unfinished after any number of turns (`Timers.NeverEnds`).

Two source texts do not compile as they stand (prose around the code, and in `linklist/reverslinklist_K_group.c:45` a comment that is
never closed); they are read as the code they plainly contain.

## Model

| member | source | states |
|---|---|---|
| Streams.WriteAt | unp/tcpflow/tcpip.c:334-353 | Seek and write, byte by byte: the data at its offset, the old content elsewhere, zeros in a hole, and nothing at all for an empty write |
| FdRing.SortedIsSorted | unp/tcpflow/flow.c:221-243 | The sorted ring runs from the least to the most recently used flow, empty slots last |
| FdRing.SortedPermutes | unp/tcpflow/flow.c:241-243 | Sorting loses and duplicates no slot |
| FdRing.SortIsUnique | unp/tcpflow/flow.c:221-239 | Slots sorted by age are the same sequence whatever the sort: no two flows share a time |
| FdRing.AnySort | unp/tcpflow/flow.c:241-243 | Any rearrangement of the ring that is sorted by age, however qsort makes it, is the sorted ring |
| FdRing.FirstIsOldest | unp/tcpflow/flow.c:221-243 | The first slot of the sorted ring is the least recently used of the ring |
| FdRing.CloseKeeps | unp/tcpflow/flow.c:204-217 | Closing a file keeps the agreement of flow states and open streams |
| FdRing.OpenBound | unp/tcpflow/flow.c:168-194 | At most max_fds files are open |
| FdRing.RingNotDry | unp/tcpflow/flow.c:271-276 | When two files are open the ring has a flow to evict, so the die branch is not reached |
| FdRing.ContractSlots | unp/tcpflow/flow.c:278-289 | A contraction leaves at least one slot, all slots in use and distinct, and a strictly smaller ring |
| FdRing.ContractKeeps | unp/tcpflow/flow.c:266-290 | A contraction keeps the invariant and changes no record |
| FdRing.FopenFlows | unp/tcpflow/flow.c:109-126 | Reopening never meets a missing file; a successful fopen keeps flows and streams in agreement |
| FdRing.PlaceKeeps | unp/tcpflow/flow.c:180-199 | Taking a slot restores the invariant: open files in distinct slots, positions true |
| FdRing.PlaceRecords | unp/tcpflow/flow.c:180-199 | Taking a slot changes no record but that of the flow opened |
| FdRing.TouchKeeps | unp/tcpflow/flow.c:98-102 | The stamp of a look-up keeps the invariant |
| FdRing.LookUpIsLatest | unp/tcpflow/flow.c:64-102 | Finding or creating a flow makes it the most recently used; every other flow is unchanged |
| FdRing.CreateKeeps | unp/tcpflow/flow.c:64-87 | A new flow state, stamped with a fresh time, keeps the invariant |
| FdRing.WriteKeeps | unp/tcpflow/tcpip.c:334-356 | Seek, write and remembering the position keep the cached position equal to the real one |
| FdRing.WriteRecords | unp/tcpflow/tcpip.c:326-356 | A write changes the record of its flow as a write to the plain file does, and no other |
| FdRing.CloseFinished | unp/tcpflow/tcpip.c:358-361 | Closing a flow that reached its limit keeps the invariant |
| FdRing.Contracted | unp/tcpflow/flow.c:141-151 | With every descriptor in use the ring can be contracted, gets smaller, and shows the same records |
| FdRing.OneMoreWhileOpening | unp/tcpflow/flow.c:176-190 | While a file is being opened at most one file more than max_fds is open |
| FdRing.OpenStep | unp/tcpflow/flow.c:141-157 | One turn of the retry loop either opens the file or shrinks the ring, and the final outcome is the same |
| FdRing.OpenKeeps | unp/tcpflow/flow.c:129-200 | Opening ends with the flow open in the ring, its file kept if it existed and empty otherwise, all other records as before |
| FdRing.OpenTakesNext | unp/tcpflow/flow.c:176-199 | Before the ring wraps an open that finds a descriptor free closes exactly the flow in the next slot, if any, and takes that slot |
| FdRing.OpenEvictsOldest | unp/tcpflow/flow.c:140-199 | Any other open closes exactly the least recently used flows of the ring, by time of last access, and takes the place of the last: one flow with a descriptor free, else those up to the first open one and one more |
| FdRing.OpenEvictsByUse | unp/tcpflow/flow.c:98-199 | Over a run these are the flows of the ring whose last segments came first in the trace |
| FdRing.UseStep | unp/tcpflow/flow.c:64-102 | Storing a segment is a use of its flow and no other: times of last access order the flows by their last segments |
| FdRing.StoreCloses | unp/tcpflow/tcpip.c:326-361 | After every segment the file of a flow that reached its limit is closed |
| FdRing.ContractCloses | unp/tcpflow/flow.c:266-290 | A contraction closes exactly the least recently used flow of the ring, and frees a descriptor if its file was open |
| FdRing.ContractOrder | unp/tcpflow/flow.c:278-289 | What a contraction leaves is the rest of the ring, oldest first, with every slot in use |
| FdRing.LookUpKeeps | unp/tcpflow/tcpip.c:290-293 | Finding or creating the flow refines the look-up in the plain map |
| FdRing.WriteSegmentKeeps | unp/tcpflow/tcpip.c:326-361 | Cutting at the limit, writing and closing refine the write to the plain file |
| FdRing.StoreRefines | unp/tcpflow/tcpip.c:283-362 | The cache is invisible: storing a segment through the ring refines storing it in a map with unlimited open files |
| FdRing.StoreElsewhere | unp/tcpflow/tcpip.c:283-362 | Storing a segment touches no file but that of its flow |
| FlowTable.HashFlow | unp/tcpflow/tcpflow.h:100-103 | The bucket index is within the table |
| FlowTable.HashTable.constructor | unp/tcpflow/flow.c:48-49 | All buckets empty: the empty map |
| FlowTable.HashTable.Add | unp/tcpflow/flow.c:64-87 | Prepending to the bucket adds one state to the map, with its initial contents |
| FlowTable.HashTable.Find | unp/tcpflow/flow.c:93-105 | The chained search finds the state of the flow, or null exactly when the map has none |
| FlowTable.Qsort | unp/tcpflow/flow.c:224-243 | Sorting the ring by flow_state_compare gives the sorted slots, and their states move with them |
| FlowTable.Capture.constructor | unp/tcpflow/flow.c:33-53 | Empty table and ring, no flow seen, a ring of the limit less the five reserved descriptors |
| FlowTable.Capture.CreateFlowState | unp/tcpflow/flow.c:64-87 | The new state is in the table, later than every other, and the time moves on |
| FlowTable.Capture.FindFlowState | unp/tcpflow/flow.c:93-105 | Finds the state, which is then the most recently used, or changes nothing |
| FlowTable.Capture.CloseFile | unp/tcpflow/flow.c:206-217 | Closes the stream and forgets pointer and position; says whether there was one |
| FlowTable.Capture.SortFds | unp/tcpflow/flow.c:241-259 | The ring in memory becomes the sorted ring |
| FlowTable.Capture.ShiftRing | unp/tcpflow/flow.c:281-289 | The shifting loop drops the first slot, keeps those in use in order, and sets max_fds to their number |
| FlowTable.Capture.ContractFdRing | unp/tcpflow/flow.c:266-290 | Sort, close the oldest, shift: refines the contraction of the ring |
| FlowTable.Capture.AttemptFopen | unp/tcpflow/flow.c:109-126 | r+ for a file that exists, w otherwise; the pointer is set exactly on success |
| FlowTable.Capture.ChooseSlot | unp/tcpflow/flow.c:180-186 | The next slot, or after a wrap the first of the sorted ring |
| FlowTable.Capture.EvictSlot | unp/tcpflow/flow.c:188-190 | Whatever holds the slot is closed; the flow being opened stays open at its position |
| FlowTable.Capture.TakeSlot | unp/tcpflow/flow.c:188-197 | The flow takes the slot and is marked as existing |
| FlowTable.Capture.FopenRetrying | unp/tcpflow/flow.c:140-157 | The retry loop terminates with the file open and leads to the same final state |
| FlowTable.Capture.OpenFile | unp/tcpflow/flow.c:129-200 | open_file as a whole, with its early return for a file already open |
| FlowTable.Capture.SeekAndWrite | unp/tcpflow/tcpip.c:334-356 | Seeks only when the cached position differs, writes, remembers the position |
| FlowTable.Capture.WriteData | unp/tcpflow/tcpip.c:326-361 | Cuts at the limit, marks the flow finished, writes and closes |
| FlowTable.Capture.StoreInFlow | unp/tcpflow/tcpip.c:295-362 | The guards, the offset modulo 2^32, the opening and the write |
| FlowTable.Capture.StorePacket | unp/tcpflow/tcpip.c:283-362 | The records afterwards are those of the plain map; at most max_fds files open; no other file on the disk touched; finished flows closed; the times of last access follow the trace |
| FlowTable.Capture.CaptureAll | unp/tcpflow/tcpip.c:283-362 | The same records and order of use over every run of segments |
| FlowTable.Capture.UseInMemory | unp/tcpflow/flow.c:64-102 | The times of last access of the states in memory order the flows by their last segments |
| Reassembly.PayloadLength | unp/tcpflow/tcpip.c:107-130 | What process_ip and process_tcp pass on is between 1 and 65535 bytes |
| Reassembly.PayloadOf | unp/tcpflow/tcpip.c:72-175 | For a packet with the given header lengths and n bytes of data: those n bytes, or nothing exactly for a short capture, a later fragment, no data, or no room for a TCP header |
| Reassembly.EarlyExactly | unp/tcpflow/tcpip.c:299-308 | Dropped are exactly the segments numbered 1 to 65536 before the first one |
| Reassembly.DroppedSlice | unp/tcpflow/tcpip.c:303-309 | A slice of the stream is dropped exactly when it starts at position 0xffff0000 or later |
| Reassembly.NoWrap | unp/tcpflow/tcpip.c:299-308 | The window guard and the 16-bit length keep offset + length below 2^32 |
| Reassembly.OffsetOf | unp/tcpflow/tcpip.c:299-301 | The subtraction modulo 2^32 recovers the position in the stream across a wrap |
| Reassembly.ReassembledStep | unp/tcpflow/tcpip.c:299-356 | One more slice, in any order and with any overlap, keeps the file reassembled |
| Reassembly.StreamReassembled | unp/tcpflow/tcpip.c:283-362 | Without a limit, for streams of any length, the file equals the stream wherever some segment that is not dropped covers it, is zero in gaps and ends with the last covered byte |
| Reassembly.StreamComplete | unp/tcpflow/tcpip.c:283-362 | A stream of up to 0xffff0000 bytes of which every byte was captured is the content of the file |
| Reassembly.FinishesNow | unp/tcpflow/tcpip.c:311-332 | A flow becomes finished exactly with a segment that starts at or below the limit and ends beyond it |
| Reassembly.LimitedFile | unp/tcpflow/tcpip.c:311-332 | With a limit the file is the unlimited one of the segments up to the first that finishes the flow, cut at the limit |
| CaptureResult.StreamOnDisk | unp/tcpflow/tcpip.c:283-362 | After a trace without a byte limit the file on the disk is the reassembled stream of its flow |
| CaptureResult.CaptureTrace | unp/tcpflow/tcpip.c:283-362 | The whole program on a trace: every flow whose segments are slices of a stream has that stream in its file; the flow states in memory are ordered by their last segments |
| Calculator.Turn | calculate.c:120-153 | A turn that keeps the character makes the operator stack lower: the termination measure |
| Calculator.ReadDigits | calculate.c:125-129 | A run of digits is collected into one number |
| Calculator.PushFactor | calculate.c:120-153 | Reading a factor pushes its meaning and leaves both stacks as they were below it |
| Calculator.PushTerm | calculate.c:71-75 | The same for a term: products bind tighter and associate to the left |
| Calculator.PushExpression | calculate.c:66-70 | The same for an expression: sums associate to the left |
| Calculator.PushBinary | calculate.c:146-151 | With both operands pushed the next character triggers the operator on them, in order |
| Calculator.ComputesMeaning | calculate.c:120-155 | Every well-formed expression prints its meaning, in which + - * / are the four operations with the left operand first; a bare number prints an unset slot |
| Calculator.Evaluate | calculate.c:111-155 | The loop over stacks and buffer computes the run of the machine, and so the meaning |
| Calculator.OneReading | calculate.c:64-82 | Texts that are equal have equal meanings: the priorities leave no second reading |
| Calculator.WriteMeans | calculate.c:64-92 | Writing a tree with the needed parentheses keeps its value |
| Calculator.ReadsBack | calculate.c:120-155 | Every tree with an operator, written out, is evaluated to its own value |
| SkipList.WithLinked | skiplist/skiplist_full_complete.c:142-145 | A lane the new node does not take part in stays linked |
| SkipList.Splice | skiplist/skiplist_full_complete.c:142-145 | Linking a node into one lane after the last smaller node links the whole lane |
| SkipList.Unlink | skiplist/skiplist_full_complete.c:93-97 | Unlinking a node from one lane, if it takes part, links what is left |
| SkipList.Link | skiplist/skiplist_full_complete.c:141-145 | The loop over the lanes of a new node links all of them and keeps the others |
| SkipList.Unlace | skiplist/skiplist_full_complete.c:93-97 | The loop over the lanes in use takes the node out of each |
| SkipList.FillUp | skiplist/skiplist_full_complete.c:135-139 | Lanes not in use so far start at the head |
| SkipList.Lower | skiplist/skiplist_full_complete.c:99-103 | The level is counted down to the number of lanes still in use |
| SkipList.UsedBelow | skiplist/skiplist_full_complete.c:34-37 | The lanes in use are exactly those below the height of the tallest node |
| SkipList.TallestWith | skiplist/skiplist_full_complete.c:135-139 | Adding or removing one node changes the number of lanes in use accordingly |
| SkipList.Along | skiplist/skiplist_full_complete.c:81-90 | One lane of the descent ends at the last node of the lane whose value is smaller |
| SkipList.SearchLane | skiplist/skiplist_full_complete.c:177-184 | One lane of the search finds the value or passes only smaller ones |
| SkipList.LaneThins | skiplist/skiplist_full_complete.c:26-31 | Each lane is a subsequence of the one below |
| SkipList.LaneFollows | skiplist/skiplist_full_complete.c:26-31 | Following the pointers of a lane visits exactly its nodes in order |
| SkipList.List.constructor | skiplist/skiplist_full_complete.c:55-71 | An empty list: the head alone, no lane in use |
| SkipList.List.Descend | skiplist/skiplist_full_complete.c:73-91 | In every lane in use the last node before the place of the value; the node found is the first not smaller, or null |
| SkipList.List.Insert | skiplist/skiplist_full_complete.c:111-149 | One node is added before the first value not smaller; all lanes stay linked and sorted, the level right |
| SkipList.List.Remove | skiplist/skiplist_full_complete.c:92-105 | One node is taken out; all lanes stay linked and sorted, the level right |
| SkipList.List.Delete | skiplist/skiplist_full_complete.c:73-108 | Removes exactly the first node with the value, or nothing, or reads through null: each case exactly when |
| SkipList.List.Search | skiplist/skiplist_full_complete.c:169-187 | Finds a node with the value exactly when there is one |
| SkipList.List.Lanes | skiplist/skiplist_full_complete.c:151-167 | Each lane followed from the head is the list of its nodes, non-empty exactly below the level, a subsequence of the one below, and the lowest is everything |
| SkipList.InsertOnBag | skiplist/skiplist_full_complete.c:111-149 | An insertion keeps the order and adds one value to the multiset |
| SkipList.DeleteOnBag | skiplist/skiplist_full_complete.c:92-105 | A deletion keeps the order and takes one occurrence of the value |
| SkipList.MissOnBag | skiplist/skiplist_full_complete.c:92-107 | The value is stored exactly when it stands at its place; something not smaller is stored exactly when the place is not the end |
| SkipList.StepOnEntries | skiplist/skiplist_full_complete.c:73-149 | Keys stay with their values: an insertion puts its entry after all smaller values, a deletion takes the first entry with the value, the others keep their order |
| SkipList.StepOnBag | skiplist/skiplist_full_complete.c:73-187 | Every operation on the sorted list is the operation on the multiset, with the same answer |
| SkipList.RunOnBag | skiplist/skiplist_full_complete.c:73-187 | The same over every run, until one crashes |
| SkipList.List.Perform | skiplist/skiplist_full_complete.c:73-187 | Each method refines the operation on the sorted list |
| SkipList.List.PerformAll | skiplist/skiplist_full_complete.c:73-187 | Over every run the list gives the answers of the sorted list |
| BufferChain.BufferList.constructor | redis_ae/tcpproxy/util.c:81-105 | n empty chunks in a chain, at least one; an empty queue |
| BufferChain.BufferList.AllocChain | redis_ae/tcpproxy/util.c:83-102 | At least one new empty chunk, n of them linked in order |
| BufferChain.BufferList.GetSpace | redis_ae/tcpproxy/util.c:118-128 | NULL exactly when full; length 0 exactly when full or stuck |
| BufferChain.BufferList.Fill | redis_ae/tcpproxy/util.c:118-128 | Bytes stored in the space handed out are not yet part of the queue |
| BufferChain.BufferList.Push | redis_ae/tcpproxy/util.c:130-139 | The next bytes of the write node join the end of the queue; the list is not stuck afterwards |
| BufferChain.BufferList.Receive | redis_ae/tcpproxy/tcpproxy.c:164-176 | What recv stores and pushes joins the end of the queue; the write node moves on exactly when it is full and not the last |
| BufferChain.BufferList.GetData | redis_ae/tcpproxy/util.c:142-152 | NULL exactly when the queue is empty; otherwise a non-empty prefix of it |
| BufferChain.BufferList.Pop | redis_ae/tcpproxy/util.c:155-176 | The queue loses its first bytes, the chunks are conserved, and the list becomes stuck exactly when a full list recycles |
| BufferChain.BufferList.Recycle | redis_ae/tcpproxy/util.c:159-174 | The chunk read to the end becomes the empty last one; the write node is not the tail any more |
| BufferChain.BufferList.MoveHeadToTail | redis_ae/tcpproxy/util.c:161-168 | Relinking the head behind the tail loses and duplicates no chunk, and the new head is not NULL |
| BufferChain.Stock.StaysStuck | redis_ae/tcpproxy/util.c:118-128 | A stuck chain stays stuck whatever is read from it |
| BufferChain.Stock.GetsStuck | redis_ae/tcpproxy/util.c:155-176 | Reading n bytes gets a chain stuck exactly when it was full and the first of several chunks is read to the end |
| BufferChain.BufferList.StateTells | redis_ae/tcpproxy/util.c:118-128 | The state of the chain in numbers decides whether it is full or stuck |
| BufferChain.BufferList.Bounded | redis_ae/tcpproxy/util.c:81-105 | The queue never holds more than its chunks |
| Relay.Pair.constructor | redis_ae/tcpproxy/tcpproxy.c:188-234 | Two connections, nothing received, queued or sent |
| Relay.Pair.FreeClient | redis_ae/tcpproxy/tcpproxy.c:62-83 | Both sides are freed at once, their events deleted |
| Relay.Pair.RemoteDown | redis_ae/tcpproxy/tcpproxy.c:57-60 | The client is freed exactly when nothing is queued for it; otherwise it is marked to close after sending, and nothing else changes |
| Relay.Pair.OnError | redis_ae/tcpproxy/tcpproxy.c:184-185 | An error on the client frees the pair; one on the server goes through the remote-down path |
| Relay.Pair.Deliver | redis_ae/tcpproxy/tcpproxy.c:175-178 | Received bytes join the peer's queue and a write event is registered |
| Relay.TakenStep | redis_ae/tcpproxy/tcpproxy.c:161-182 | One turn of the reading loop: no room, an error or the end, nothing more, or bytes that leave less room |
| Relay.StuckTakesNothing | redis_ae/tcpproxy/tcpproxy.c:162-174 | Into a stuck list nothing is ever received, and the first bytes that wait are taken for the end of the stream |
| Relay.FalseEnd | redis_ae/tcpproxy/tcpproxy.c:162-174 | While no recv fails or reports the end, the stream is taken for an ended one exactly when the list is stuck and bytes are waiting |
| Relay.GetStuck | redis_ae/tcpproxy/tcpproxy.c:95-186 | A new pair reaches a stuck list: three full chunks read from the server, the first of them sent to the client |
| Relay.LoseStream | redis_ae/tcpproxy/tcpproxy.c:161-186 | From there a server that goes on sending is treated as gone: nothing arrives and the client is marked to be closed |
| Relay.ReadingStep | redis_ae/tcpproxy/tcpproxy.c:161-182 | After each partial receive the rest of the event is decided by the answers left and the room left |
| Relay.Connection.Take | redis_ae/tcpproxy/tcpproxy.c:122-124 | Bytes leave the queue for the socket: sent and queued together stay the same |
| Relay.Pair.ReadLoop | redis_ae/tcpproxy/tcpproxy.c:161-182 | For any answers of recv: exactly the bytes taken join the relay, and why the loop ended |
| Relay.Pair.ReadIncome | redis_ae/tcpproxy/tcpproxy.c:150-186 | The same, and on an error or the end of the stream exactly what that side does about it; both directions stay faithful |
| Relay.GivenStep | redis_ae/tcpproxy/tcpproxy.c:108-126 | One turn of the sending loop: an error, nothing taken, or bytes that leave less to send, up to the limit of one event |
| Relay.EndsEarly | redis_ae/tcpproxy/tcpproxy.c:108-126 | A write event stops early exactly after more than 1073741824 bytes |
| Relay.Pair.Sent | redis_ae/tcpproxy/tcpproxy.c:122-124 | Sent bytes are the first ones of the queue and leave it |
| Relay.SendingStep | redis_ae/tcpproxy/tcpproxy.c:119-125 | After each partial send the rest of the event is decided by the answers left and the bytes left |
| Relay.Pair.SendLoop | redis_ae/tcpproxy/tcpproxy.c:108-126 | For any answers of send: exactly the bytes accepted leave the queue, from its front, and why the loop ended |
| Relay.Pair.SendOutcome | redis_ae/tcpproxy/tcpproxy.c:95-139 | The same; a client marked to close is freed exactly when its queue runs empty, an error does what that side does about it; both directions stay faithful |
| Relay.ReadsTo | redis_ae/tcpproxy/tcpproxy.c:150-186 | A read event in terms of both connections: what was taken joins the queue of the peer, which then waits to write |
| Relay.WritesTo | redis_ae/tcpproxy/tcpproxy.c:95-139 | A write event in terms of both connections: what was given leaves the front of the queue |
| Relay.FreedWhen | redis_ae/tcpproxy/tcpproxy.c:57-139 | Exactly which events free a pair, and why; the pair is closing exactly after the server went down with bytes queued |
| Relay.Pair.Serve | redis_ae/tcpproxy/tcpproxy.c:95-186 | Over every interleaving of reads and writes each event leads from one state of the two queues and histories to the next as its answers say; both directions stay faithful; a pair freed because the server ended has sent everything |
| FileEvents.Largest | redis_ae/tcpproxy/ae.c:122-128 | The largest descriptor with a non-empty mask, or -1 |
| FileEvents.ApiAddExact | redis_ae/tcpproxy/ae_kqueue.c:41-55 | For every backend: the call succeeds exactly when the kernel takes what is asked of it, exactly the events asked for are then watched in addition, and other descriptors are untouched |
| FileEvents.CreateAdds | redis_ae/tcpproxy/ae.c:98-113 | A registration succeeds exactly when the descriptor is in the table and the kernel takes the calls; exactly the events asked for are added, maxfd is the larger of the two, and a refusal leaves the table alone |
| FileEvents.CreateWatches | redis_ae/tcpproxy/ae.c:98-113 | After a registration that succeeds the kernel watches what the table says of every descriptor |
| FileEvents.DeleteTakes | redis_ae/tcpproxy/ae.c:115-131 | A deletion takes exactly the events in the mask away, in table and kernel, of that descriptor alone |
| FileEvents.CreateExact | redis_ae/tcpproxy/ae.c:98-113 | Registering keeps table, maxfd and kernel together exactly when the mask is not empty (or harmless) and no kqueue call fails half-way |
| FileEvents.AddWatched | redis_ae/tcpproxy/ae_kqueue.c:41-55 | An accepted call leaves the kernel watching the old events and the new ones, with every backend |
| FileEvents.AddRefused | redis_ae/tcpproxy/ae_kqueue.c:41-55 | A refused call leaves the kernel as it was, unless a kqueue took a filter it did not have |
| FileEvents.AddInStep | redis_ae/tcpproxy/ae_epoll.c:39-55 | Adding events leaves the kernel watching what the table says, and epoll ADD and MOD are never misused; a refused call changes nothing |
| FileEvents.DelInStep | redis_ae/tcpproxy/ae_kqueue.c:57-69 | Deleting events leaves the kernel watching what the table says, with every backend; epoll MOD and DEL only for present descriptors |
| FileEvents.DeleteKeeps | redis_ae/tcpproxy/ae.c:115-131 | Deleting any mask keeps table, maxfd and kernel together |
| FileEvents.AddThenDel | redis_ae/tcpproxy/ae_select.c:28-41 | Deleting what was just added restores the kernel state, with every backend |
| FileEvents.CreateThenDelete | redis_ae/tcpproxy/ae.c:98-131 | Registering new events and deleting them restores the whole state |
| FileEvents.RunExact | redis_ae/tcpproxy/ae.c:98-131 | In every state of a run table, maxfd and kernel agree, and epoll_ctl is not misused, exactly when every registration is harmless in the state it meets |
| FileEvents.RunKeeps | redis_ae/tcpproxy/ae.c:98-131 | After any run of harmless registrations and any deletions they agree |
| FileEvents.SoundIsHarmless | redis_ae/tcpproxy/ae.c:98-131 | A run with no empty mask and no half-accepted kqueue call is harmless from any state |
| FileEvents.ScanReports | redis_ae/tcpproxy/ae_select.c:50-68 | The scan reports each registered descriptor once, in order, with what of it is ready, possibly nothing |
| FileEvents.SelectMissesNothing | redis_ae/tcpproxy/ae_select.c:43-68 | select up to maxfd and the scan report an event exactly when it is registered and ready |
| FileEvents.EventLoop.constructor | redis_ae/tcpproxy/ae.c:57-76 | No descriptor registered, maxfd -1 |
| FileEvents.EventLoop.CreateFileEvent | redis_ae/tcpproxy/ae.c:98-113 | Succeeds exactly when the descriptor fits and the kernel accepts, adds exactly the events asked for, and keeps the agreement exactly when the call is harmless |
| FileEvents.EventLoop.DeleteFileEvent | redis_ae/tcpproxy/ae.c:115-131 | The downward search finds the new maximum; the agreement is kept |
| FileEvents.EventLoop.PollSelect | redis_ae/tcpproxy/ae_select.c:43-68 | The loop fills the fired array with the scan |
| Timers.AddIsExact | redis_ae/tcpproxy/ae.c:149-161 | The new time is exactly that many milliseconds later; its parts are in range except for some negative intervals |
| Timers.DueAtOnce | redis_ae/tcpproxy/ae.c:247-248 | A re-armed timer is due at once exactly when the interval is not positive |
| Timers.CreateKeeps | redis_ae/tcpproxy/ae.c:163-180 | A new timer keeps the ids strictly falling from the head and below the next id; with an interval that is not negative it keeps all deadlines proper |
| Timers.DeleteKeeps | redis_ae/tcpproxy/ae.c:182-202 | A deletion keeps them too, and the id is gone |
| Timers.ApplyKeeps | redis_ae/tcpproxy/ae.c:253-259 | Whatever a callback creates and deletes keeps them, and adds nothing at or below the saved maximum |
| Timers.ApplyExact | redis_ae/tcpproxy/ae.c:163-202 | After a callback's calls: exactly the timers it did not delete, as they were, and those it created and did not delete, each with its own deadline |
| Timers.FireExact | redis_ae/tcpproxy/ae.c:252-273 | The callback's data is passed on and its calls carried out; its timer is gone exactly if it was deleted or -1 was returned, and otherwise its deadline is as many milliseconds from now as were returned |
| Timers.FireGood | redis_ae/tcpproxy/ae.c:252-273 | Firing keeps the order of ids, and all deadlines proper when no interval in it is negative |
| Timers.FireKeeps | redis_ae/tcpproxy/ae.c:252-273 | Firing removes the timer from the old due ones and adds none: the measure of the restarting scan |
| Timers.ScanRuns | redis_ae/tcpproxy/ae.c:231-279 | A pass runs only timers that existed and were due, each at most once; afterwards no old timer is due, and one not run is unchanged |
| Timers.ScanFires | redis_ae/tcpproxy/ae.c:231-279 | A pass is the firing, one after the other, of the first old timer that is due, until none is; its outcome is what these leave |
| Timers.ScanPunctual | redis_ae/tcpproxy/ae.c:231-279 | A pass with intervals that are not negative keeps all deadlines proper |
| Timers.DueAgain | redis_ae/tcpproxy/ae.c:268-273 | A timer whose callback does not delete it is due again in the pass exactly when it re-arms with an interval that is not positive |
| Timers.StaysDue | redis_ae/tcpproxy/ae.c:252-273 | A due timer that no callback deletes stays due while others fire |
| Timers.TurnsEnd | redis_ae/tcpproxy/ae.c:231-279 | With callbacks that stop or re-arm with positive intervals the restarting loop ends, with the outcome of Scan |
| Timers.NeverEnds | redis_ae/tcpproxy/ae.c:252-275 | A callback that always re-arms with an interval that is not positive leaves the pass unfinished after any number of turns |
| Timers.EndsExactly | redis_ae/tcpproxy/ae.c:231-279 | For callbacks that always return the same and delete nothing, the pass ends exactly when every due timer stops or re-arms with a positive interval |
| Timers.MissingExact | redis_ae/tcpproxy/ae.c:316-328 | For any deadline the loop can hold: the timeout is the time left, none if past, exactly under the condition stated on its milliseconds |
| Timers.MissingProper | redis_ae/tcpproxy/ae.c:316-328 | For a proper deadline the timeout is the time left, or for a past one the time left modulo one second |
| Timers.NearestExact | redis_ae/tcpproxy/ae.c:215-228 | The timer found is the earliest in time exactly when no deadline in the next second is more than 1000 ms behind it in milliseconds |
| Timers.NearestIsEarliest | redis_ae/tcpproxy/ae.c:215-228 | With proper deadlines the timer found is the earliest in time |
| Timers.NearestNotEarliest | redis_ae/tcpproxy/ae.c:149-161 | With a negative interval it need not be: two timers for which it is not |
| Timers.EventLoop.CreateTimeEvent | redis_ae/tcpproxy/ae.c:163-180 | Prepends a timer with the next id, due exactly that many milliseconds from now; the others stay |
| Timers.EventLoop.DeleteTimeEvent | redis_ae/tcpproxy/ae.c:182-202 | Removes the timer with the id; succeeds exactly when there was one |
| Timers.EventLoop.SearchNearestTimer | redis_ae/tcpproxy/ae.c:215-228 | The first timer in the order by seconds and then milliseconds, of several the first in the list |
| Timers.EventLoop.ProcessTimeEvents | redis_ae/tcpproxy/ae.c:231-279 | The scan with restarts terminates and is the function Scan, counting the timers run |
| Timers.EventLoop.Run | redis_ae/tcpproxy/ae.c:252-273 | One due timer: the method is Fire, of which FireExact says what is left |
| Timers.EventLoop.PollTimeout | redis_ae/tcpproxy/ae.c:305-340 | Polls or not, for ever, not at all, or until the nearest timer, for any timers the loop can hold |
| HappyNumber.GetSq | happynumber_to_cycle_quetion.c:25-34 | The sum of the squares of the digits, also with C's signs |
| HappyNumber.SquaresOfDigits | happynumber_to_cycle_quetion.c:25-34 | Whatever decimal digits a number is written with, the sum of their squares is what is computed |
| HappyNumber.DigitsOf | happynumber_to_cycle_quetion.c:25-34 | Every number is written with some decimal digits |
| HappyNumber.OrbitBounded | happynumber_to_cycle_quetion.c:25-34 | The orbit stays below a bound |
| HappyNumber.Collision | happynumber_to_cycle_quetion.c:63-83 | More terms than values: two terms are equal |
| HappyNumber.Periodic | happynumber_to_cycle_quetion.c:74-83 | From a repeated term on the orbit is periodic |
| HappyNumber.MeetingPoint | happynumber_to_cycle_quetion.c:76-81 | There is a k > 0 where the slow walk and the fast walk agree |
| HappyNumber.MeetingDecides | happynumber_to_cycle_quetion.c:80-82 | Wherever they agree, the value is 1 exactly when the orbit reaches 1 |
| HappyNumber.IsHappyByCycle | happynumber_to_cycle_quetion.c:74-83 | Terminates for every n and tells exactly whether the orbit reaches 1 |
| HappyNumber.IsDuplicate | happynumber_to_cycle_quetion.c:35-47 | Whether the value was seen; if not it is seen from now on |
| HappyNumber.IsHappyBySeen | happynumber_to_cycle_quetion.c:48-56 | Terminates for every n and gives the same answer |
| HappyNumber.NeverOne | happynumber_to_cycle_quetion.c:51-54 | A term repeated before any 1 means there is never a 1 |
| Fenwick.LowBitIsAnd | tree_form_array.c:51-54 | n & (-n) is the largest power of two that divides n |
| Fenwick.NextHolder | tree_form_array.c:80-81 | The chain j += lowbit(j) meets exactly the entries whose range contains the start |
| Fenwick.SumUpdate | tree_form_array.c:75-82 | Changing one element changes the sums of the ranges that contain it, by the difference |
| Fenwick.NumArray.constructor | tree_form_array.c:55-73 | Every entry i holds the sum of its lowbit(i) elements |
| Fenwick.NumArray.FillEntry | tree_form_array.c:67-70 | One entry is summed, the others stay |
| Fenwick.NumArray.Update | tree_form_array.c:75-82 | The element changes and every entry still holds its sum |
| Fenwick.NumArray.Prefix | tree_form_array.c:87-88 | Walking down by lowbit adds up the prefix |
| Fenwick.NumArray.SumRange | tree_form_array.c:84-91 | The plain sum over the interval; for any i and j the difference of two prefix sums |
| CopyList.CopyRandomList | linklist/copyrandomlist.c:26-64 | Fresh nodes isomorphic to the input in values, order and random pointers; the original list is restored |
| CopyList.InsertCopies | linklist/copyrandomlist.c:30-39 | After every node a fresh copy of its value |
| CopyList.CopyRandoms | linklist/copyrandomlist.c:41-47 | Each copy's random pointer leads to the copy of the original's target |
| CopyList.Separate | linklist/copyrandomlist.c:50-63 | The two lists come apart, each in its order |
| CopyList.TargetsMatch | linklist/copyrandomlist.c:41-47 | Equal targets by position make the two lists isomorphic |
| Bst.InsertCount | binarrytree/BST.c:71-96 | Insertion adds one occurrence of the key |
| Bst.InsertOrdered | binarrytree/BST.c:71-96 | Insertion keeps left < key <= right |
| Bst.DeleteCount | binarrytree/BST.c:98-132 | Deletion removes exactly the chosen node's key, once, in all three cases |
| Bst.DeleteOrdered | binarrytree/BST.c:98-132 | Deletion keeps the order, also when the successor's key moves up |
| Bst.DeleteNodes | binarrytree/BST.c:98-132 | Exactly one node leaves the tree: the chosen one or its successor |
| Bst.MinOrdered | binarrytree/BST.c:145-153 | The leftmost node holds the least key |
| Bst.KeyGoes | binarrytree/BST.c:61-69 | A key not at the node is on the side the search takes |
| Bst.Assemble | binarrytree/BST.c:114-125 | A subtree put in place of another makes a whole tree with all parent links |
| Bst.BSTree.constructor | binarrytree/BST.c:134-144 | An empty tree: the root is the sentinel |
| Bst.BSTree.Lookup | binarrytree/BST.c:61-69 | Finds a node with the key exactly when the key is in the tree |
| Bst.BSTree.Insert | binarrytree/BST.c:85-96 | The node hangs where insertion puts it; order, parent links and the root's parent are kept |
| Bst.BSTree.InsertValue | binarrytree/BST.c:71-83 | The descent ends at the missing child and hangs the node there |
| Bst.BSTree.Hang | binarrytree/BST.c:79-82 | The node becomes a leaf below its parent, with all links |
| Bst.BSTree.Min | binarrytree/BST.c:145-153 | The leftmost node of a subtree, and the place it is in |
| Bst.BSTree.Relink | binarrytree/BST.c:117-125 | The pointer that led to the node leads to its replacement, in all three branches |
| Bst.BSTree.Replace | binarrytree/BST.c:114-125 | The replacement takes the node's place in a whole tree |
| Bst.BSTree.Delete | binarrytree/BST.c:98-132 | The tree afterwards is the one without the chosen node's key; order, links and sentinel are kept |
| QuickSort.KeepsBounds | sort/quick_sort.c:58-66 | Rearranging a range keeps bounds on its entries |
| QuickSort.MoveHole | sort/quick_sort.c:50-53 | Moving an entry into the hole keeps the multiset of entries with the pivot in the hole |
| QuickSort.ScanDown | sort/quick_sort.c:48 | From the right, all passed entries are at least the pivot |
| QuickSort.ScanUp | sort/quick_sort.c:51 | From the left, all passed entries are at most the pivot |
| QuickSort.Partition | sort/quick_sort.c:44-57 | The pivot at its place, smaller ones left, larger ones right, a rearrangement; it ends at high only if the first entry was larger than the last |
| QuickSort.SidesSorted | sort/quick_sort.c:61-65 | Sorting both overlapping sides sorts the range |
| QuickSort.QuickSort | sort/quick_sort.c:58-66 | A sorted rearrangement; terminates though the left call may repeat the range |
| QuickSort.Sort | sort/quick_sort.c:58-66 | The whole array sorted, with the same entries |
| KGroup.GroupsAt | linklist/reverslinklist_K_group.c:40-62 | Each position of a full group gets its mirror position, a shorter tail keeps its own; for k < 1 nothing changes |
| KGroup.MirroredInGroup | linklist/reverslinklist_K_group.c:40-62 | Entry r of full group g is entry k - 1 - r of that group before |
| KGroup.Involution | linklist/reverslinklist_K_group.c:40-62 | Reversing the groups twice gives the list back |
| KGroup.GroupsKeep | linklist/reverslinklist_K_group.c:40-62 | No node is lost or duplicated |
| KGroup.Reverse | linklist/reverslinklist_K_group.c:28-39 | The nodes of a chain relinked in reverse |
| KGroup.GroupEnd | linklist/reverslinklist_K_group.c:51-54 | The last node of a full group, or null if there is none |
| KGroup.FlipGroup | linklist/reverslinklist_K_group.c:55-59 | One group is cut out, reversed and linked back between its neighbours |
| KGroup.ReverseKGroup | linklist/reverslinklist_K_group.c:40-62 | The list of the same nodes with every full group reversed |
| Sieve.Euclid | filter_prime.c:17-26 | A prime that divides a product divides a factor |
| Sieve.SmallPrimeFactor | filter_prime.c:17-20 | A number that is not prime has a prime factor no larger than its root |
| Sieve.GuardIsPrime | filter_prime.c:20 | dp[i*i] is still 1 exactly when i is prime |
| Sieve.LeftArePrimes | filter_prime.c:17-26 | When i*i has passed k, k is left exactly when it is prime |
| Sieve.CrossMultiples | filter_prime.c:21-24 | The inner loop crosses out exactly the multiples of i from i*i on |
| Sieve.MarkAll | filter_prime.c:16-27 | What the marking loops leave are the primes |
| Sieve.CountPrimes | filter_prime.c:12-32 | The number of primes below n, for every n |

## Left out

- Timers.EventLoop.ProcessTimeEvents: the clock stands still during a pass, and the callback of a timer that is due neither deletes that timer (the code would then use freed memory) nor re-arms it with an interval that is not positive, because the method has to end; TurnsEnd, NeverEnds and EndsExactly follow the same loop turn by turn without that. A callback is a function of its own data, the timers and its id, and finalizers are not called.
- FileEvents.CreateExact: only a refused epoll ADD, or kqueue add, is modelled as a failure of the kernel's own; descriptors closed while registered are not.
- FlowTable.Capture.OpenFile: fopen fails only when the number of open files reaches the limit, which is at least 2, so the branch that gives up for other reasons is never taken; a failing write is not modelled either. With a limit of 1 the ring can shrink to nothing.
- FlowTable.Qsort: the C library's qsort is an insertion sort here; by AnySort any other would give the same ring.
- FlowTable.Capture.constructor: get_max_fds is a parameter that leaves at least one slot after the reserved descriptors; with none the code would index an empty ring.
- Bst.BSTree.Insert: the caller hands over a node that is in no tree, and the sentinel is no node of the tree; InsertTree is the insert function the tree was created with.
- SkipList.List.Insert: the random level is a parameter from 1 to SKIPLEVEL; the code does not bound it and would write past its arrays.
- Relay.Pair.Serve: which socket is ready, and what recv and send answer, is an arbitrary input of each event; a recv into 0 bytes gives 0 when bytes wait; freed connections stay in memory in the model so that their histories can be named, and registering a write event always succeeds.
- BufferChain.BufferList.Fill: recv is the model's only writer into a chunk.
- Calculator.Evaluate: numbers are what atof makes of their digits, and arithmetic is any four functions; scanf's splitting at blanks and the sizes of the buffers and stacks are not modelled.
- HappyNumber.IsHappyByCycle: the arithmetic is on unbounded integers, as in all modules; overflow of int is not modelled except where a member names a width (sequence numbers, offsets and lengths in tcpflow).
- Fenwick.NumArray.constructor: nums and sums are separate arrays whose index 0 is unused and unset.
- KGroup.Reverse: the dummy node on the stack is a local variable holding its next pointer.
- malloc failure and free, everywhere.
- process_udp, strip_nonprint, console output, the packet counters and the capture itself in tcpflow; files are named by their flow instead of flow_filename.
- The dispatch of fired events to their callbacks, aeWait, aeMain and the before-sleep hook.
- Connection set-up, command line, policies and logging of the proxy.
- The remaining programs: sockets and epoll examples, ipc, benchmark, python, the packet statistics and encryption tests, the generated policy parser, and the easier list, tree and sorting exercises, which would add only simpler members.
