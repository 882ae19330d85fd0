# emo in Dafny

emo is a Kademlia-style distributed hash table over UDP. This project models its stateful core in
Dafny and proves what that core guarantees over every input, every run and every interleaving.
`dafny verify dfyconfig.toml` checks the whole project.

## The parts and the main results

**Packets** (`Packets`, `PacketManager`, `RoundTrip`, `Repeats`, `ConcurrentReassembly`, `LateCompare`,
`LateRuns`). A message is cut into fragments of at most 1472 bytes with a 36-byte header and put
together again in a recycled buffer, completion being detected by counting bytes. For every order of
arrival and any other traffic, only the last missing fragment returns a packet and it holds exactly
the message; a message is returned if and only if it has 1 to 65535 bytes, since the length field has
16 bits. When fragments repeat, or the length does not fit, what is returned and when is determined by
the byte count alone, and it is the message for every buffer if and only if nothing was repeated.

With one listener per fragment running `assemble` concurrently, for any number of messages sharing one
pool with the senders, a listener can read the length it compares its count with after its packet
has been recycled. Every message goes to exactly one receiver in a run if and only if no such compare
happens; it can happen if and only if some but not all fragments of a message have as many bytes as
another message, or as a packet being sent. Otherwise all listeners of a message use one packet,
exactly one returns it, it holds the message for as long as that listener keeps it, and every call ends.

**Sending** (`WriteQueue`, `EndToEnd`). The write batch is a lossless queue for every flushing
pattern, a write fails exactly when it needs one more socket write than succeeds, and a peer that
receives everything flushed to it in any order gets back the messages written to it, each once and
nothing else, if and only if each of them has 1 to 65535 bytes.

**Routing** (`Ids`, `Buckets`, `BucketRuns`, `BucketRecords`, `Tables`, `Scan`, `Closest`, `ClosestMiss`,
`RoutingTable`, `Refresh`). The common-prefix length is an ultrametric that refines the XOR metric.
In every reachable bucket the nodes stand in the order of their last insertion. After every run an id
is active if and only if it was inserted after its last removal and was then admitted, and what is
recorded about active and cached nodes is told from the events. Every active node is in the bucket its
id belongs to. The zig-zag scan looks at every bucket in exactly one step.
`closestN` returns min(count, neighbours) distinct nodes; those it takes from the target's own bucket
are closest in the whole table, and the whole result is if and only if a condition on the bucket
sizes holds.

**Journey** (`Journeys`, `JourneyRuns`, `JourneyGuarantees`, `JourneyOptimum`, `JourneyLaws`, `Journey`). In every
interleaving of the operations no node is handed out twice, whatever the hash does; routes are
conserved and handed out best first; adding never loses the best route, and keeps the best ones if
and only if the first worse route it replaces is a worst one; the inflight count is exact if and only
if there are never more replies than requests; the journey completes once. A hash is marked if and only
if nodes with it were new, when offered, once more than they were evicted, so an evicted node gets a
second chance; what is outstanding is what was announced first less all that was received.

**Values** (`Batching`, `Accounting`, `Storage`). The responder's batches are the only division of
the values that closes a batch with the value that fills it; with batches of many responders arriving
in any interleaving the outstanding counts are the values still missing; every batch can be reassembled
if and only if a value and the event's overhead have at most 512 bytes together (with empty values
only, if the overhead has at most 509).

**Calls** (`StoreProtocol`, `StoreCalls`, `StoreRaces`, `FindReplies`, `FindCalls`, `FindCompletion`,
`FindTells`, `FindWaits`, `FindRequests`, `FindValues`). `Store` reports to the user faithfully in every order of
replies, duplicates and timeouts if and only if the local node is among the nodes stored to; with
loading, running and deleting a request as separate steps of concurrent listeners and the sweep, the
user is never told both success and failure if and only if no request is loaded while it is in use.
For every reply it is proved what `Find` calls the user with, when it completes and when it forgets the
request. `Find` passes no value on twice and is silent once completed; when it completes, every value of every
responder that answered has been passed on. It waits for all nodes asked, in every run, if and only if
no node that is or may be asked can reply twice. Every one can: until the journey completes a request
stays pending until it expires, and its timeout counts as a reply.

Hash functions (`maphash`) are arbitrary functions passed as values; clocks, random bytes, socket
outcomes and the order chosen by a sort are parameters. Each lock-protected method is one step.
Bytes are integers from 0 to 255 and ids sequences of 32 of them. Where a class updates state in
place, its methods are proved against the functions on values that the run-level lemmas are about.

## Where the code and its comments differ

The model follows the code.

- The fragment header is described as 24 bytes with a 20-byte id (packet.go:38-39, packet.go:189-197); the code uses 36 and 32.
- `closestN` and `closest` promise the closest known nodes (routing_table.go:75, routing_table.go:121). The scan looks at the next higher bucket before the next lower one, although every node of a lower bucket is closer: `ClosestNCanMiss` gives a table for every inner bucket, `ExactIffLowerBucketsSuffice` the exact condition.
- A refresh is meant to look up an id in the bucket's range (bucket.go:202). The id lands in the mirrored bucket and never in the bucket itself: `RefreshMissesItsBucket`.
- `bucket.insert` promises to return false when the bucket is full (bucket.go:39-40); it always returns true.
- A journey is meant to keep the optimum routes (journey.go:26-27). A full list replaces the first worse route, not the worst: `AddKeepsBestIff` says when the best are kept, `BetterRouteIsLost` when not; `BestNeverLost` and `SlotsNeverWorsen` hold in any case.
- An unforced `finish` is meant to wait for the requests in flight (journey.go:49-50, journey.go:188-190). Each batch of an answer counts one request as answered (dht.go:450), and so does the timeout of a request that has been answered, because its closure returned false and it stayed in the cache (cache.go:93, cache.go:107-109). So the journey can complete before others have replied: `BatchesCompleteAlone`, `WaitsForAllIff`, `PendingUntilCompleted`, `TimeoutCountsAgain`.
- `add` returns true if all fragments are present (packet.go:231). It counts bytes, and reads the length to compare with after the count: `CompleteIsDataIffNoRepeats`, `SafeIffLengthsApart`.
- A lookup is meant to collect new nodes from a response (dht.go:510). Every node of a reply is built with the responder's id (dht.go:531-534), which is marked as visited, so no reply ever adds a route: `LookupNeverLearns`.
- `Store` calls back when it has had the correct number of responses (dht.go:327-331). The number is right only if the local node is among the nodes: `ContradictoryIffNoLocal`, `LoneRemoteNeverSucceeds`.
- A batch of values is meant to fit an event (listener.go:230-231). The size is tested before a value is appended, so it fits only if the values are small: `BatchesFitIff`, `AllArriveIff`.
- `Get` with a start time is meant to filter (storage.go:143). It skips as many values as are too old: `SkipIsFilterIffOldFirst`.

## Model

| member | source | states |
|---|---|---|
| `Ids.Distance` | routing_table.go:197-216 | the byte loop computes the index of the first bit in which two ids differ |
| `Ids.PrefixLenSpec` | routing_table.go:197-216 | all bits before the prefix length agree, the bit at it differs |
| `Ids.PrefixLenUnique` | routing_table.go:197-216 | nothing else satisfies those two conditions |
| `Ids.PrefixLenSymmetric` | routing_table.go:197-216 | the prefix length is symmetric |
| `Ids.PrefixLenFullIffEqual` | routing_table.go:197-216 | it is 256 exactly for equal ids |
| `Ids.Ultrametric` | routing_table.go:197-216 | the ultrametric inequality, with equality when the legs differ and strictly more when they are equal |
| `Ids.PrefixRefinesXor` | routing_table.go:184-216 | a longer common prefix with a target is a smaller XOR distance as a 256-bit integer |
| `Packets.LittleEndian16RoundTrip` | packet.go:106 | the length field holds the length modulo 65536 |
| `Packets.FragmentFields` | packet.go:102-108 | where a fragment's id, part, total, length and payload are |
| `Packets.HeaderBytes` | packet.go:102-108 | the four bytes after the id: the part from one, the total, the length with its low byte first, each truncated |
| `Packets.PayloadSizesTotal` | packet.go:87-90 | the payloads partition the data |
| `Packets.CountPart` | packet.go:238 | counting one more part reaches the total exactly when it was the last one missing |
| `PacketManager.Packet.Next` | packet.go:213-228 | hands out the next piece of at most 1472 bytes, nil at the end |
| `PacketManager.Packet.Add` | packet.go:232-239 | copies the payload to its place, counts it with 32-bit wrap-around, reports completion |
| `PacketManager.WriteFragment` | packet.go:102-108 | one turn of the layout loop writes exactly one fragment and nothing before it |
| `PacketManager.LayOut` | packet.go:84-115 | the buffer, read in pieces of 1472 bytes, is exactly the fragments of the message |
| `PacketManager.Manager.Get` | packet.go:85 | the pool gives out a packet that is neither pooled nor under reassembly any more |
| `PacketManager.Manager.Fragment` | packet.go:84-115 | fragments a message in a recycled buffer and leaves everything under reassembly alone |
| `PacketManager.Manager.Assemble` | packet.go:118-171 | does to the reassembly map, and returns, what `Deliver` says, with recycled buffers; what it returns can be given back |
| `PacketManager.Manager.Done` | packet.go:70-76 | full-size buffers go back to the pool, others do not |
| `PacketManager.Manager.Receive` | listener.go:86-154 | assembling, reading the data and giving the packet back can go on forever, as `Deliver` says |
| `RoundTrip.FragmentsDistinct` | packet.go:104 | different parts are different frames |
| `RoundTrip.AddPart` | packet.go:232-239 | adding a missing part keeps the others and is complete exactly when none is missing |
| `RoundTrip.AllPartsAreTheData` | packet.go:236-244 | a buffer that holds every part at stride 1436 holds the data |
| `RoundTrip.RunTracks` | packet.go:118-171 | after any run the map holds exactly the parts that have arrived, whatever else arrives |
| `RoundTrip.ReassemblyRoundTrip` | packet.go:84-171 | in every order and any other traffic, only the completing fragment returns a packet, and its data is the original |
| `RoundTrip.ReturnedIffLengthFits` | packet.go:84-171 | once all fragments are in, the data has been returned if and only if it has 1 to 65535 bytes |
| `Repeats.RunCounts` | packet.go:118-171 | over any run, repeats included and for any length, the packet holds the parts added since it was taken, over what the buffer held |
| `Repeats.OutputIsCounted` | packet.go:164-170 | a call returns a packet exactly when the bytes added since it was taken reach the 16-bit length, and then that many bytes of it |
| `Repeats.OutputIsDataIff` | packet.go:164-170 | it is the message exactly when what was not added was in the buffer before |
| `Repeats.CompleteIsDataIffNoRepeats` | packet.go:232-239 | which holds for every buffer if and only if every part was added, that is, as long as the 32-bit count has not wrapped around, if and only if none was repeated |
| `Repeats.DuplicateReturnsStale` | packet.go:232-239 | one fragment delivered twice completes a message of two full fragments with stale bytes |
| `Repeats.OversizeReturnsStale` | packet.go:106 | one fragment of a message of 66972 bytes is returned as a packet of stale bytes |
| `ConcurrentReassembly.StepKeeps` | packet.go:118-171 | every step of every listener keeps the invariant on data, ownership and counting, a compare if it finds its own message's length |
| `LateCompare.RunKeeps` | packet.go:118-171 | so does every interleaving from an idle manager up to the first wrong compare |
| `LateCompare.WrongCompareIffLate` | packet.go:238 | the next compare is wrong if and only if its packet was taken again since its add, with the sum it has as the new length |
| `LateCompare.OneResultIffNeverLate` | packet.go:164-170 | over a run every message goes to one receiver if and only if no compare is late |
| `LateCompare.PatientIsNeverLate` | packet.go:70-76 | no compare is late if packets are taken again only when nobody still has to compare |
| `LateCompare.OnePacketPerMessage` | packet.go:141-162 | then listeners work on the same packet exactly when they handle the same message |
| `LateCompare.ReturnedPacketIsTheMessage` | packet.go:164-168 | a returned packet holds the whole message and nobody else has it until it is released |
| `LateCompare.ExactlyOneResult` | packet.go:164-170 | some listener is to return it exactly when all have added, and only one is |
| `LateCompare.EveryListenerCanStep` | packet.go:118-171 | no listener is ever stuck or indexes out of range |
| `LateCompare.CallsEnd` | packet.go:118-171 | no listener takes more steps than its payload has bytes, and eight, in any run |
| `LateCompare.EveryMessageIsReturned` | packet.go:118-171 | when no listener can go on, every call has ended and every message was returned by exactly one |
| `LateRuns.SafeIffLengthsApart` | packet.go:118-171 | every run gives every message to one receiver if and only if no proper part of a message is as long as another message or a packet sent |
| `LateRuns.SomeRunGivesTwo` | packet.go:70-171 | otherwise a run that gives a message to two receivers, built step by step |
| `LateRuns.SingleMessageIsSafe` | packet.go:118-171 | a message reassembled alone is never at risk |
| `LateRuns.TwoOfThreeIsUnsafe` | packet.go:238 | messages of 4308 and 2872 bytes are |
| `WriteQueue.Sender.Flush` | listener.go:404-423 | hands the batch to the socket and empties it, or keeps it on failure |
| `WriteQueue.Sender.Write` | listener.go:354-383 | fragments and queues a message as `WriteFrames` says, and leaves everything under reassembly alone |
| `WriteQueue.WriteFails` | listener.go:372-377 | fails exactly when one more socket write is needed than succeeds; else there is room in the batch |
| `WriteQueue.WriteIsFifo` | listener.go:363-380 | appends exactly the accepted frames in order, for every flushing pattern |
| `EndToEnd.QueueIsLossless` | listener.go:354-423 | over any run of writes and timer flushes, sent followed by pending is everything queued, in order |
| `EndToEnd.DatagramsFit` | listener.go:363-368 | no datagram exceeds 1472 bytes |
| `EndToEnd.FramesDistinct` | packet.go:102-106 | messages with different id hashes never produce the same frame |
| `EndToEnd.WrittenMessagesAreReassembled` | listener.go:354-383 | a peer that receives all of it in any order gets each message that fits back at its last fragment |
| `EndToEnd.ExactlyIffAllFit` | listener.go:354-383 | over all calls it gets every message back once, and nothing else, if and only if each has 1 to 65535 bytes |
| `Buckets.Bucket.Remove` | bucket.go:157-175 | exactly the nodes with another id remain active; returns the node found |
| `Buckets.RemovedExactly` | bucket.go:163-172 | the id is gone, every other node and the order stay, the promotion cache is untouched |
| `Buckets.Bucket.Insert` | bucket.go:41-107 | known id updated and moved to the back, new id appended, or stashed when full; true in every case |
| `Buckets.Bucket.Stalest` | bucket.go:75-93 | finds the entry with most pending requests, if it has more than one |
| `Buckets.Bucket.Stash` | bucket.go:178-191 | adds to the promotion cache, or stamps the entry already there |
| `Buckets.Bucket.Seen` | bucket.go:142-154 | stamps an active node, else a stashed one; true exactly if known |
| `Buckets.Bucket.Iterate` | bucket.go:129-137 | visits the active nodes in order |
| `BucketRuns.RunValid` | bucket.go:41-191 | over every run: at most K nodes, no id twice, no pending request, so no index out of range |
| `BucketRuns.InsertedIsKnown` | bucket.go:41-126 | an inserted id is found afterwards, at the back or in the cache, others keeping their order |
| `BucketRuns.ActiveByRecency` | bucket.go:46-73 | over every run the nodes stand in the order of their last insertion |
| `BucketRecords.GetPrefersActive` | bucket.go:110-126 | `get` gives the active node with the id, a cached one only if none is active |
| `BucketRecords.ActiveIff` | bucket.go:41-175 | over every run an id is active if and only if its last insertion is after its last removal and then it was active or there was room |
| `BucketRecords.RecordIsLatest` | bucket.go:46-73 | over every run an active node has the time of its last insertion or sighting, the latency and mode of its last insertion, the address it joined with |
| `BucketRecords.CachedIff` | bucket.go:102-191 | over every run an id is cached if and only if it was once inserted into a list full of others |
| `BucketRecords.CacheRecord` | bucket.go:142-191 | a cached node has the contact of that insertion and the time it was last stashed again or seen while not active; the cache is in that order |
| `BucketRecords.BucketsAreIndependent` | routing_table.go:48-64 | over every run each bucket of the table is what a bucket alone makes of the events with its ids |
| `BucketRecords.TableActiveIff` | routing_table.go:48-64 | over every run of the table an id is active if and only if it was inserted after its last removal and then admitted by its bucket |
| `Tables.RunPlaced` | routing_table.go:48-64 | over every run each active node is in its own bucket |
| `Tables.RemovedFromTable` | routing_table.go:62-64 | removing an id takes exactly its node out of the active ones |
| `Tables.ActiveIdsUnique` | routing_table.go:48-64 | no id is active twice in the table |
| `Tables.NeighboursAreDistinctIds` | routing_table.go:172-182 | the sum of bucket sizes is the number of distinct active ids |
| `Tables.OwnBucketIsCloser` | routing_table.go:185-195 | nodes of the target's bucket are strictly closer to it than all others |
| `Tables.OtherBucketCloseness` | routing_table.go:185-195 | the closeness of any other node depends on its bucket alone |
| `Scan.OffsetClosed` | routing_table.go:149-155 | the alternating increments look at o, o+1, o-1, o+2, ... |
| `Scan.ScanIsBijective` | routing_table.go:149-155 | every bucket is looked at in exactly one step |
| `Scan.CoversAll` | routing_table.go:145-147 | the whole table is covered after at most 511 steps |
| `Scan.GatheredMember` | routing_table.go:133-136 | exactly the nodes of the covered buckets have been collected |
| `Scan.GatheredDistinct` | routing_table.go:133-136 | no id has been collected twice |
| `Scan.StopsAtFirst` | routing_table.go:138-147 | the scan stops at the first step with enough nodes or the table covered |
| `Closest.SortedPrefixIsBest` | routing_table.go:158-168 | sorting and truncating leaves out no node closer than one taken |
| `Closest.SelectedCount` | routing_table.go:122-169 | min(count, neighbours) distinct known nodes, closest first |
| `Closest.OwnBucketResultsAreClosest` | routing_table.go:122-169 | the first min(count, own bucket size) results are closest in the whole table |
| `Closest.ExactIffLowerBucketsSuffice` | routing_table.go:122-169 | all results are if and only if the target's and the lower buckets reached suffice |
| `Closest.ClosestExactIff` | routing_table.go:76-119 | the same for the single closest node; always when the target's bucket is not empty |
| `ClosestMiss.ClosestNCanMiss` | routing_table.go:149-153 | around every inner bucket two insertions lead to a table from which a further node is returned |
| `RoutingTable.BucketID` | routing_table.go:185-195 | the bucket index from the prefix loop |
| `RoutingTable.RoutingTable.Insert` | routing_table.go:48-51 | changes only the bucket of the id |
| `RoutingTable.RoutingTable.Remove` | routing_table.go:62-64 | changes only the bucket of the id; afterwards exactly the nodes with another id are active |
| `RoutingTable.RoutingTable.Seen` | routing_table.go:57-59 | changes only the bucket of the id; true exactly if known |
| `RoutingTable.RoutingTable.NeighbourCount` | routing_table.go:172-182 | counts the active nodes |
| `RoutingTable.RoutingTable.Gather` | routing_table.go:123-156 | the scan loop terminates and collects what it should |
| `RoutingTable.RoutingTable.ClosestN` | routing_table.go:122-169 | a selection as described by the lemmas of `Closest` |
| `RoutingTable.RoutingTable.ClosestNode` | routing_table.go:76-119 | a selection of one, or none exactly for an empty table |
| `RoutingTable.BestIn` | routing_table.go:85-100 | the closest node of a bucket |
| `Refresh.GenerateRandomIDInBucket` | dht.go:865-884 | an id that shares exactly bucketIndex leading bits with the local one |
| `Refresh.RefreshMissesItsBucket` | dht.go:865-884 | which belongs to bucket 255 - bucketIndex and never to the bucket itself |
| `Journeys.LessIsStrictWeakOrder` | journey.go:286-292 | the sort order is a strict weak order: a longer prefix first, then a lower latency |
| `Journeys.SumValuesAny` | journey.go:177-181 | the sum of outstanding values does not depend on the order of a map walk |
| `JourneyRuns.NextConserves` | journey.go:156-166 | handed out and remaining routes are the routes there were |
| `JourneyRuns.NextIsBest` | journey.go:142-168 | hands out min(count, routes) unless over, each with a longer prefix than what follows or remains, or as long a one and no higher latency |
| `JourneyRuns.RunTrail` | journey.go:76-169 | over every run live and handed-out hashes are distinct and marked, evictions included |
| `JourneyRuns.NoNodeVisitedTwice` | journey.go:76-169 | no node is handed out twice and never the source, with no assumption on the hash |
| `JourneyRuns.RoutesStayPaired` | journey.go:76-169 | over every run each route, live or handed out, carries the closeness of its own node to the destination the journey was made for |
| `JourneyRuns.HandedOutBounded` | journey.go:142-154 | at most iterations times count nodes are handed out |
| `JourneyGuarantees.BestNeverLost` | journey.go:76-130 | after any additions the best route is as close as every newly offered node, unless its hash collides with one offered earlier |
| `JourneyGuarantees.AddNodesReaches` | journey.go:108-126 | and as close as every route live before |
| `JourneyGuarantees.AddInParts` | journey.go:76-130 | any sequence of add calls is one call with all nodes |
| `JourneyGuarantees.SlotsNeverWorsen` | journey.go:108-126 | in a full list no slot gets worse |
| `JourneyGuarantees.InflightExactIff` | journey.go:142-213 | inflight is handed out minus answered throughout if and only if replies never exceed requests |
| `JourneyGuarantees.FinishesOnce` | journey.go:142-197 | finish returns true at most once, and next returns nil ever after |
| `JourneyGuarantees.FinishOnlyWhenAnswered` | journey.go:188-190 | if no node replies twice, an unforced finish succeeds only when every node handed out has replied |
| `JourneyOptimum.AddKeepsBestIff` | journey.go:108-126 | a full list keeps the best of its routes and a new one if and only if it has none worse or the first worse is a worst |
| `JourneyOptimum.AddNodesKeepsBest` | journey.go:76-130 | if every replacement hits a worst route, the list holds the best of everything offered |
| `JourneyOptimum.BetterRouteIsLost` | journey.go:108-126 | when the first of the nodes that fill the list is closer than another, a closer one still replaces the first |
| `JourneyOptimum.MisleadingExists` | journey.go:108-126 | such a list of twenty nodes, for every hash that separates them |
| `JourneyLaws.HandsOutClosest` | journey.go:156-168 | over every run what a call hands out shares at least as many bits with the destination as what it leaves, and with as many is no slower |
| `JourneyLaws.MarkedIffOfferedOnceMore` | journey.go:85-126 | over every run a hash is marked if and only if nodes with it were new when offered once more than they were evicted |
| `JourneyLaws.BecomesRouteIff` | journey.go:98-126 | a new node becomes a route if and only if there is room or a route that is less close |
| `JourneyLaws.EvictedIsFresh` | journey.go:112-117 | an evicted node is new again |
| `JourneyLaws.EvictedCanReturn` | journey.go:76-130 | over every run an evicted node that is offered again becomes a route if and only if there is room or a route that is less close |
| `JourneyLaws.RoundsAreCounted` | journey.go:142-146 | the iterations left are those it was made with less the rounds handed out |
| `JourneyLaws.SeenIffShown` | journey.go:215-231 | over every run a value is seen if and only if one with its hash was shown |
| `JourneyLaws.CompletedIffReady` | journey.go:172-197 | over every run it is completed if and only if finish was forced or called with nothing in flight and nothing outstanding |
| `JourneyLaws.OutstandingLedger` | journey.go:233-261 | over every run what is expected from a sender is its first announcement, nothing if a removal came first, less everything removed |
| `Journey.Journey.Add` | journey.go:76-130 | offers the nodes one after the other to the two parallel lists |
| `Journey.Journey.Sort` | journey.go:275-292 | sorts both lists together, keeping each distance with its node |
| `Journey.Journey.Next` | journey.go:134-169 | nil exactly when exhausted, else the first routes of a sorting, the rest shifted down |
| `Journey.Journey.Finish` | journey.go:172-197 | completes exactly when allowed |
| `Journey.Journey.ResponseReceived` | journey.go:202-213 | counts a reply down, reports completion and exhaustion |
| `Journey.Journey.SeenValue` | journey.go:215-231 | records the value's hash, true if it was there |
| `Journey.Journey.AddOutstanding` | journey.go:233-250 | only the first announcement of a sender counts |
| `Journey.Journey.RemoveOutstanding` | journey.go:252-261 | subtracts what was received |
| `Batching.BatchesAre` | listener.go:234-262 | batches are non-empty, concatenate to the values, and close with the value that fills them |
| `Batching.BatchingUnique` | listener.go:234-262 | there is only one such division |
| `Batching.BatchesFitIff` | listener.go:237-255 | batches of values up to a bound stay within a limit if and only if the largest does: 65023 and the bound, or 65026 for empty values |
| `Batching.SendFound` | listener.go:224-265 | sends exactly those batches, or the first ones when a write fails |
| `Batching.TransferKeys` | listener.go:274-345 | batches exactly the values closer to the new node, or all in a small network |
| `Batching.TransferredIff` | listener.go:284-290 | a value is sent to the new node, as often as it is stored, if and only if the network is small or the node shares more bits with its key |
| `Accounting.AnnouncedTotal` | listener.go:239-260 | the batch lengths sum to the announced total |
| `Accounting.OutstandingIsMissing` | dht.go:479-482 | in every interleaving of several senders a count is what is missing: never negative, zero exactly when all is in |
| `Accounting.NoFinishWhileBatchMissing` | journey.go:188-190 | finish cannot succeed while a sender that answered has a batch missing |
| `Accounting.AllArriveIff` | listener.go:237-255 | every batch is reassembled by the requester if and only if the largest fits: bound and overhead at most 512 together, or 509 of overhead for empty values |
| `Accounting.LargeBatchIsLost` | listener.go:237-255 | otherwise there is a list whose only batch is not |
| `StoreProtocol.RunInv` | dht.go:287-342 | over every run a request is pending exactly while it has no outcome, and the callbacks match the outcomes |
| `StoreProtocol.StoreReportsFaithfully` | dht.go:287-342 | with the local node among them: success at most once, exactly when all remotes acknowledged, never with an error |
| `StoreProtocol.FatesAreRecorded` | dht.go:287-342 | over every run the first response or expiry after a request goes out decides its outcome, later ones do not |
| `StoreProtocol.StoreReportsFates` | dht.go:287-342 | with the local node among them: success if and only if every remote request is answered before it expires, one error for each that is not |
| `StoreProtocol.WithoutLocalReportsBoth` | dht.go:327-331 | without it there is a run that reports success and then an error |
| `StoreProtocol.ContradictoryIffNoLocal` | dht.go:295-331 | both can be reported if and only if the local node is not among them |
| `StoreProtocol.LoneRemoteNeverSucceeds` | dht.go:327-331 | a store to one remote node never reports success |
| `StoreRaces.RaceIsAtomic` | cache.go:88-109 | with load, closure and delete as separate steps, a run in which no request is loaded while in use is one of `StoreProtocol` |
| `StoreRaces.NeverAgainIsFaithful` | cache.go:88-109 | so its reports are faithful |
| `StoreRaces.LoadedTwiceContradicts` | cache.go:88-109 | any one request loaded by its response and by the sweep leads to success and then failure |
| `StoreRaces.NeverBothIff` | cache.go:88-109 | the user is never told both if and only if no request to a remote node may be loaded while in use |
| `StoreCalls.StoreCall.SendNext` | dht.go:295-342 | one turn of the store loop |
| `StoreCalls.StoreCall.Callback` | cache.go:78-96 | a reply runs the closure of a pending request once and forgets it |
| `StoreCalls.StoreCall.Sweep` | cache.go:98-114 | exactly the expired requests time out, one error each |
| `FindReplies.NoValueTwice` | dht.go:484-495 | over every run no two values with the same hash reach the user |
| `FindReplies.SilentAfterCompletion` | dht.go:450-455 | once completed, no reply reaches the user |
| `FindReplies.LookupNeverLearns` | dht.go:510-547 | over every run the nodes asked and still to be asked are those it started with, each asked at most once |
| `FindTells.PassesOnNewValues` | dht.go:484-495 | an answer passes on, in order, the values before the first bad entry whose hash is new; a bad entry is reported |
| `FindTells.HandleTells` | dht.go:443-577 | for every reply, what the user is called with, each error in its exact case, and exactly when the journey completes |
| `FindTells.NotFoundIff` | dht.go:499-547 | over every run the user is told that nothing was found if and only if a reply without values completes the journey, and that is the last word |
| `FindTells.ForgetsIff` | dht.go:450-577 | a request is forgotten if and only if the journey is completed, before or by the reply, or it failed with nothing in flight and no route |
| `FindTells.AsksThreeClosest` | dht.go:537-548 | a reply with nodes has the three closest routes asked next, or all there are |
| `FindCompletion.UnansweredLaw` | journey.go:202-208 | over every run the nodes that have not replied are as many as are in flight, and those miscounted |
| `FindCompletion.CompletedMeansAnsweredIff` | dht.go:450-498 | when a journey completes, every node asked has replied if and only if none was miscounted |
| `FindCompletion.CompletesOnlyWhenAnswered` | dht.go:450-498 | so it has if no node replies twice |
| `FindCompletion.BatchesCompleteAlone` | dht.go:450-498 | a node that answers in as many batches as nodes were asked completes the journey alone |
| `FindWaits.WaitsForAllIff` | dht.go:450-498 | a lookup waits for all nodes in every run if and only if no node that is asked or may be asked may reply more than once |
| `FindWaits.RepeaterRun` | dht.go:510-576 | otherwise a run that asks round after round, each for another node's reply, until that node is asked, and completes by its batches |
| `FindWaits.FindStartsSo` | dht.go:411-415 | the state `Find` starts from meets what this needs |
| `FindRequests.PendingUntilCompleted` | cache.go:78-114 | over every run, until the journey completes exactly the requests that have not expired are pending |
| `FindRequests.RunsAreGenuine` | cache.go:78-114 | the closures run are a run of replies, each from a node that was asked |
| `FindRequests.WaitsIfClosuresRunOnce` | cache.go:88-109 | no node replies twice if and only if no closure runs twice; then the journey completes only when all asked have replied |
| `FindRequests.TimeoutCountsAgain` | cache.go:93-109 | with three nodes asked and one answer each, the timeout of the first completes the journey for the third |
| `FindValues.EveryValueReachesTheUser` | dht.go:476-498 | when a journey completes, every value of every responder that answered has reached the user, by hash |
| `FindCalls.FindCall.HandleReply` | dht.go:443-577 | the closure does to the journey what one atomic reply step says, calls the user with exactly what `Told` says, asks the nodes a sorting of the routes puts first, and tells the cache whether to forget |
| `FindCalls.FindCall.PassValues` | dht.go:484-495 | passes values on in order, each hash once, until one cannot be decoded |
| `FindCalls.FindCall.HandleNodes` | dht.go:510-576 | offers the nodes, hands out the first of the sorted routes, or gives up |
| `FindCalls.FindCall.RetryFinish` | dht.go:567-573 | after a round has been handed out, a failed write never finishes the journey |
| `Storage.StoreKeepsFirstOfEach` | storage.go:161-210 | after any Set calls a key has the first of each of its values, in order |
| `Storage.GetsFirstOfEach` | storage.go:120-136 | after any Set calls, Get without a start time gives the first of each value of the key, nothing if there is none |
| `Storage.GetsSinceIff` | storage.go:138-157 | with a start time it answers if and only if a kept value is not too old, with as many as are not; with these if and only if the old ones were set first |
| `Storage.SkipIsFilterIffOldFirst` | storage.go:141-157 | skipping equals filtering if and only if the old values all come first |
| `Storage.LateOldValueIsReturned` | storage.go:141-157 | an older value set after a newer one is returned in its place |
| `Storage.Memory.Set` | storage.go:161-210 | adds a value unless its hash is there; true in either case |
| `Storage.Memory.Get` | storage.go:120-158 | the first of each value set, or those not too old if the old ones were set first; none exactly if there are none |

## Left out

- protocol/protocol.go and event.go: FlatBuffers encoding; events are datatypes.
- Sockets, `listen`, `process`, shutdown, logging and configuration: input, output and wiring.
- database.go: LevelDB and gob are foreign code.
- `storage.cleanup`, `packetManager.cleanup`: expiry sweeps on wall-clock time.
- `bucket.fillBucket`, `bucket.refresh`, `dht.lookup`, `findWithLatency`, latency_router.go: unfinished or easy.
- `findNodes` and its callback: like `Find`, without values or completion check.
- The argument checks and the local shortcut at the start of `Store` and `Find`: easy.
- Nodes are values, so two lists holding the same node object do not see each other's timestamp updates.
- Fragments handed out by `next` and unfragmented packets are copies, not slices of the buffer they come from.
- LateCompare.RunKeeps: every fragment is delivered once and nothing expires; `Repeats.DuplicateReturnsStale` shows what a repeated fragment does. A message of one fragment shares no state and takes no part; what a sender does with a packet is one step.
- WriteQueue.Sender.Flush: a partial socket write that reports no error is not modelled.
- WriteQueue.Sender.Write: the manager's buffers are updated in place, but a partial socket write that reports no error is not modelled.
- Batching.TransferKeys: every store request succeeds; the re-sending of the current batch after a failed one is not modelled.
- StoreProtocol.StoreReportsFaithfully: the lookup, the closure and the deletion in the cache are one step, which `StoreRaces` takes apart; every socket write succeeds.
- FindRequests.PendingUntilCompleted: running a closure and deleting its request are one step, and deadlines are not modelled: a pending request may expire at any time.
- Batching.BatchesFitIff: the length of an event is taken to be the source's estimate of the size of its values and a constant overhead.
- StoreCalls.StoreCall.SendNext: every socket write succeeds.
- FindCalls.FindCall.HandleReply: the removal of a node from the routing table on a timeout and the sending of the next requests are not modelled.
- Storage.Memory.Set: one step; the load-or-store race of two first values of a key is not modelled.
