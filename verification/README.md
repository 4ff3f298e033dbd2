# Flin: a verified model

Flin puts a message queue, a stream log, a document store and a key-value store on BadgerDB, and reaches
them over a binary protocol with pooled connections.  This project models the parts of it that are hard to
get right and proves what they are for.

- **Acknowledging queue** (`AckQueue`, `AckRuns`, `AckStore`, `QueueStorage`, `AckLaws`, `QueueOverlap`, `QueueNames`).
  A machine on values says what push, pop, ack, nack, dead-lettering, expiry sweep and configuration do; its
  runs conserve messages, exclude double leases and bound deliveries.  The storage object runs each operation
  as one transaction on an ordered byte map and is proved to keep messages, state index and configurations in
  step with the machine.  `QueueOverlap` takes the transactions apart into snapshot and commit and lets them
  overlap; `QueueNames` follows pops whose queue names contain ':'.
- **First-in first-out queue** (`LegacyQueue`, `QueueStorage`).  Head, tail and data keys denote a sequence.
- **Stream log** (`StreamInterleaving`, `StreamFetching`, `StreamRecords`, `StreamBuffers`, `StreamStorage`,
  `OffsetCache`, `Stream`).  Publishers, flushers and fetches interleave step by step; fetch, retention, batches
  and commits run on the stored records; consumer groups keep a balanced assignment; consumers read from
  committed offsets.
- **Wire protocol** (`Wire`, `WireCodec`, `Layouts`).  What every request and response means as bytes, exactly
  what the decoders accept, the encoders and decoders as loops over a buffer, and the formats as tables.
- **Go connection pool** (`Pool`).  Callers interleave; the books stay balanced.
- **Node client** (`NodeFrames`, `NodeRequests`, `Cluster`).  Frame reassembly, pairing of requests and
  responses, encoders that throw, batches over several nodes, from the client's lists to the nodes' stores.
- **Document store** (`Documents`, `DocOverlap`, `DocSort`, `DocFind`, `DocLaws`, `DocStore`).  Indexes that
  agree with the documents, writers that overlap, queries by index or by scan, stable sorting.

BadgerDB is a map from byte strings to values with byte-wise key order, and in the storage objects each
transaction is one step.  The queue opens its store with conflict detection off
(internal/queue/storage.go:76), so its overlapping callers are not isolated from each other; what that
changes is proved in `QueueOverlap`.
Each operation of a storage object is stated field by field in its own contract, in the words of `AckLaws`,
`DocLaws` and `Layouts` where those are long, besides being tied to the state machine that the theorems about
runs and schedules are about.
Clock readings, generated ids, hashes and the printed form of floating-point numbers are parameters.
The project is one `dafny verify dfyconfig.toml`.

## Where the code differs from what it says

The model follows the code.

- The acknowledging queue pops in the order of the generated ids, not in the order of the pushes
  (`AckRuns.PopsInOrderIff`), and an expiry sweep does not look at the retry limit
  (`AckRuns.SweepKeepsBelowLimit`).
- Overlapping pops lease one message twice (`QueueOverlap.OverlappingPopsDoubleLease`), and an
  acknowledgement that overlaps a sweep can leave an index entry that makes every pop of the queue fail
  (`QueueOverlap.SweptAndAcknowledgedDangles`, `QueueOverlap.PopFailsIff`).
- Queue names and topics may contain ':', and then scans can meet the keys of other queues and topics
  (`Keys.IndexScanMeets`, `Keys.RecordScanMeets`); a pop of q can lease a message of q:0 and hide it from
  that queue (`QueueNames.ForeignPop`).
- A fetch flushes what is buffered and then reads, but misses what another flusher is about to commit
  (`StreamFetching.FetchCanMiss`, `StreamFetching.ReadsWritesIff`).  Offsets can become readable out of order,
  and a consumer that goes on past a gap never gets what fills it (`StreamFetching.SkippedForGood`).
- A retry limit is stored unsigned: a negative one comes back huge (`QueueCodec.ConfigReadBack`).
- `Queue.Push` and `Queue.Pop` use different stores (`QueueFacade.Queue.Pop`).
- A batch publish is sent without its payload length and cannot be decoded as a request
  (`Wire.PublishBatchNeverRoundTrips`).  The length of a lone key is added to 2 in 16 bits.
- The Node client expects multi-value responses under status 3, as the protocol's comment says; the Go side
  sends 4 (internal/net/protocol.go:43 and 89), so the client rejects every answer to a batch read
  (`Cluster.MGet`).  `Cluster.MGetAs` also states what it would do with answers it understands.
- A node takes each read of at most 32768 bytes for one whole request, so that longer ones are refused
  (`NodeRequests.CarriedIff`): a batch can fail where its entries by themselves succeed.
- A batch write drops entries whose primary is not connected, where single requests fall back to a replica or
  fail (`Cluster.LostWrite`, `Cluster.BatchIsOneByOneIff`).
- A cache fill that overlaps a commit can put an old offset back, and overlapping commits can leave cache and
  store apart (`OffsetInterleaving.StaleFill`, `OffsetInterleaving.CrossedCommits`).
- An indexed query paginates twice, before sorting and after, and takes limit 0 for empty
  (`DocFind.IndexedPageExact`); an index looks a value up by identity where a scan compares printed forms
  (`DocFind.IndexedFindIsScan`); an index on a timestamp never agrees with the documents
  (`Documents.TimestampsSpoil`), creating an index twice lists documents twice
  (`Documents.CreateIndexAgrees`), and updates that overlap can leave old values in the index
  (`DocOverlap.OverlappingUpdatesDisagree`).
- A consumer that asks for no messages can get one (`StreamGroups.Stream.Consume`).
- The stream package does not type-check as it stands (internal/stream/storage.go:82-83 assigns fields that
  internal/stream/storage.go:26-30 does not declare); the model takes `flushCh` for a channel that wakes the
  flusher.

## Model

| member | source | states |
|---|---|---|
| AckQueue.RunWellFormed | internal/queue/storage_ack.go:75-86 | After every run of push, pop, ack, nack, dead-letter, sweep and configuration, each message carries the id it is stored under, is pending or in flight, a pending one has no consumer and no in-flight time, and its delivery count fits 32 bits |
| AckQueue.NextPendingIsPending | internal/queue/storage_ack.go:103-131 | A pop takes a pending message of the queue, and no pending message of the queue has a smaller id |
| AckQueue.PopLeases | internal/queue/storage_ack.go:131-151 | A pop that succeeds turns a pending message into one in flight, counted once more, for that consumer, from that time, with that timeout |
| AckRunLaws.PlaceAfter | internal/queue/storage_ack.go:226-268 | Over runs, where an accepted value is after one more operation: it counts as discarded only if it is rejected at its retry limit without a dead-letter queue, or below its limit without being requeued; at its limit, with such a queue, it is in that queue; acknowledged it is gone; otherwise it stays |
| AckRunLaws.SweepEndsLease | internal/queue/storage_ack.go:340-389 | Over runs, a lease that is still held is taken back by a sweep if and only if it is a sweep of its queue, the timeout of its pop is positive, and the time is past the time of the pop plus the timeout, an int64 sum |
| AckRuns.MessagesConserved | internal/queue/storage_ack.go:57-306 | Over every run with fresh ids, the i-th accepted push is acked, discarded, or live at exactly one address, possibly in a dead-letter queue under a new id, with its value and with its pops as delivery count (modulo 2^32); no live message is anything else |
| AckRuns.LeaseExclusion | internal/queue/storage_ack.go:90-151 | Between two pops of one message lies an operation that took it from in flight back to pending, and it is a requeueing nack of that message or a sweep of its queue |
| AckRuns.BoundedDelivery | internal/queue/storage_ack.go:226-268 | With a fixed positive retry limit, in a queue that is no dead-letter target, a message is delivered at most as often as the limit says, plus once per sweep; without sweeps a pending message is below the limit |
| AckRuns.SweepKeepsBelowLimit | internal/queue/storage_ack.go:340-389 | A sweep keeps every pending message of its queue below the retry limit if and only if no message it takes back has reached the limit |
| AckRuns.BelowLimitIffInTime | internal/queue/storage_ack.go:226-389 | Over a whole run with a fixed positive limit, the pending messages of a queue are below it at every moment if and only if every sweep of the queue is in time in that sense |
| AckRuns.BoundedWhenInTime | internal/queue/storage_ack.go:226-389 | With every sweep in time no message is delivered more often than the limit says, however many sweeps there are |
| AckRuns.SweepIgnoresRetryLimit | internal/queue/storage_ack.go:340-389 | A sweep can be late: a run with limit 1 and one sweep that delivers the same message twice |
| AckRuns.PopsInOrderIff | internal/queue/storage_ack.go:103-117 | Over every run with fresh ids, a pop takes the message that entered the queue first, among those pending, if and only if no pending one that entered later has a smaller id |
| AckRuns.EarliestExists | internal/queue/storage_ack.go:103-117 | Whenever a pop would find a message, there is one that entered first |
| AckRuns.PopOrderIsIdOrder | internal/queue/storage_ack.go:103-117 | The acknowledging queue is not first-in first-out: of two pushed messages the one with the smaller id is popped first, whichever was pushed first |
| AckStore.WriteRepresents | internal/queue/storage_ack.go:70-86 | Writing a message and the index entry of its state, with the other state's entry gone, keeps store and message table in step: an entry (queue, state, id) exists exactly when that message exists in that state |
| AckStore.EraseRepresents | internal/queue/storage_ack.go:175-190 | Deleting a message and its index entry keeps them in step |
| AckStore.ConfigRepresents | internal/queue/storage_ack.go:12-22 | Storing a configuration keeps them in step |
| AckStore.IndexScan | internal/queue/storage_ack.go:103-117 | A scan of one state's index meets exactly the ids of that queue in that state, in ascending order |
| AckStore.AckFrame | internal/queue/storage.go:163-185 | What leaves the acknowledging keys alone leaves the acknowledging queues alone |
| QueueOverlap.SequenceIsRun | internal/queue/storage_ack.go:57-393 | Transactions with snapshot and blind commit that do not overlap are a run of the state machine, and the state index lists exactly the messages |
| QueueOverlap.ScheduleListed | internal/queue/storage.go:76 | After every schedule of overlapping transactions, and in every snapshot, each message is listed under its state, and a listing as pending is right as long as the message exists |
| QueueOverlap.DoubleLeaseIff | internal/queue/storage_ack.go:90-152 | For every schedule, a pop commits its lease over one in force if and only if the last commit since the pop began that wrote the message left it in flight, and brings back a deleted message if and only if that commit deleted it |
| QueueOverlap.OverlappingPopsDoubleLease | internal/queue/storage_ack.go:90-152 | After every schedule, two pops of a queue with a message that both begin before either commits lease the same message to both consumers |
| QueueOverlap.DanglesIff | internal/queue/storage_ack.go:158-192 | For every schedule, a commit leaves a pending entry for a missing message if and only if it deletes a message that is pending by now and was in flight in its snapshot |
| QueueOverlap.SweptAndAcknowledgedDangles | internal/queue/storage_ack.go:158-192 | That happens whenever an acknowledgement of an expired message overlaps a sweep that commits first |
| QueueOverlap.PopFailsIff | internal/queue/storage_ack.go:103-127 | A pop fails for want of the message if and only if the pending id listed first is such an entry, however many messages are pending behind it |
| QueueStore.QueueStorage.SetQueueConfig | internal/queue/storage_ack.go:12-22 | The stored configuration field by field, the limit modulo 2^32, errors included, and that nothing else changes |
| QueueStore.QueueStorage.GetQueueConfig | internal/queue/storage_ack.go:25-54 | The configuration last stored, or 3 retries, 30000 ms and no dead-letter queue |
| QueueStore.QueueStorage.PushMessage | internal/queue/storage_ack.go:57-87 | The new message field by field, and that no other message, no configuration and no first-in first-out queue changes |
| QueueStore.QueueStorage.PopMessage | internal/queue/storage_ack.go:90-152 | The pending message with the least id, leased field by field, in the store and as its consumer sees it; nothing else changes; or why there is none |
| QueueStore.QueueStorage.AckMessage | internal/queue/storage_ack.go:158-192 | The message is gone and nothing else changes; unknown and empty addresses are reported |
| QueueStore.QueueStorage.NackMessage | internal/queue/storage_ack.go:195-270 | With the count at a positive limit and a dead-letter queue: gone here, and there pending under the new id with value and count; without one, gone; below the limit gone, or pending at its address with value and count if it is to be requeued; in each case nothing else changes |
| QueueStore.MoveToDeadLetter | internal/queue/storage_ack.go:273-306 | One transaction takes the message out of its queue and puts value and delivery count into the dead-letter queue as a pending message with a new id |
| QueueStore.QueueStorage.RequeueExpiredMessages | internal/queue/storage_ack.go:309-393 | Exactly the messages in flight of the queue with a positive timeout whose time of pop plus timeout, in 64 bits, is before now become pending, keeping their other fields; all others are unchanged; the number is returned |
| QueueStore.FindExpired | internal/queue/storage_ack.go:316-350 | The scan of the in-flight index finds exactly the messages whose deadline, computed in 64 bits, has passed |
| QueueFacade.Queue.Pop | internal/queue/queue.go:42-56 | A value stored by Push is never returned by Pop, which reads the other store |
| LegacyQueue.PushAppends | internal/queue/storage.go:163-185 | Below overflow a push appends to the sequence its queue denotes and touches no other queue; at the last 64-bit position the tail wraps to 0, all items stay stored, and the queue reads as empty |
| LegacyQueue.PopTakesFirst | internal/queue/storage.go:188-229 | A pop removes and returns the first item |
| LegacyQueue.ClearEmpties | internal/queue/storage.go:287-313 | A clear empties its queue and no other |
| LegacyQueue.LegacyFrame | internal/queue/storage_ack.go:57-87 | Operations on the acknowledging keys leave every first-in first-out queue as it is |
| QueueStore.QueueStorage.Push | internal/queue/storage.go:163-185 | Appends, for every queue name; at the last position all items stay stored, the queue reads as empty, and no other queue changes |
| QueueStore.QueueStorage.Pop | internal/queue/storage.go:188-229 | Returns and removes the first item, or reports an empty queue |
| QueueStore.QueueStorage.Peek | internal/queue/storage.go:232-262 | The first item |
| QueueStore.QueueStorage.Len | internal/queue/storage.go:265-284 | The number of items |
| QueueStore.QueueStorage.Clear | internal/queue/storage.go:287-313 | The queue is empty afterwards, the others unchanged |
| Keys.DataKeyInjective | internal/queue/storage.go:99-101 | Queue and position can be read back from a data key |
| Keys.MessageKeyInjective | internal/queue/storage.go:104-106 | Queue and id can be read back from a message key of a colon-free queue |
| Keys.IndexKeyInjective | internal/queue/storage.go:109-111 | Queue, state and id can be read back from an index key of a colon-free queue |
| Keys.IndexScanMeets | internal/queue/storage.go:109-111 | For all queue names and states: a scan of one queue and state meets the entry of another place, its id free of colons, if and only if the other name is nested in this one, that is, is queue:state or begins with queue:state: |
| Keys.MessageKeysApart | internal/queue/storage.go:104-106 | As long as ids are free of colons, message keys differ for all queue names |
| QueueNames.ForeignPop | internal/queue/storage_ack.go:103-151 | For every queue q and id: when the entry of a message of queue q:0 is the first that a pop of q meets, the pop leases that message; afterwards q:0 has no entry for it, the in-flight entry is filed under q, and its own id still names no message of q that was not there before |
| QueueNames.ForeignLeaseBlocks | internal/queue/storage_ack.go:103-127 | When the first entry met is an in-flight one of q:0, a pop of q fails for want of the message if and only if queue q:1 has no message of that id |
| Keys.RecordPrefixExact | internal/stream/storage.go:287-293 | Among colon-free topics a prefix scan meets only its own topic and partition |
| Keys.RecordScanMeets | internal/stream/storage.go:287-293 | For all topics: a scan of one topic and partition meets a record of another place if and only if the other topic is nested in this one in the same way |
| Keys.ConsumerKeyInjective | internal/stream/storage.go:299-301 | Group, topic and partition can be read back from an offset key of a colon-free group |
| Layouts.KeysWritten | internal/queue/storage.go:94-116 | The texts and separators that the keys are made of |
| QueueCodec.ParseMessageExact | internal/queue/storage.go:359-407 | The decoder accepts exactly the byte strings that begin with the encoding of a message whose fields fit, and returns that message |
| QueueCodec.MessageRoundTrip | internal/queue/storage.go:316-407 | A queue message decodes as it was encoded if and only if its fields fit |
| QueueCodec.ConfigReadBack | internal/queue/storage.go:410-466 | A configuration is read back with its retry limit modulo 2^32 |
| Layouts.QueueMessageLayout | internal/queue/storage.go:316-356 | A stored message as a table of fields and widths |
| Layouts.QueueConfigLayout | internal/queue/storage.go:410-434 | A stored configuration as a table of fields and widths |
| QueueCodec.EncodeQueueMessage | internal/queue/storage.go:316-356 | The buffer filled in place is the encoding |
| QueueCodec.DecodeQueueMessage | internal/queue/storage.go:359-407 | The decoder that advances through the data, and at which positions it ends with an error, a panic or a message |
| QueueCodec.DecodeQueueConfig | internal/queue/storage.go:437-466 | The same for configurations |
| StreamInterleaving.OffsetsPartitioned | internal/stream/storage_atomic.go:12-98 | After every interleaving of publishers and flushers, an offset of a partition is somewhere (reserved, buffered, in a swapped batch, stored, removed, lost with a failed commit) exactly when it is between 0 and the counter; it is in one place only, with its own publisher's message |
| StreamInterleaving.OffsetsUnique | internal/stream/storage_atomic.go:12-54 | Two reservations never get the same offset of a partition, however counters are created concurrently |
| StreamInterleaving.IssuedStays | internal/stream/storage.go:97-124 | What an offset was issued to never changes |
| StreamInterleaving.SettledIff | internal/stream/storage_atomic.go:73-98 | For every schedule, an issued offset is stored, with its message, removed by retention, or lost with a failed commit if and only if it is neither with its publisher, nor buffered, nor in a batch under way |
| StreamInterleaving.EmptyBufferSettledIff | internal/stream/storage_atomic.go:73-98 | For every schedule after which the buffer is empty, all offsets that have left their publisher are settled in that sense if and only if no flusher holds a batch with a message in it |
| StreamInterleaving.QuietStateIsStored | internal/stream/storage_atomic.go:73-98 | In particular, with nobody half-way and the buffer empty, every offset from 0 to the counter is stored with its own message, removed or lost |
| StreamInterleaving.AppendAlone | internal/stream/storage.go:97-124 | After every schedule, a publisher that nothing interrupts takes the next offset of its partition and puts a message with everything that was passed behind the partition's buffer, and nothing else changes |
| StreamInterleaving.FlushAlone | internal/stream/storage_atomic.go:73-98 | After every schedule, a flush that nothing interrupts stores every buffered message unchanged, keeps what was stored and stores nothing else |
| StreamInterleaving.LosesAndRemoves | internal/stream/storage.go:235-276 | A failed commit loses exactly its batch, and retention removes exactly the stored records it names |
| StreamFetching.DueIs | internal/stream/storage.go:127-130 | What a fetch owes its caller: the offsets issued, and past their publisher, when it began |
| StreamFetching.FetchMissesIff | internal/stream/storage.go:127-164 | For every schedule of publishers, flushers and fetches with their own swap, commit and read, an offset due to a fetch is still unsettled when it reads if and only if it was swapped out by another flusher that has not committed; and the fetch sees it if and only if it is stored |
| StreamFetching.ReadsWritesIff | internal/stream/storage.go:128-130 | Read-after-write holds for a fetch if and only if no other flusher holds a message that was due to it |
| StreamFetching.FetchCanMiss | internal/stream/storage_atomic.go:73-98 | It can fail: a published message that a flusher has swapped out but not committed is missed by a fetch that begins only then |
| StreamFetching.NoGapIff | internal/stream/storage.go:127-164 | For every schedule, a fetch has no gap below an offset that it finds, retention and failed commits apart, if and only if no lower offset of its range is still with its publisher, buffered or being flushed |
| StreamFetching.SkippedForGood | internal/stream/storage.go:97-124 | After every schedule, a consumer that goes on past an offset it has found never gets a lower one that was still with its publisher, even once that is stored |
| StreamFetching.FetchCanHaveGap | internal/stream/storage.go:97-124 | There are such gaps: offset 1 is stored and found while offset 0 is still with its publisher |
| StreamCodec.ParseRecordExact | internal/stream/storage.go:332-361 | The message decoder accepts exactly what begins with the encoding of a record that fits |
| StreamCodec.RecordRoundTrip | internal/stream/storage.go:308-361 | A stored message decodes as it was encoded if and only if its key and value fit their length fields |
| Layouts.RecordLayout | internal/stream/storage.go:308-330 | A stored stream message as a table of fields and widths |
| StreamCodec.EncodeMessage | internal/stream/storage.go:308-330 | The buffer filled in place is the encoding |
| StreamCodec.DecodeMessage | internal/stream/storage.go:332-361 | The decoder that advances through the data |
| Decimal.Pad20Order | internal/stream/storage.go:287-289 | Twenty-digit zero-padded numbers are ordered byte-wise as the numbers are |
| StreamRecords.RecordKeyOrder | internal/stream/storage.go:287-289 | The message keys of a partition are ordered as their offsets |
| StreamRecords.SeekFinds | internal/stream/storage.go:142-147 | Seeking to the key of a start offset, negative or not, finds exactly the records from there on |
| StreamRecords.FirstFromUnique | internal/stream/storage.go:127-164 | The description of a fetch determines its result |
| StreamStore.StreamStorage.FetchMessages | internal/stream/storage.go:127-164 | What was buffered is stored first, field by field; then the stored records of the partition with offset at least start, in offset order, at most n, and one can only be missing if n lower ones are there; a negative n panics after the flush |
| StreamStore.StreamStorage.AppendMessage | internal/stream/storage.go:97-124 | The next offset of the partition, and behind its buffer one message whose topic, partition, offset, key, value and timestamp are those passed; the other buffers and counters are unchanged |
| StreamStore.AppendThenFetch | internal/stream/storage.go:97-164 | A fetch of one message from the offset that an append returned has the key, value and timestamp of that append |
| StreamStore.StreamStorage.FlushWrites | internal/stream/storage_atomic.go:73-98 | Every buffered message is stored under its topic, partition and offset with its timestamp, key and value; what was stored stays; nothing else is; the buffer is empty |
| StreamStore.StreamStorage.DeleteOldMessages | internal/stream/storage.go:235-276 | Exactly the records of that partition older than the cutoff are gone, and their number is returned |
| StreamStore.StreamStorage.GetPartitionOffset | internal/stream/storage_atomic.go:12-54 | The counter of a partition, created at -1 in a store that has no offset key |
| StreamStore.StreamStorage.CommitOffset | internal/stream/storage.go:174-182 | The committed offset of that group, topic and partition, and no other change |
| StreamStore.StreamStorage.GetConsumerOffset | internal/stream/storage.go:185-202 | The last committed offset, or 0 |
| StreamStore.StreamStorage.AppendMessageBatch | internal/stream/storage_batch.go:9-48 | Message i has the old counter plus 1 plus the number of earlier batch messages of its partition as offset, and is buffered behind those with its own topic, partition, key, value and timestamp; counters and buffers grow by the number of messages, and others are unchanged; so one-by-one appends would leave them |
| StreamStore.AppendBatch | internal/stream/storage_batch.go:18-48 | The same for every order in which the map of partitions is visited |
| StreamBuffers.BatchIsEach | internal/stream/storage_batch.go:9-48 | The partition-wise description of a batch holds of a result if and only if appending the messages one by one gives it |
| OffsetInterleaving.StartsAreCommitted | internal/stream/stream_helpers.go:9-33 | With lookup, store read, cache fill and the two writes of a commit interleaved in any way, every start offset handed out is 0 or was passed to a commit for its key, so not past the greatest one |
| OffsetInterleaving.FillAgreesIff | internal/stream/stream_helpers.go:26-31 | For every schedule, a fill leaves the stored offset in the cache if and only if no commit has stored another one since the fill's own read |
| OffsetInterleaving.CacheAgreesIff | internal/stream/stream_helpers.go:9-33 | For every schedule after which nobody is under way, a cached offset is the stored one if and only if no commit stored another one after the call that wrote the cache last had accessed the store |
| OffsetInterleaving.StaleFill | internal/stream/stream_helpers.go:26-31 | A fill that read the store before a commit finished puts the old offset back into the cache: five steps after which a lookup answers 0 though another offset is stored |
| OffsetInterleaving.CrossedCommits | internal/stream/stream.go:378-387 | Two overlapping commits can leave one offset in the cache and the other in the store, for good |
| OffsetInterleaving.SequentialIsExact | internal/stream/stream.go:378-387 | Calls that do not overlap get exactly the offset last committed |
| StreamGroups.RebalanceGroup | internal/stream/stream.go:260-302 | For every enumeration order of the consumers the assigned ranges are contiguous, disjoint, cover all partitions and differ in size by at most one |
| StreamGroups.BalancedForOneCount | internal/stream/stream.go:75-99 | An assignment fits one partition count only |
| StreamGroups.TopicKeepsBalance | internal/stream/stream.go:75-99 | Creating a topic, or creating it anew, keeps all groups balanced if and only if those on that topic are balanced for its partition count already |
| StreamGroups.Stream.CreateTopic | internal/stream/stream.go:75-99 | The topic has its count, 4 if none is given, and the groups stay balanced exactly under that condition; nothing is asked of the groups |
| StreamGroups.Stream.Subscribe | internal/stream/stream.go:201-233 | Every group on a known topic stays balanced; on an unknown topic the consumer stays registered without partitions, the others keep theirs, and the call fails |
| StreamGroups.Stream.Unsubscribe | internal/stream/stream.go:236-257 | The consumer is gone, the group with its last one, and otherwise balanced again; when the topic is unknown the consumer is gone too and the call fails |
| StreamGroups.Stream.Consume | internal/stream/stream.go:305-375 | Each block of a batch is the first records of one of the consumer's partitions from the committed offset on, at most count divided by the number of partitions, or one; no partition twice; at most as many messages as asked for, or one when none was; collecting stops only when there are enough or every partition is in, and not later; so a consumer that asks for something gets something if any of its partitions has a record it has not passed; for every arrival order |
| StreamGroups.Stream.GetCachedOffset | internal/stream/stream_helpers.go:9-33 | The committed offset, from the cache or from the store |
| StreamGroups.Stream.Commit | internal/stream/stream.go:378-387 | Cache and store both hold the offset |
| StreamGroups.ChoosePartition | internal/stream/stream.go:145-155 | The requested partition if the topic has it, else the one the key's hash gives, else the one the clock gives; always one the topic has |
| Wire.ParsePayloadExact | internal/net/protocol.go:393-601 | For each operation the decoder accepts exactly the payloads that begin with the encoding of a request whose fields fit, and returns that request |
| Wire.ParsePairsExact | internal/net/protocol.go:497-539 | The MSET loop reads back keys and values, in order, exactly when there are as many as announced and they fit |
| Wire.ParseSingleExact | internal/net/protocol.go:481-495 | A lone key is accepted up to 65533 bytes; beyond, its end computed in 16 bits wraps around |
| Wire.RequestRoundTrip | internal/net/protocol.go:144-449 | A length-framed request decodes as it was sent if and only if its fields fit and header and payload fit 32 bits |
| Wire.PublishBatchNeverRoundTrips | internal/net/protocol.go:1584-1622 | A batch publish is never decoded as it was sent: its encoder leaves the payload length out |
| Wire.PublishBatchPayloadRoundTrips | internal/net/protocol.go:1513-1622 | What follows its operation code does decode as it was sent, if and only if the fields fit |
| Wire.ResponseRoundTrip | internal/net/protocol.go:604-731 | A response decodes as it was sent if and only if its parts fit |
| Wire.FramePayload | internal/net/protocol.go:393-405 | A frame gives its payload back if the payload leaves room for the header in 32 bits, and otherwise never |
| Wire.ParseSingleEnds | internal/net/protocol.go:481-495 | A lone name whose length is 65534 or 65535 makes its decoder panic; any other incomplete one is an error |
| Wire.PayloadEnds | internal/net/protocol.go:393-405 | Too little payload is an error; a payload length with no room for the header in 32 bits makes the decoder panic |
| Layouts.RequestLayout | internal/net/protocol.go:8-34 | Every request as a table: its code, its payload length in four bytes, and each field of its payload with the width of its length, most significant byte first |
| Layouts.ResponseLayout | internal/net/protocol.go:35-95 | Every response as a table, with status 0, 1, 2 or 4 |
| RemotePublish.SamePartitionChosen | internal/stream/stream.go:131-166 | Partition -1 arrives as 2^32-1, and a remote publish goes to the partition a local one would go to |
| WireCodec.EncodeOK | internal/net/protocol.go:604-609 | The response without a payload |
| WireCodec.EncodePlain | internal/net/protocol.go:612-665 | Value and error responses |
| WireCodec.EncodeKeyValue | internal/net/protocol.go:144-173 | SET, QPUSH and the document requests: the buffer filled in place is the encoding |
| WireCodec.EncodeSimple | internal/net/protocol.go:216-234 | Requests with a lone key |
| WireCodec.EncodeMSet | internal/net/protocol.go:237-281 | MSET, with the total size added up beforehand; lists of different lengths give nil |
| WireCodec.EncodeMKeys | internal/net/protocol.go:284-343 | MGET and MDEL |
| WireCodec.EncodePublish | internal/net/protocol.go:734-769 | Stream publish, the partition as its low 32 bits |
| WireCodec.EncodeConsume | internal/net/protocol.go:772-807 | Stream consume |
| WireCodec.EncodeCommit | internal/net/protocol.go:810-842 | Stream commit, the offset as a 64-bit pattern |
| WireCodec.EncodeCreateTopic | internal/net/protocol.go:845-871 | Topic creation |
| WireCodec.EncodeMembership | internal/net/protocol.go:874-943 | Subscribe and unsubscribe |
| WireCodec.EncodeDocIndex | internal/net/protocol.go:1004-1030 | Document index |
| WireCodec.EncodePublishBatch | internal/net/protocol.go:1584-1622 | Batch publish, without a payload length |
| WireCodec.EncodeMultiValue | internal/net/protocol.go:624-652 | Multi-value response |
| WireCodec.DecodeRequest | internal/net/protocol.go:393-449 | The request decoder and its dispatch, with the end of the payload computed in 32 bits |
| WireCodec.DecodeSimple | internal/net/protocol.go:481-495 | A lone key, with its end computed in 16 bits |
| WireCodec.DecodeMSet | internal/net/protocol.go:497-539 | The MSET loop |
| WireCodec.DecodeMKeys | internal/net/protocol.go:541-571 | The MGET and MDEL loop |
| WireCodec.DecodePublish | internal/net/protocol.go:1092-1140 | Stream publish |
| WireCodec.DecodeConsume | internal/net/protocol.go:1142-1190 | Stream consume |
| WireCodec.DecodeCommit | internal/net/protocol.go:1192-1235 | Stream commit |
| WireCodec.DecodeCreateTopic | internal/net/protocol.go:1237-1268 | Topic creation |
| WireCodec.DecodeMembership | internal/net/protocol.go:1270-1354 | Subscribe and unsubscribe |
| WireCodec.DecodeDocIndex | internal/net/protocol.go:1482-1511 | Document index |
| WireCodec.DecodePublishBatch | internal/net/protocol.go:1513-1582 | The batch publish loop, with its limit of 10000 |
| WireCodec.DecodeResponse | internal/net/protocol.go:668-699 | The response decoder |
| WireCodec.DecodeMultiValue | internal/net/protocol.go:701-731 | The multi-value loop |
| Pool.PoolAccounting | internal/net/pool.go:87-170 | Over every interleaving of callers and dying connections the counter equals the connections idle, lent, being dialled or handled, and dead but not yet subtracted; it never exceeds the maximum; no connection is in two places; and no caller finds the pool full when it returns one |
| Pool.RoomToPut | internal/net/pool.go:156-170 | A connection that is returned counts itself, so the channel has room for it |
| Pool.GetsOldestIdle | internal/net/pool.go:87-104 | Without interruption a caller gets the connection that has been idle longest, if it is alive |
| Pool.GetsNewConnection | internal/net/pool.go:107-132 | With none idle and room below the maximum it gets a new one |
| Pool.FailedDialGivesBack | internal/net/pool.go:117-130 | A failed dial gives its place back |
| Pool.WaitsForReturned | internal/net/pool.go:133-170 | With none idle and no room it waits and gets the next connection that is returned |
| Pool.GivesUpDeadIdle | internal/net/pool.go:87-104 | A dead idle connection is given up, and the caller goes on to make a new one |
| Pool.ReturnsToTheEnd | internal/net/pool.go:145-170 | A returned connection goes behind the other idle ones |
| Pool.DropsDeadReturned | internal/net/pool.go:145-156 | A dead one is not kept |
| Pool.NewConnectionPool | internal/net/pool.go:49-84 | The pool exists exactly when the sizes make sense and every initial dial succeeds; then it has the minimum number of idle connections and its books are balanced; at the first failed dial exactly the connections made before are closed, in order |
| NodeFrames.FramesAreTheStream | clients/nodejs/src/index.ts:571-602 | Frames and leftover are the byte stream: nothing is lost, nothing invented |
| NodeFrames.FramesUnique | clients/nodejs/src/index.ts:571-602 | There is no other way to read a stream as frames followed by an incomplete one |
| NodeFrames.ChunkIndependence | clients/nodejs/src/index.ts:566-602 | Frames and leftover of a stream do not depend on how it is split into chunks |
| NodeFrames.ResponsesAreFramed | clients/nodejs/src/index.ts:571-602 | The concatenation of encoded responses comes apart into those responses, with nothing left over |
| NodeFrames.RunIsPaired | clients/nodejs/src/index.ts:566-655 | Over every interleaving of requests and chunks, request i is settled by frame i as soon as that frame is complete, and the others wait in order |
| NodeFrames.RequestsGetTheirOwnResponses | clients/nodejs/src/index.ts:566-655 | When the server answers request i with response i, every settled request has the outcome of its own response: a value, null for an empty or missing one, a rejection with the error's message, and always a rejection for several values, which the server numbers 0x04 and the client expects as 0x03 |
| NodeFrames.MultiPayloadIsRead | clients/nodejs/src/index.ts:605-623 | Under the client's own status number a multi-value payload is read value by value, empty ones as null |
| NodeFrames.MultiOutcome | clients/nodejs/src/index.ts:587-598 | What a client makes of a multi-value response: its values if it takes the number the server uses for that status, and otherwise a rejection |
| NodeFrames.ParseMultiValue | clients/nodejs/src/index.ts:605-623 | The parsing loop, with its range errors and the truncation of a last value that promises too much |
| NodeFrames.ValuesEnd | clients/nodejs/src/index.ts:605-623 | Behind complete values, a last one that promises too much is cut short, fewer than four bytes of length are a range error, and so are fewer than two bytes of count |
| NodeFrames.Connection.HandleData | clients/nodejs/src/index.ts:566-569 | The new buffer, queue and settled requests in terms of the frames of buffer and chunk |
| NodeFrames.Connection.ProcessResponses | clients/nodejs/src/index.ts:571-603 | The loop ends, each turn taking at least five bytes, and hands the frames to the waiting requests in order |
| NodeFrames.Connection.SendRequest | clients/nodejs/src/index.ts:632-655 | A request joins the end of the queue of waiting ones |
| NodeRequests.EncodeSetRequest | clients/nodejs/src/index.ts:805-829 | The single write as bytes, or a range error exactly when a length does not fit its field |
| NodeRequests.EncodeMSetRequest | clients/nodejs/src/index.ts:871-906 | The batch write as bytes, or a range error exactly when the number of entries, a key, a value or the payload does not fit its field |
| NodeRequests.EncodeBatchRequest | clients/nodejs/src/index.ts:916-945 | The batch read or delete as bytes, or a range error in the same cases |
| NodeRequests.CarriedIff | internal/server/server.go:440-462 | A node takes what one read gives it for one request: what the client has written is decoded as it was sent if and only if it is no longer than the read, and otherwise nothing is decoded from that read |
| Cluster.MGet | clients/nodejs/src/index.ts:440-477 | As it is written: a batch read gets through if and only if no node is asked at all, and then every position is null |
| Cluster.MGetAs | clients/nodejs/src/index.ts:440-477 | For every order in which the nodes answer, and any number taken for the multi-value status: with the number the nodes send, position i holds what the owner of key i has for it, or null where no owner is known or connected, and the call fails exactly when a node is asked for an empty key or its request does not reach it (a length that does not fit its field, or more than one read of the node); with any other number it fails exactly when a node is asked |
| Cluster.NodeMGet | internal/server/kv_handlers.go:69-91 | A node sends a multi-value response with one value per key in order, an absent value as an empty one, and an error for a batch with an empty key |
| Cluster.AskMGet | clients/nodejs/src/index.ts:695-698 | One connection's batch read, from encoder to outcome: it is understood exactly when the statuses agree, no key is empty and the request reaches the node |
| Cluster.MSet | clients/nodejs/src/index.ts:407-438 | For every order in which the nodes take their groups, a connected node that takes its group has the last value of the batch for each of its keys and everything else as before; one that refuses it, for an empty key or because the request does not reach it, keeps all; the call succeeds exactly when no node refuses its group |
| Cluster.SendMSet | clients/nodejs/src/index.ts:690-693 | One connection's batch write, through the client's encoder, one read of the node and the node's decoder into its store |
| Cluster.Set | clients/nodejs/src/index.ts:347-355 | A single write, through connection with fallback, encoder, read, decoder and store |
| Cluster.ConnectionIs | clients/nodejs/src/index.ts:305-338 | A single request goes to the primary if it is connected, else to the first connected replica in the order listed; it is an error if there is none or the partition is unknown |
| Cluster.NodeMSet | internal/server/kv_handlers.go:51-67 | Collecting the pairs in a map and writing them as one batch is setting them one after the other |
| Cluster.BatchIsOneByOneIff | clients/nodejs/src/index.ts:305-438 | A batch write does what its entries do when they are sent one by one and all succeed, for all stores, if and only if the primary of every entry is connected and every node takes its group: no empty key, fewer than 2^16 entries, keys and values that fit their lengths, and the whole request in one read of the node |
| Cluster.SameStoresIff | clients/nodejs/src/index.ts:305-438 | Batch and single requests leave the same stores, for all stores, if and only if every entry that a single request would write has its primary connected and that node takes its group |
| Cluster.AcceptedOneByOne | clients/nodejs/src/index.ts:805-906 | The entries of a group that a node takes could all have been sent by themselves |
| Cluster.LostWrite | clients/nodejs/src/index.ts:421-425 | An entry whose primary is not connected but a replica is gets written there by a single request; the batch writes it nowhere and reports no error |
| Cluster.LastWriteWins | clients/nodejs/src/index.ts:347-355 | After entries have been written one by one, a key whose primary is connected and took the entry reads back as its last value |
| Documents.IndexesAgree | internal/db/db.go:253-496 | Over every careful run of insert, update, delete, index creation and index removal, each posting list holds, once each, exactly the documents whose field has its value, and no list is empty |
| Documents.InsertAgrees | internal/db/db.go:47-83 | An insert keeps the agreement if and only if every indexed field it writes survives JSON and no document of the same id had that field |
| Documents.TimestampsSpoil | internal/db/db.go:63-66 | Once a timestamp is indexed, every insert breaks the agreement |
| Documents.UpdateAgrees | internal/db/db.go:253-304 | An update keeps the agreement if and only if it leaves the id alone and every indexed field of the new document survives JSON |
| Documents.DeleteAgrees | internal/db/db.go:307-327 | A delete keeps the agreement |
| Documents.CreateIndexAgrees | internal/db/db.go:361-408 | Creating an index keeps the agreement if and only if the field was not indexed yet or no document of the collection has it |
| Documents.DropIndexAgrees | internal/db/db.go:411-420 | Dropping an index keeps the agreement |
| DocOverlap.SequentialAgrees | internal/db/db.go:253-327 | Inserts, updates and deletes of one document that do not overlap leave it in the index once under its value and nowhere else |
| DocOverlap.OverlapAgreesIff | internal/db/db.go:253-327 | For every schedule of their steps (read, store, take out of the index, put into the index), index and document agree if and only if the document was put in once under the value stored last, and under no other, since it was last taken out there |
| DocOverlap.OverlappingUpdatesDisagree | internal/db/db.go:259-301 | Two updates that both read before either stores leave the document in the index under both values, after every schedule that ended in agreement |
| DocStore.Store.Insert | internal/db/db.go:47-83 | The stored document field by field, with its own or the new id and both timestamps; every index of the collection has gained the id under the document's value; no other document and no other posting changes |
| DocStore.Store.Update | internal/db/db.go:253-304 | Each field afterwards: gone if unset, the new value if there is one, the old one only when the two are merged; the time; the indexes have lost the old document and gained the new one; no other document changes; replacing by nil panics |
| DocStore.Store.Delete | internal/db/db.go:307-327 | The document is gone, and its id from every index under its value; no other document and no other posting changes |
| DocStore.Store.CreateIndex | internal/db/db.go:361-408 | The index lists what it listed and the documents of the collection that have the value; other indexes and all documents are unchanged |
| DocStore.Store.DropIndex | internal/db/db.go:411-420 | That index is gone and nothing else |
| DocStore.AddToEach | internal/db/db.go:451-468 | Every index of the collection gets the document, for every order in which the map of fields is visited |
| DocStore.DropFromEach | internal/db/db.go:470-496 | Every index of the collection loses the document, emptied lists are deleted |
| DocStore.Store.TryUseIndexes | internal/db/db.go:110-140 | The first equality filter on an indexed field decides; a list as filter value cannot be looked up and panics |
| DocStore.Store.Find | internal/db/db.go:143-235 | Without an indexed equality filter: the stored documents of the collection that pass, each as often as it is stored, in key order or sorted by the number in the field and in key order within one, from the skip on and up to a positive limit.  With one: the same of the ids that the index lists, after they have been cut by skip and limit; nothing or a panic where that cut says so |
| DocLaws.WholeScan | internal/db/db.go:188-235 | Without skip and limit such an answer has exactly the documents of the collection that pass |
| DocFind.IndexedFindIsScan | internal/db/db.go:143-235 | Without pagination, an indexed query finds the same documents, as often, as the scan if and only if no document passes the filters by a value that is merely printed like the one asked for |
| DocFind.OneKindFindsTheSame | internal/db/db.go:143-235 | With one kind of value in the field, the value asked for included, and no other number there printed like it, both paths find the same |
| DocFind.FindIsSound | internal/db/db.go:143-235 | On both paths, for every skip and limit, what is found is a stored document of the collection that passes all filters, and a positive limit is kept |
| DocFind.IndexedPageExact | internal/db/db.go:159-186 | When all listed documents pass, the indexed query returns the right page of the unpaged answer, for every sort, skip and limit, if and only if the skip is 0 and the limit is not, or the skip is past the end, with a sort and a limit only if the documents kept before sorting are the lowest ones; a negative skip panics |
| DocFind.FirstPageExact | internal/db/db.go:159-186 | Whatever the filters reject, an indexed query without a skip finds the right page, for every limit and sort, if and only if there is no limit, no hit, or the first ids it reads, as many as a positive limit says, contain as many hits as the page holds, and with a sort none that ranks above a later one |
| DocFind.LaterPageExact | internal/db/db.go:159-186 | Whatever the filters reject, an unsorted indexed query with a skip finds the right page if and only if that page is empty, or none of the ids skipped is a hit and those read fill the page |
| DocFind.SingleFilterPasses | internal/db/db.go:110-140 | With a single equality filter on an agreeing index all listed documents pass |
| DocFind.SkipsTwice | internal/db/db.go:159-186 | On the index path a positive skip that is at least the limit always finds nothing, whatever the filters, because both are applied twice |
| DocFind.LimitZero | internal/db/db.go:159-186 | A limit of 0 finds nothing on the index path and everything on the scan path |
| DocStore.MatchesFilters | internal/db/helpers.go:8-15 | All filters hold |
| DocStore.MatchesFilter | internal/db/helpers.go:18-44 | A document without the field passes only an inequality; greater, less and their like compare numbers, equality compares printed forms |
| DocLaws.PrintedAs | internal/db/helpers.go:48-50 | How each kind of value is printed |
| DocSort.SortResults | internal/db/helpers.go:111-131 | The in-place bubble sort computes the stable sort by the numeric value of the field, upwards or downwards as asked, and keeps every document |
| DocSort.StableSortIs | internal/db/helpers.go:111-131 | The stable sort is sorted, and keeps the documents of each rank in their order |
| DocSort.StableUnique | internal/db/helpers.go:111-131 | It is the only sequence that is and does so |
| DocSort.SameClassesPermutes | internal/db/helpers.go:111-131 | Keeping the documents of each rank means keeping every document as often as it was |

## Left out

- QueueStore.QueueStorage.SetQueueConfig: a dead-letter queue name without ':', and names that fit their 16-bit lengths.
- QueueStore.QueueStorage.PushMessage: a queue name without ':' (what a scan meets otherwise is `Keys.IndexScanMeets`), an id that is not taken, and lengths that their fields can hold.
- QueueStore.QueueStorage.PopMessage: a queue name without ':' and a consumer id that fits its 16-bit length.
- QueueStore.QueueStorage.AckMessage: a queue name without ':'.
- QueueStore.QueueStorage.NackMessage: a queue name without ':', and a new id that is not taken and fits its length.
- QueueStore.MoveToDeadLetter: source and target names without ':'.
- QueueStore.QueueStorage.RequeueExpiredMessages: a queue name without ':'.
- QueueStore.FindExpired: a queue name without ':'.
- QueueStore.QueueStorage.Push: after a push at the last position the object is no longer `Valid`, so nothing is stated about later calls on that queue.
- QueueOverlap.PopFailsIff: the index is a set of queue, state and id, so queue names with ':', whose scans also meet the entries of other queues, are not covered; the same holds for the other statements of `QueueOverlap`.  What one pop does with such names is `QueueNames`.
- QueueOverlap.DoubleLeaseIff: the acknowledging queues only; overlapping pushes and pops of the first-in first-out queue are not modelled.
- AckRuns.MessagesConserved: delivery counts are stated modulo 2^32, as they are stored.
- AckRuns.BoundedDelivery: the bound must stay below 2^32, the width of the count.
- StreamInterleaving.OffsetsPartitioned: counters are unbounded integers; the wrap-around of an int64 counter is not modelled.  A commit that fails moves its batch to a set of lost offsets.
- StreamStore.StreamStorage.AppendMessage: asks for a colon-free topic, lengths that fit and a counter below the last int64.
- StreamStore.StreamStorage.AppendMessageBatch: asks for a colon-free topic and keys and values that fit.
- StreamStore.StreamStorage.DeleteOldMessages: asks for a colon-free topic.
- StreamStore.StreamStorage.GetPartitionOffset: the stored offset key is read by the code but never written by it, so the claims are about one process lifetime from an empty store.
- StreamStore.StreamStorage.FetchMessages: asks for a colon-free topic (`Keys.RecordScanMeets` says what a scan meets otherwise); one caller at a time, overlapping ones are `StreamFetching`.
- StreamGroups.Stream.Subscribe: groups and assignments are values in a map rather than shared objects with their own locks; heartbeats are not kept.
- StreamGroups.Stream.Consume: asks for a colon-free topic; the partitions are fetched one after the other instead of by goroutines; only the order of arrival varies.
- Documents.IndexesAgree: values are scalars; a list or an object in an indexed field makes the Go map panic.  Numbers are reals, so rounding to 53 bits is not modelled.
- DocStore.Store.Insert: JSON is the map of values that it leaves behind, and the list of indexes that the code saves beside the documents is not kept; collection names are taken without ':' where indexes must agree.
- DocFind.IndexedPageExact: asks that all listed documents pass the filters; without that, `DocFind.FirstPageExact` covers every query without a skip and `DocFind.LaterPageExact` every unsorted one with a skip, which leaves sorted queries with a skip.
- DocOverlap.OverlapAgreesIff: one document and one indexed field whose values survive JSON; index creation and removal do not overlap with the writers.  `Documents` and `DocStore` are about writers one after the other.
- Pool.PoolAccounting: the pool before Close, with each lent connection put back once; waiting callers are not promised a connection, as the code does not.
- NodeFrames.RunIsPaired: without request timeouts and write errors, which take a waiting request out of the queue while its response is still on the way.
- NodeFrames.Connection.ProcessResponses: an error message is kept as its bytes instead of being decoded as UTF-8.
- Cluster.BatchIsOneByOneIff: a pool always yields a connection; a pool that fails to connect, where a single request moves on to the next node and a batch is rejected, is not modelled.
- Cluster.MGetAs: a pool always yields a connection; where the statuses agree, stored values and the answers fit their 32-bit lengths.
- Cluster.MSet: how much of a request is in a node's first read is a number up to its buffer of 32768 bytes, the same for all requests; the rest of a longer request, which the node takes for further requests, is not followed.
- WireCodec.DecodeRequest: every malformed payload is one error, whatever the text; a nil slice and an empty one are the same.
- BadgerDB itself, disk durability, restart, TTL expiry, value-log collection.
- Sockets, deadlines, the HTTP interface, the text protocol, the command line, logging and metrics.
- The key-value store beyond batch reads and writes, cluster deletes, topic metadata and its codec, the flush worker and the retention loop, Count, DeleteMany and FindOne of the document store: they follow from what is modelled or add little to it.
- pkg/protocol/binary.go, a near copy of internal/net/protocol.go with another multi-value status.
- Raft, ClusterKit and topology refresh; the web applications and benchmarks.
