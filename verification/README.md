# DecaFS in Dafny

DecaFS is a distributed file system. A server, the Barista, cuts each file into stripes and each
stripe into chunks, and keeps every chunk on two storage nodes, a primary and a replica. A storage
node, an Espresso, keeps its chunks in one flat data file. This project models both, and the
bipartite matching that comes with the repository's copy of Google Mock.

The modules, from the bottom up:

- `Extents`, `Allocation`, `Conservation`: the set of free extents of a data file, what allocating,
  releasing and moving an extent does to it, and why no byte is lost.
- `EspressoStorage`, `EspressoLayouts`, `EspressoRuns`: the chunk store of a node as a class over its data
  file, where it keeps its chunks, and whole runs of it against a map from chunks to the bytes last written.
- `Nodes`, `Striping`, `FileChunks`, `IoManager`: the packets that nodes get, how a byte range is cut
  into fragments, the order of chunks, and the loops that place chunks and send fragments.
- `Requests`, `WriteRequests`, `ReadRequests`, `DeleteRequests`: outstanding requests and the responses
  they wait for. Each protocol is a state machine, and a class that takes the same steps in place.
- `Acknowledgements`: which packet each acknowledgement of a write answers.
- `PersistentMetadata`, `VolatileMetadata`, `LockingStrategy`, `OpenFiles`: files, cursors, locks, and
  how they fit together.
- `FlatFile`, `FlatReads`: a striped, replicated file is a flat array of bytes.
- `BaristaState`, `BaristaCore`: the calls of the server.
- `RunLog`, `RunOrder`, `ServerRuns`, `ServerPromises`: whole runs of the server with many clients, nodes
  that go down and come back, a network that changes, and responses in any order; what each call does, the
  log of a run, and what clients can rely on after it.
- `ServerCursors`, `ServerPieces`: where a descriptor is in its file from one call to the next, and files that
  are written and read piece by piece.
- `ServerExamples`: runs of a new server in which something goes wrong.
- `BipartiteMatching`, `UnorderedElements`: stand alone.

The network keeps what was sent in one log. A node handles the packets addressed to it in the order
of the log; its responses are in flight until they arrive, which may be at once, while the request is
still being issued, or at any later time and in any order.

Fields that record history (`ledger`, `owner`, `arrived`, `answers`, `flats`, `stale`) are ghost fields: no code reads them.

## Where the code and its promises differ

- Writing no bytes at offset 0 of a new chunk makes an allocation of size 0, which drops a free extent.
  `EspressoStore.WriteChunk` says that this is exactly when a write breaks the store, and
  `ZeroByteWriteLosesTheFile` gives a run. The fragments of the Barista never ask for it, because an
  empty one is at the end of a chunk (`Striping.WellPlaced`, kept by `Striping.FragmentsCut`).
- The order of chunks compares the file id of one chunk with the stripe id of the other
  (`src/lib/decafs_types/file_types.h:114-116`). `FileChunks.WrittenOrderWorks` says for which stripes of
  which files that is an order, and `FileChunks.TwoPieces` what is lost or put together wrongly
  otherwise, beginning with file 2 (`FileChunks.TwoStripesOfFileTwo`). Everything else uses the order that is
  meant.
- Sharing a file that a process of the same user holds exclusively is granted, and makes the lock table
  inconsistent. The locking unit test (`test/locking_strategy_test/locking_strategy_unittest.cc:212`)
  expects a refusal; the model follows the code. `LockTable.GetSharedLock` says that this is exactly the
  request that does it, and `SharingEndsExclusiveLock` gives a run. It also lets a client that is deleting a
  file write to it, which leaves chunks of a file that does not exist (`ServerPromises.DeletedFileKeepsChunk`).
  What is said of deletes is said of runs in which no call makes such a request (`ServerRuns.Obedient`).
- The size of a file counts overwritten bytes again, so it is an upper bound. It is the length of the file
  if and only if every write was made at its end (`BaristaState.SizeExactIffAppended` for one write,
  `ServerPromises.SizesExactIffAppended` for whole runs); `ServerExamples.OverwrittenSizeTooLarge` is a run
  after which it is not.
- When the node of a replica cannot be reached, a write goes on with the other replica node, of which the
  tables know nothing (`src/lib/io_manager/io_manager.cpp:152-162`). The replica is behind from then on, and a
  read that comes from it may return bytes that were overwritten. `FlatReads.CopiesAgreeIff` says exactly when
  the copies of a byte agree after one write, `ServerPromises.StaleBecauseMissed` which replicas are behind
  after a run, and `ServerExamples.ReadAfterMissedWrite` is a run with such a read. When the other replica node
  cannot be reached either, the write is never answered (`ServerPromises.WritesAnsweredInFull`).
- A write to a chunk whose primary cannot be reached, and a read of a chunk of which no copy can be reached, are
  tried again for ever (`src/lib/io_manager/io_manager.cpp:68-71` and `138-142`).
- A delete counts the copies on a node that is taken to be up and cannot be reached, and takes them out of
  the tables, although the node hears nothing of it (`src/lib/io_manager/io_manager.cpp:182-184`). Such a
  delete is never answered (`ServerPromises.DeletesAnsweredOnce`, and the run `ServerExamples.LostDelete`).
- A read past the end of a chunk is clipped, whatever the storage unit test expects
  (`test/espresso_storage_test/espresso_storage_unittest.cc:169-179`).

## Model

| member | source | states |
|---|---|---|
| Extents.CanonicalUnique | src/lib/espresso_storage/espresso_state.h:42-58 | A set of nonempty extents that are in bounds and never touch is determined by which bytes are free: two such sets with the same free bytes are equal, extent for extent. |
| Extents.ExtentsAreMaximal | src/lib/espresso_storage/espresso_storage.cc:39-64 | Every free extent is a maximal gap: all of its bytes are free and the bytes on both sides of it are not. |
| Allocation.TakeFront | src/lib/espresso_storage/espresso_storage.cc:27-33 | Taking the front of the first extent that fits allocates the lowest run of free bytes and keeps the set canonical. |
| Allocation.MergedReleases | src/lib/espresso_storage/espresso_storage.cc:39-64 | Merging a released extent with the free extents that touch it frees exactly its bytes. |
| Allocation.MergedIsCanonical | src/lib/espresso_storage/espresso_storage.cc:39-64 | Merging on both sides leaves no two free extents that touch. |
| Allocation.UnmergeRestores | src/lib/espresso_storage/espresso_storage.cc:77-106 | Cutting an extent out of the free extent that its release merged it into, in all four cases of neighbours, gives back the set from before the release, extent for extent. |
| Allocation.FreeSetDetermined | src/lib/espresso_storage/espresso_storage.cc:15-64 | The free set is a function of the allocated extents alone, independent of how they came about. |
| Allocation.ReleaseUndoesAllocate | src/lib/espresso_storage/espresso_storage.cc:15-64 | Releasing a fresh allocation restores the free set it was taken from. |
| Allocation.AllocateKeeps | src/lib/espresso_storage/espresso_storage.cc:15-37 | After an allocation chunks are still disjoint and the free bytes are exactly those of no chunk. |
| Allocation.MoveKeeps | src/lib/espresso_storage/espresso_storage.cc:66-109 | The same after a chunk is moved, also onto bytes of its old place. |
| Allocation.ReleaseKeeps | src/lib/espresso_storage/espresso_storage.cc:39-64 | The same after a release. |
| Conservation.BytesConserved | src/lib/espresso_storage/espresso_storage.cc:15-109 | Free and allocated sizes add up to the size of the data file, whenever the free extents are the gaps between disjoint chunks. |
| Conservation.NoSumOverflows | src/lib/espresso_storage/espresso_storage.cc:44-51 | With a data file below 2^31 bytes no sum of offset and size over stored extents, nor the merged size of neighbours, leaves the range of a 32-bit int. |
| EspressoStorage.EspressoStore.constructor | src/lib/espresso_storage/espresso_state.cc:5-18 | A fresh store has no chunks and one free extent, the whole file. |
| EspressoStorage.EspressoStore.FindFit | src/lib/espresso_storage/espresso_storage.cc:16-23 | The search loop finds the extent with the lowest offset that is large enough, or shows that all are too small. |
| EspressoStorage.EspressoStore.AllocateChunk | src/lib/espresso_storage/espresso_storage.cc:15-37 | Succeeds if and only if some run of `size` consecutive bytes is free, and then returns the lowest one; exactly its bytes stop being free. For size 0, which extent is lost. |
| EspressoStorage.EspressoStore.DeallocateChunk | src/lib/espresso_storage/espresso_storage.cc:39-64 | Exactly the bytes of the extent become free and the set stays canonical. |
| EspressoStorage.EspressoStore.UndoDeallocation | src/lib/espresso_storage/espresso_storage.cc:77-106 | The failure branch as it is written, case by case, computes the un-merged set. |
| EspressoStorage.EspressoStore.ReallocateChunk | src/lib/espresso_storage/espresso_storage.cc:66-109 | Succeeds if and only if there is room among the free bytes and the bytes of the extent itself, and moves to the lowest such place; on failure the free set and the extent are exactly as before. |
| EspressoStorage.EspressoStore.ReadData | src/lib/espresso_storage/espresso_data.cc:12-38 | When it fails; otherwise exactly the bytes of the chunk from the offset on, clipped at its end, and for a negative offset those of the data file before the chunk. |
| EspressoStorage.EspressoStore.WriteData | src/lib/espresso_storage/espresso_data.cc:40-66 | When it fails, and then changes nothing; otherwise overwrites exactly the bytes addressed, which for a negative offset are before the chunk. |
| EspressoStorage.EspressoStore.ReadChunk | src/lib/espresso_storage/espresso_storage.cc:111-115 | The same of a chunk. |
| EspressoStorage.EspressoStore.WriteChunk | src/lib/espresso_storage/espresso_storage.cc:117-149 | Fails exactly for lack of room, and then changes nothing; otherwise sets exactly its range, keeps every other old byte of the chunk also when that moves over its old place, leaves all other chunks as they are, and takes the lowest place. It keeps the store valid if and only if it does not create a chunk of no bytes while some byte is free. |
| EspressoStorage.EspressoStore.GrowChunk | src/lib/espresso_storage/espresso_storage.cc:134-146 | Moving a chunk and copying back more bytes than were saved keeps all saved bytes and all other chunks. |
| EspressoStorage.EspressoStore.DeleteChunk | src/lib/espresso_storage/espresso_storage.cc:151-166 | Removes exactly the chunk. |
| EspressoLayouts.WrittenPlaces | src/lib/espresso_storage/espresso_storage.cc:117-149 | What a write does, said of the extents alone and without the free set: when it fails, when the chunk stays, and otherwise the lowest place where no other chunk is. |
| EspressoRuns.Run | src/lib/espresso_storage/espresso_storage.cc:111-166 | Every run of writes, reads and deletes from a fresh store: the store refines a map from chunks to known bytes, every result is the one that map explains, and every byte written is the one written there last. A write fails if and only if its chunk is too short and there is no room for it; the places of all chunks are known at every moment, and each is the lowest there was room at. |
| EspressoRuns.KnownIsLastWritten | src/lib/espresso_storage/espresso_storage.cc:111-166 | What is known of a byte is, in every log, exactly what the last write that covers it put there, or nothing if there was none since the chunk was last deleted. |
| EspressoRuns.RefinesHoldsLastWritten | src/lib/espresso_storage/espresso_storage.cc:111-166 | A store that refines the map of its log holds, for every position ever written since the last delete, the last byte written. |
| EspressoRuns.ZeroByteWriteLosesTheFile | src/lib/espresso_storage/espresso_storage.cc:27-30 | A run with one write of no bytes after which no byte of the data file is free or allocated. |
| Nodes.NodeStateIsStore | src/lib/espresso_storage/espresso_storage.cc:111-166 | A chunk store with the log of the packets of a node, and with room for them, has the state that the Barista part ascribes to the node. |
| Nodes.Feed | src/lib/espresso_storage/espresso_storage.cc:111-166 | A real chunk store that is given the packets of a node from a log without harmful writes, and has room for them, holds that state in its data file. |
| FileChunks.WrittenOrderWorks | src/lib/decafs_types/file_types.h:110-118 | The order of chunks as written distinguishes the chunks of a set of stripes of a file if and only if there is at most one stripe, or there are two, i and j, and i <= file id < j; and where it does it is the order that is meant. |
| FileChunks.TwoStripesOfFileTwo | src/lib/decafs_types/file_types.h:110-118 | The first chunks of the first two stripes of file 2: neither comes before the other. |
| FileChunks.TwoPieces | src/lib/barista_core/barista_core.cpp:632-643 | The table of pieces of a read after two pieces from different stripes of a file, for any chunk numbers and either order of arrival: with a file id from the second stripe on one entry is left and the piece that arrived first is lost; with one below the first stripe the pieces are in the order of arrival; otherwise, and with the order that is meant always, in the order of the file. |
| FileChunks.MeantOrderWorks | src/lib/decafs_types/file_types.h:110-118 | The order by file, stripe and chunk does so for all files. |
| Striping.GetFirstStripe | src/lib/barista_core/barista_core.cpp:311-321 | The subtraction loop ends, and computes the stripe and the offset in it, an offset on a boundary being the end of the stripe before. |
| Striping.GetFirstChunk | src/lib/io_manager/io_manager.cpp:330-337 | The same for chunks. |
| Striping.FirstUnitUnique | src/lib/io_manager/io_manager.cpp:330-337 | There is only one pair of unit and remainder, with a remainder of at most one unit and 0 only at the start of the file, that an offset can be split into. |
| Striping.PositionOfLocate | src/lib/io_manager/io_manager.cpp:98-169 | The layout is injective: the place of a byte determines its position in the file. |
| Striping.FragmentsCut | src/lib/io_manager/io_manager.cpp:98-169 | For all stripe and chunk sizes the fragments of a request tile its range in order, every byte goes to the stripe, chunk and offset that division with remainder gives, each fragment fits its chunk, and no chunk gets two fragments. |
| Striping.TilesCover | src/lib/barista_core/barista_core.cpp:706-736 | Every byte of a tiled range lies in one of its fragments. |
| Striping.EmptyFragments | src/lib/io_manager/io_manager.cpp:330-337 | A fragment is empty if and only if it is the first one and the request begins on a chunk boundary inside a stripe. |
| Striping.FragmentsLinked | src/lib/io_manager/io_manager.cpp:98-169 | A fragment that starts a chunk inside a stripe comes right after one that reaches the end of the chunk before. |
| PersistentMetadata.PersistentMetadataTable.GetNewFileId | src/lib/persistent_metadata/persistent_metadata.cpp:140-155 | A new id is above all ids in use and all ids given out since the start. |
| PersistentMetadata.PersistentMetadataTable.AddFile | src/lib/persistent_metadata/persistent_metadata.cpp:74-105 | Adds exactly one empty file under a fresh id, or refuses a known or too long name; the indexes by name and by id stay each other's inverse. |
| PersistentMetadata.PersistentMetadataTable.StatById | src/lib/persistent_metadata/persistent_metadata.cpp:42-59 | Finds a file by id if and only if there is one. |
| PersistentMetadata.PersistentMetadataTable.StatByName | src/lib/persistent_metadata/persistent_metadata.cpp:35-40 | Finds a file by name if and only if the name is known, and then it is the file of that name. |
| PersistentMetadata.PersistentMetadataTable.DeleteFileContents | src/lib/persistent_metadata/persistent_metadata.cpp:107-114 | Takes exactly the file out of both indexes, which stay each other's inverse. |
| PersistentMetadata.PersistentMetadataTable.UpdateFileSize | src/lib/persistent_metadata/persistent_metadata.cpp:116-129 | Changes exactly one size, not below 0. |
| VolatileMetadata.VolatileMetadataTable.SetNodeDown | src/lib/volatile_metadata/volatile_metadata.cpp:58-66 | Takes exactly the node off the list. |
| VolatileMetadata.VolatileMetadataTable.SetNodeUp | src/lib/volatile_metadata/volatile_metadata.cpp:68-76 | Adds exactly the node, once. |
| VolatileMetadata.VolatileMetadataTable.GetNewRequestId | src/lib/volatile_metadata/volatile_metadata.cpp:193-201 | A request id one above the last. |
| VolatileMetadata.VolatileMetadataTable.NewFileCursor | src/lib/volatile_metadata/volatile_metadata.cpp:104-110 | A descriptor above all that were handed out, at offset 0. |
| VolatileMetadata.VolatileMetadataTable.CloseFileCursor | src/lib/volatile_metadata/volatile_metadata.cpp:112-126 | Removes the cursor for the client that opened it, and nothing in the error cases. |
| VolatileMetadata.VolatileMetadataTable.SetFileCursor | src/lib/volatile_metadata/volatile_metadata.cpp:135-157 | Moves exactly one cursor, clamped to the size of its file, for the client that opened it. |
| WriteRequests.WriteRequestTable.CheckWriteComplete | src/lib/barista_core/barista_core.cpp:369-402 | Answers and forgets a request, with both its ids, exactly when responses of both copies are complete; otherwise does nothing. |
| WriteRequests.WriteRequestTable.WriteResponseHandler | src/lib/barista_core/barista_core.cpp:744-762 | Counts a response on the side its id belongs to, adds up primary counts, and checks. |
| WriteRequests.StepKeepsInv | src/lib/barista_core/barista_core.cpp:369-402 | Every step of the write protocol (begin, issue a copy, lose a replica, deliver a response, set the expected counts), on any number of active requests, finds its request and keeps the invariant. |
| WriteRequests.AnsweredOnceWhenComplete | src/lib/barista_core/barista_core.cpp:369-402 | In every reachable state, for every interleaving of acknowledgements with issuing: a write has been answered if and only if all its fragments were issued, no replica was lost and both copies of each acknowledged; it was answered once, to its client, with the sum of the primary counts, and both its ids are gone. |
| WriteRequests.NoResponseLost | src/lib/barista_core/barista_core.cpp:744-745 | No response that is in flight in a reachable state finds its request missing. |
| WriteRequests.WriteRequestTable.Arrive | src/lib/barista_core/barista_core.cpp:744-762 | The table in place takes the delivery step of the protocol, and the handler's assertion holds. |
| WriteRequests.WriteRequestTable.CopySent | src/app/network_mock/network_fake.cpp:34-55 | A copy is issued under the id of its packet, and any responses, also its own, arrive before the send returns. |
| WriteRequests.ArrivalsKeepCounts | src/lib/barista_core/barista_core.cpp:750-769 | However many acknowledgements arrive, and in whatever order: under each id the counts that have arrived and those still to arrive are together the same as before. |
| Acknowledgements.BegunAcknowledged | src/lib/barista_core/barista_core.cpp:691-704 | A new request goes by ids that no packet carries yet. |
| Acknowledgements.SentAcknowledged | src/lib/network_core/espresso_packet_processor.cpp:14-22 | A write packet that goes out puts on its way one acknowledgement under the id that it carries, with the number of its bytes, and keeps it so that there is one for each packet that was ever sent and none besides. |
| Acknowledgements.PacketsOfRequest | src/lib/barista_core/barista_core.cpp:369-402 | As many packets went out under the first id of a request as fragments were issued, with as many bytes in all as are counted; and under its second id one for each, but for those that were lost. |
| WriteRequests.WriteRequestTable.CopyLost | src/lib/io_manager/io_manager.cpp:152-169 | A replica that could not be sent to any node is waited for all the same. |
| WriteRequests.WriteRequestTable.FinishRequest | src/lib/barista_core/barista_core.cpp:737-741 | Setting both expected counts takes the finishing step of the protocol. |
| ReadRequests.ArrivalOrderIrrelevant | src/lib/barista_core/barista_core.cpp:339-367 | Pieces for ascending chunks are put together in the order in which they were asked for, whatever the order in which they arrived. |
| ReadRequests.ReadRequestTable.Assemble | src/lib/barista_core/barista_core.cpp:345-359 | The copying loop computes the pieces in the order of their chunks, and their total length. |
| ReadRequests.ReadRequestTable.CheckReadComplete | src/lib/barista_core/barista_core.cpp:339-367 | Answers with the assembled pieces and forgets the request exactly when all have arrived. |
| ReadRequests.ReadRequestTable.ReadResponseHandler | src/lib/barista_core/barista_core.cpp:632-643 | Stores a piece under its chunk, counts it, and checks. |
| ReadRequests.ReadStepKeepsInv | src/lib/barista_core/barista_core.cpp:339-367 | Every step of the read protocol finds its request and keeps the invariant. |
| ReadRequests.ReadAnsweredInOrder | src/lib/barista_core/barista_core.cpp:339-367 | In every reachable state a read has been answered if and only if all its pieces were asked for and have arrived; it was answered once, with the pieces in file order. |
| ReadRequests.ReadRequestTable.FinishRequest | src/lib/barista_core/barista_core.cpp:627-629 | Setting the expected count takes the finishing step of the protocol. |
| DeleteRequests.DeleteRequestTable.CheckDeleteComplete | src/lib/barista_core/barista_core.cpp:404-432 | With the last acknowledgement, and not before, the file leaves both indexes, its lock is released and the request is answered. |
| DeleteRequests.DeleteRequestTable.DeleteResponseHandler | src/lib/barista_core/barista_core.cpp:812-818 | Counts an acknowledgement, and checks. |
| DeleteRequests.DeleteStepKeepsInv | src/lib/barista_core/barista_core.cpp:404-432 | Every step of the delete protocol, in which both copies share one id, finds its request and keeps the invariant. |
| DeleteRequests.DeletedOnceAfterLastAck | src/lib/barista_core/barista_core.cpp:404-432 | In every reachable state a delete has been answered if and only if it was sent to all copies, none of their nodes was out of reach, and the last one has acknowledged; and it was answered once. |
| LockingStrategy.LockTable.GetExclusiveLock | src/lib/locking_strategy/locking_strategy.cc:32-46 | Granted if and only if the file has no owner; the table otherwise unchanged. |
| LockingStrategy.LockTable.GetSharedLock | src/lib/locking_strategy/locking_strategy.cc:48-64 | When it is granted and what it adds; a consistent table stays consistent if and only if the user does not hold the file exclusively. |
| LockingStrategy.LockTable.ReleaseLock | src/lib/locking_strategy/locking_strategy.cc:66-88 | Succeeds if and only if the process holds the file; the entry goes with its exclusive holder or its last sharer. |
| LockingStrategy.LockTable.HasExclusiveLock | src/lib/locking_strategy/locking_strategy.cc:90-103 | Whether the process holds the file exclusively. |
| LockingStrategy.LockTable.HasSharedLock | src/lib/locking_strategy/locking_strategy.cc:105-120 | Whether the process shares the file. |
| LockingStrategy.HoldersAgree | src/lib/locking_strategy/locking_strategy.cc:32-120 | In a consistent table an exclusive holder is the only holder, and processes that share a file have one user and address. |
| LockingStrategy.Request | src/lib/locking_strategy/locking_strategy.cc:32-88 | One request gets the answer that the log of grants and releases calls for, and the table stays consistent if and only if it is not a request to share what one's own user holds exclusively. |
| LockingStrategy.RunLocks | src/lib/locking_strategy/locking_strategy.cc:32-120 | In every run without such a request the table gives the answers of a lock manager that only reads the log, and holds exactly the grants not yet released. |
| LockingStrategy.SharingEndsExclusiveLock | src/lib/locking_strategy/locking_strategy.cc:48-88 | A run with such a request in which an exclusive holder loses its lock without releasing it. |
| IoManager.PutChunk | src/lib/distribution_strategy/distribution_strategy.cpp:3-22 | A primary goes to one of the two primary nodes, and to one that is up when either is; with both up, to the first for an odd chunk number and to the second for an even one. |
| IoManager.PutReplica | src/lib/replication_strategy/replication_strategy.cpp:3-23 | A replica goes to one of the two replica nodes, and to one that is up when either is; with both up, to the first for an odd chunk number and to the second for an even one. |
| IoManager.PlacedByNumber | src/lib/io_manager/io_manager.cpp:101-131 | What the number of a chunk, and which nodes are up, make of the places of a chunk that is new and of its replica; and that one that is not new stays where it is. |
| IoManager.CopiesOfFragment | src/lib/io_manager/io_manager.cpp:133-163 | What is sent for a fragment: a packet to a primary node under the first id of the request, and one to a replica node under the second id unless it is lost; both write the bytes that the fragment has in the buffer to its place in its chunk. |
| IoManager.UpAfterWrite | src/lib/io_manager/io_manager.cpp:144-162 | The nodes that are taken to be down after a fragment is written are those that were, and the replica node of its chunk if it cannot be reached. |
| IoManager.IoManagerTable.SendCopy | src/lib/io_manager/io_manager.cpp:134-160 | A write packet that gets through is counted and acknowledged by the id and the length that it has itself; one that does not changes nothing. |
| IoManager.IoManagerTable.PlaceChunk | src/lib/io_manager/io_manager.cpp:101-121 | A chunk that has nodes keeps them; a new one gets one of each kind. |
| IoManager.IoManagerTable.WriteReplica | src/lib/io_manager/io_manager.cpp:144-162 | The replica goes to its node; when that cannot be reached the node is taken to be down, the replica goes to the other replica node if that can be reached, and the chunk counts as one whose replica has missed a write. |
| IoManager.IoManagerTable.WriteFragment | src/lib/io_manager/io_manager.cpp:98-169 | One fragment is sent to the primary and replica nodes of its chunk, which is placed first if it is new; what is counted, by the ids of the packets, and whether the replica is lost. Every write packet in the log keeps its acknowledgement. |
| IoManager.NoneLost | src/lib/io_manager/io_manager.cpp:144-169 | Whatever nodes are found to be down on the way: the primaries of a write, and whether it loses a replica, can be told before it; it loses none if and only if for each fragment the replica node or its substitute can be reached. |
| IoManager.IoManagerTable.ProcessWriteStripe | src/lib/io_manager/io_manager.cpp:84-171 | The loop ends although it may move no bytes, if the primaries of its chunks can be reached; it sends exactly the fragments of the stripe to both nodes of each chunk in order, goes on with the substitute where a replica node cannot be reached, and counts copies and lost ones, while responses arrive at any moment. |
| IoManager.IoManagerTable.ProcessReadStripe | src/lib/io_manager/io_manager.cpp:16-82 | The loop ends although it may move no bytes and sends may fail; it asks for the fragments up to the first chunk that does not exist, each from the primary or, when that is down or cannot be reached, from the replica, and returns how many. It needs no more than a copy of each chunk that it asks for within reach. |
| IoManager.IoManagerTable.ReadFragment | src/lib/io_manager/io_manager.cpp:41-77 | One attempt sends exactly the read of the fragment, to the primary when that is up and to the replica otherwise, or fails, sends nothing and takes the primary down. |
| IoManager.PresentIsPrefix | src/lib/io_manager/io_manager.cpp:30-40 | A stripe read asks for all fragments up to the first one whose chunk does not exist, and for none after it. |
| IoManager.StoreMayAnswer | src/lib/espresso_storage/espresso_storage.cc:111-115 | What a chunk store answers to a read is what the Barista part lets a node answer. |
| IoManager.IoManagerTable.GetAllChunks | src/lib/io_manager/io_manager.cpp:316-328 | Exactly the chunks of the file, in order. |
| IoManager.DeletedTables | src/lib/io_manager/io_manager.cpp:173-198 | Of all chunks of the file a delete takes the copies on nodes that are up out of the tables, and nothing else. |
| IoManager.IoManagerTable.ProcessDeleteFile | src/lib/io_manager/io_manager.cpp:173-198 | Takes exactly the copies on nodes that are up out of the tables and counts them, sends a delete to those that can be reached, and remembers how many were not, while acknowledgements arrive at any moment. |
| FlatFile.CopiesWritten | src/lib/io_manager/io_manager.cpp:129-169 | A fragment write puts its bytes on the primary node of its chunk, and on the replica node or the replica counts as behind. |
| FlatFile.CopiesKept | src/lib/io_manager/io_manager.cpp:129-169 | It keeps every other known byte of every chunk on both nodes. |
| FlatFile.WriteRefinesFlat | src/lib/barista_core/barista_core.cpp:649-742 | Issuing the fragments of a range to a file that is stored as a flat array leaves it stored as that array with the range overwritten: every position at its stripe, chunk and offset, on the primary, and on the replica unless that has missed a write to the chunk. |
| FlatFile.OtherFilesKept | src/lib/barista_core/barista_core.cpp:649-742 | Writes to one file keep every known byte of every other file. |
| FlatFile.ReadsKeepFile | src/lib/barista_core/barista_core.cpp:545-630 | Reads change no file. |
| FlatFile.DeletesKeepFile | src/lib/io_manager/io_manager.cpp:173-198 | Deleting one file keeps every known byte of every other file. |
| FlatFile.DeleteLeavesBehind | src/lib/io_manager/io_manager.cpp:173-198 | Of the copies of a deleted file the tables keep exactly those on nodes that are down. |
| FlatFile.DeletedFromNode | src/lib/io_manager/io_manager.cpp:173-198 | A node that is up and can be reached does not have its copy of a deleted chunk any more. |
| FlatFile.WritesPair | src/lib/io_manager/io_manager.cpp:98-121 | A file whose chunks have a primary if and only if they have a replica stays so when it or another file is written. |
| FlatFile.WritesTouchOnly | src/lib/io_manager/io_manager.cpp:98-121 | Writes to one file place no chunk of another. |
| FlatFile.LenInside | src/lib/io_manager/io_manager.cpp:98-169 | When nothing that was sent belongs past the end of a file, no chunk on any node reaches past it. |
| FlatFile.DeletesHeld | src/lib/io_manager/io_manager.cpp:173-198 | Copies that a delete leaves in the tables are still on their nodes. |
| FlatFile.FileDeletesCount | src/lib/io_manager/io_manager.cpp:173-198 | A delete counts one copy for each copy of a chunk of the file on a node that is up, and those that get through are the ones on nodes that can be reached. |
| FlatReads.ReadRefinesFlat | src/lib/barista_core/barista_core.cpp:339-367 | Answers to the fragments that begin before the end of a written range join up to the bytes of the flat array, each from the primary, or from a replica that has missed no write. |
| FlatReads.KnownRangeIsRead | src/lib/io_manager/io_manager.cpp:28-80 | A read of a range that was written, up to where the request or the file ends, asks exactly for the fragments that begin before that end and gets exactly the bytes up to it: no chunk is missing before it, also at a boundary where the first fragment is empty, none exists after it, and the last one is cut where the file ends. |
| FlatReads.CopiesAgree | src/lib/io_manager/io_manager.cpp:84-171 | The two copies of a byte that was written are on different nodes, and agree unless the replica has missed a write to the chunk. |
| FlatReads.CopiesAgreeIff | src/lib/io_manager/io_manager.cpp:144-162 | After the write of a byte its copies agree if and only if the replica node could be reached, or had that byte there before. |
| FlatReads.StaleRead | src/lib/io_manager/io_manager.cpp:38-45 | When it missed the write, a read of the byte that does not come from the primary is answered with what was there before. |
| BaristaState.WriteKeepsAll | src/lib/barista_core/barista_core.cpp:649-742 | A write keeps all files stored, its own as the flat array with the range overwritten and within its new size; it sends nothing that breaks a chunk store, and nothing past the end of the file. |
| BaristaState.DeletesKeepAll | src/lib/barista_core/barista_core.cpp:777-810 | A delete keeps all other files stored. |
| BaristaState.LongerKeepsCursors | src/lib/volatile_metadata/volatile_metadata.cpp:135-157 | When a file grows and the cursor of the writer moves along, every cursor of an existing file is still at most the size of the file. |
| BaristaState.SizeExactIffAppended | src/lib/barista_core/barista_core.cpp:730-732 | After a write the size of a file is its length if and only if it was before and the write was made at the end. |
| BaristaState.AskedAre | src/lib/barista_core/barista_core.cpp:595-626 | A read asks for a fragment of its range if and only if the chunks of the range up to and including its own, in the same stripe, exist. |
| OpenFiles.Opened | src/lib/barista_core/barista_core.cpp:503-539 | Opening a file keeps cursors, locks and pending deletes in step, unless a client shares what its own user holds exclusively. |
| OpenFiles.OffenceGranted | src/lib/locking_strategy/locking_strategy.cc:48-64 | A consistent lock table grants the request to share what one's own user holds exclusively, and is inconsistent after it. |
| OpenFiles.ClosedAndReleased | src/lib/barista_core/barista_core.cpp:764-775 | Closing a descriptor keeps them in step. |
| OpenFiles.DeleteBegun | src/lib/barista_core/barista_core.cpp:777-810 | Beginning a delete keeps them in step: nobody has the file open. |
| OpenFiles.DeletesCompleted | src/lib/barista_core/barista_core.cpp:404-432 | Completing deletes keeps them in step: no descriptor is left without its file. |
| OpenFiles.OwnDescriptorWorks | src/lib/barista_core/barista_core.cpp:560-583 | While they are in step, a client with a descriptor of its own has the file behind it, may read it, and may write it unless it only shares it; who holds it exclusively is alone. |
| BaristaCore.SeekBack | src/lib/barista_core/barista_core.cpp:820-846 | Seeking by the 32-bit form of a negative distance goes back by that distance. |
| BaristaCore.SeekLands | src/lib/barista_core/barista_core.cpp:820-846 | Where a seek ends in a file of any size: at the place given or at the end; at the end, or the last offset of 32 bits; that far forward, or at the end; that far back. |
| BaristaCore.Barista.OpenFile | src/lib/barista_core/barista_core.cpp:473-539 | What an open answers in each case; files that exist keep their bytes, a new one is empty under a fresh id, the cursor is at the start or at the end, and the lock is the one asked for. Cursors, locks and pending deletes stay in step if and only if the open does not share what the client's own user holds exclusively. |
| BaristaCore.Barista.CloseFile | src/lib/barista_core/barista_core.cpp:764-775 | Removes the descriptor and the lock of its client, and nothing else. |
| BaristaCore.Barista.FileSeek | src/lib/barista_core/barista_core.cpp:820-846 | For a client's own cursor: a seek to a place ends there, or at the end of the file if that comes first; a seek to the end ends at the end; one forward that does not overflow ends that far on, or at the end; one by the 32-bit form of a negative distance goes back that far. It returns where the cursor is. No other cursor moves. |
| BaristaCore.Barista.WriteFile | src/lib/barista_core/barista_core.cpp:649-742 | It is refused for want of a lock, a file, a cursor or bytes, and then changes nothing; otherwise the flat array of the file is overwritten at the cursor, the size of the file grows by the length of the buffer, and so does the offset of the descriptor if it is the client's own, while no other cursor moves; the size stays exact if and only if it was and the write appends, and the request waits for both copies of exactly the fragments of the range, the lost ones among them. All files stay stored. It ends if the primaries of its chunks can be reached. |
| BaristaCore.Barista.ReadFile | src/lib/barista_core/barista_core.cpp:545-630 | It is refused for want of a lock, a file or a cursor, or at the end of the file, and then nothing is asked for; otherwise the offset of the client's own descriptor becomes the end of the range, or of the file if that comes first, while no other cursor moves; the request waits for the fragments up to missing chunks, and when the range was written up to where the request or the file ends, and no replica that missed a write is asked, for exactly its bytes up to there. It ends if a copy of each chunk that it asks for can be reached. |
| BaristaCore.Barista.DeleteFile | src/lib/barista_core/barista_core.cpp:777-810 | Refused for an unknown name or a file in use; otherwise the file is locked, exactly its copies on nodes that are up leave the tables, those that can be reached are deleted, the request remembers how many copies that are and how many were lost, and the file goes away with the last acknowledgement. All other files stay stored. |
| BaristaCore.Barista.WriteResponse | src/lib/barista_core/barista_core.cpp:744-762 | A response at any time keeps the server valid. |
| BaristaCore.Barista.ReadResponse | src/lib/barista_core/barista_core.cpp:632-643 | The same for reads. |
| BaristaCore.Barista.DeleteResponse | src/lib/barista_core/barista_core.cpp:812-818 | The same for deletes; cursors and locks stay in step. |
| BaristaCore.WriteAnsweredWithLength | src/lib/barista_core/barista_core.cpp:369-402 | An accepted write is answered when and only when for each fragment the replica node or its substitute could be reached and both copies of all fragments are acknowledged, once, with the length of its buffer. |
| BaristaCore.ReadAnsweredWithBytes | src/lib/barista_core/barista_core.cpp:339-367 | An accepted read of a range that was written up to where the request or the file ended is answered when and only when all pieces have arrived, once, with the bytes up to there. |
| RunLog.LogSizeExact | src/lib/barista_core/barista_core.cpp:730-732 | For every log and every file that is not deleted in it: size and length agree if and only if every write since the file was made appended. |
| RunLog.StepAgrees | src/lib/barista_core/barista_core.cpp:473-846 | Every event keeps the contents and the sizes of all files what the log says, and the entries of every write, read and delete of the past: with the length of the buffer and the number of lost replicas, with the bytes that a read waits for, and with the number of copies that a delete was issued to and of those it lost. |
| RunOrder.StepOrderly | src/lib/barista_core/barista_core.cpp:473-846 | Every step that keeps order keeps chunks of files that are not being deleted in pairs, chunks in the tables of files that are known, and what is left of every deleted file as it was. |
| RunOrder.WriteOrder | src/lib/barista_core/barista_core.cpp:649-742 | A write touches no file that is deleted or being deleted. |
| RunOrder.DeleteOrder | src/lib/barista_core/barista_core.cpp:777-810 | A delete buries its file: entry and lock stay until it is answered, and of its copies the tables keep those on nodes that are down. |
| RunOrder.ResponsesOrder | src/lib/barista_core/barista_core.cpp:812-818 | Acknowledgements end deletes with their files and locks, and bring nothing back. |
| ServerRuns.Run | src/lib/barista_core/barista_core.cpp:473-846 | Every run of opens, closes, seeks, writes, reads and deletes by any clients, with nodes taken to be down or up, the network changing and responses arriving in any order. The trace has the whole visible state before and after each call, and each call does to it what the server's code does: the file, the position and the cursor of a read or write are those of its descriptor, nothing happens only when the call is refused, and then why, and where nodes are up or reachable matters it is what the state says. The server agrees with the log, and as long as no call shares what its own user holds exclusively everything is in order. A run ends early only at a call that does not end. |
| ServerPromises.ReadsReturnLastWrites | src/lib/barista_core/barista_core.cpp:339-367 | After any run: a read that was not refused, of a range written up to where the request or the file ended, and for which no replica that had missed a write was asked, is answered when and only when all its pieces have arrived, once, to its client, with the bytes last written to the file of its descriptor from its cursor on. |
| ServerPromises.AppendedFilesReadToTheEnd | src/lib/barista_core/barista_core.cpp:545-630 | If all writes to the file appended, every read is such a read: one that runs past the end gets exactly the bytes there are. |
| ServerPromises.WritesAnsweredInFull | src/lib/barista_core/barista_core.cpp:369-402 | After any run, a write that was not refused is answered when and only when for each of its fragments the replica node or its substitute could be reached, and both copies of all are acknowledged; once, with its length. |
| ServerPromises.PacketsAcknowledged | src/lib/barista_core/barista_core.cpp:750-769 | After any run, for each of its writes: the packets under its first id went to primary nodes, with all bytes of the buffer in all; those under its second id to other nodes, one for each but for those that were lost; and the counts in the acknowledgements under each id, arrived or on their way, are as a multiset the lengths of its packets. |
| ServerPromises.LastWritesAreStored | src/lib/io_manager/io_manager.cpp:84-171 | After any run, the last byte written to each position of an existing file is held by the primary node of its chunk, at the place that the layout gives it, and by a different node too unless the replica has missed a write to the chunk. |
| ServerPromises.StaleBecauseMissed | src/lib/io_manager/io_manager.cpp:144-162 | After any run, the replica of a chunk is behind if and only if in some write of the run that had a fragment in the chunk its node could not be reached. |
| ServerPromises.CurrentIffNotMissed | src/lib/io_manager/io_manager.cpp:41-57 | A read in any run asks no copy that has missed a write if and only if, for each chunk of its range, either no write of the run so far was missed by the replica, or the primary is up and can be reached. |
| ServerPromises.LastWritesAreOnDisk | src/lib/espresso_storage/espresso_storage.cc:111-166 | After any run, a real chunk store that was given the packets of a node, and has room for them, holds in its data file the last byte written to each position whose primary is on that node, or whose replica is there and has missed no write. |
| ServerPromises.SizesExactIffAppended | src/lib/barista_core/barista_core.cpp:730-732 | After any run, the size of a file that was never deleted is its length if and only if every write to it was made at its end. |
| ServerPromises.NotDeletedNeverRemoved | src/lib/barista_core/barista_core.cpp:777-810 | In a run in which no call shares what its own user holds exclusively, a file that exists and is not being deleted was never deleted before. |
| ServerPromises.DeletesAnsweredOnce | src/lib/barista_core/barista_core.cpp:404-432 | After any run, a delete that was not refused is answered if and only if some copy of the file was on a node that was up, none was on one that was up and could not be reached, and no acknowledgement is still to come; and once, to its client. |
| ServerPromises.DeletesAreFinal | src/lib/barista_core/barista_core.cpp:404-432 | After any run in which no call shares what its own user holds exclusively, for every delete in it that was not refused: the file exists until the delete is answered and never after; no cursor is on it; once answered it is in neither index and not locked; and its copies in the tables are, from the delete on, those that were on nodes that were down. |
| ServerPromises.DeletedWithAllNodesUp | src/lib/io_manager/io_manager.cpp:173-198 | If all nodes of its copies were up when it was deleted, no mapping of the file remains. |
| ServerPromises.OnlyLostNodesStop | src/lib/io_manager/io_manager.cpp:28-169 | In order, the server gets to the end of every write if the two primary nodes can be reached, of every read if all nodes can, and of every other call always. |
| ServerPromises.WritesGoAround | src/lib/distribution_strategy/distribution_strategy.cpp:3-22 | With a primary node lost and known to be down, writes to files without a chunk there are served all the same. |
| ServerPromises.NoStrayChunks | src/lib/io_manager/io_manager.cpp:173-198 | After any such run, every chunk in the tables belongs to a file that exists and is not being deleted, or is left of a file deleted in the run, on a node that was down at that moment. |
| ServerPromises.DeletedFileKeepsChunk | src/lib/barista_core/barista_core.cpp:503-533 | From any state with a pending delete that lost no copy, a run in which the client that is deleting opens the file once more to read it and writes a byte, after which a chunk of the deleted file is still mapped. |
| ServerCursors.CursorRests | src/lib/volatile_metadata/volatile_metadata.cpp:85-140 | In any run, a cursor stays where a call has left it until its descriptor is used again. |
| ServerCursors.WritesFollowOn | src/lib/barista_core/barista_core.cpp:649-742 | In any run, when a client has written through its own descriptor, the next read or write that goes through it begins at the end of what was written. |
| ServerCursors.ReadsFollowOn | src/lib/barista_core/barista_core.cpp:545-630 | In any run, when a client has read through its own descriptor, the next read or write that goes through it begins at the end of the range that was asked for, or of the file if that came first. |
| ServerCursors.SeeksLand | src/lib/barista_core/barista_core.cpp:820-846 | In any run, the next read or write after a seek through an own descriptor begins where the seek was to lead: at the place given, or that far forward or back, or at the end of the file as it was then. |
| ServerPieces.OpenedEmpty | src/lib/barista_core/barista_core.cpp:473-543 | An open that makes a file, and gives out a descriptor, puts that at the beginning of an empty file. |
| ServerPieces.WrittenInPieces | src/lib/barista_core/barista_core.cpp:649-742 | In any run, buffers written one after the other through a descriptor at the beginning of an empty file, with anything else going on that does not concern it, make up the file: its bytes are their concatenation and its size their length. |
| ServerPieces.ReadInPieces | src/lib/barista_core/barista_core.cpp:545-630 | In any run, the answers to reads one after the other through a descriptor at the beginning of a file that was written throughout, and is not changed meanwhile, make up the file as far as was asked for, and the cursor is there or at the end. |
| ServerPieces.FileIsReadInPieces | src/lib/barista_core/barista_core.cpp:339-367 | After any run, for a file to which all writes appended, and reads that asked no copy that missed a write: each read is answered with its bytes when all its pieces have arrived, and together the answers are the file as far as was asked for, the whole file if that was enough. |
| ServerPieces.ReadAtTheEnd | src/lib/barista_core/barista_core.cpp:586-594 | After a run in which all of such a file was asked for through a descriptor, the next read through it is told at once that there are no bytes left. |
| ServerPieces.WrittenIsReadBack | src/lib/barista_core/barista_core.cpp:545-742 | In any run, what was written to an empty file in pieces through one descriptor, and then read in pieces of any other sizes through the same or another one, is the same: the answers put together are the buffers put together. |
| ServerExamples.Start | src/lib/barista_core/barista_core.cpp:435-457 | A server that is put together from new tables and of which all nodes come up is one from which runs can start. |
| ServerExamples.OverwrittenSizeTooLarge | src/lib/barista_core/barista_core.cpp:730-732 | A run: a byte is written and overwritten; the file has one byte, and the size two. |
| ServerExamples.LostDelete | src/lib/io_manager/io_manager.cpp:182-193 | A run: a file is deleted while the node of its primary is taken to be up and cannot be reached. All acknowledgements have arrived, no table leads to a chunk of the file, and the delete is not answered: the file exists and is locked. |
| ServerExamples.ReadAfterMissedWrite | src/lib/io_manager/io_manager.cpp:144-162 | A run: a byte is overwritten while its replica node cannot be reached; when that is back and the primary down, a read waits for the byte that was overwritten. |
| BipartiteMatching.MaxBipartiteMatchState.TryAugment | test/gmock/src/gmock-matchers.cc:259-285 | The search ends; on failure it changes neither array and everything reachable is seen and matched; on success the arrays are mutually inverse again, exactly one more left node is matched, and saturated neighbourhoods are untouched. |
| BipartiteMatching.SetEdgeSetsOne | test/gmock/include/gmock/gmock-matchers.h:3026-3031 | Setting an edge changes this one and no other. |
| BipartiteMatching.EdgesOfRows | test/gmock/include/gmock/gmock-matchers.h:3043-3045 | A matrix that holds the rows of a table one after the other has an edge between an element and a matcher if and only if the row of the element says so. |
| BipartiteMatching.MaxBipartiteMatchState.Compute | test/gmock/src/gmock-matchers.cc:207-238 | Trying each left node once gives a matching of the graph's edges that no other matching exceeds. |
| BipartiteMatching.CoverBoundsMatchings | test/gmock/src/gmock-matchers.cc:216-227 | A saturated neighbourhood around all unmatched left nodes shows that no matching is larger. |
| BipartiteMatching.UnmatchedIsDeficient | test/gmock/src/gmock-matchers.cc:327-340 | If some matcher stays unmatched, a set of matchers accepts fewer elements than it has members. |
| BipartiteMatching.FullMatchingNotDeficient | test/gmock/src/gmock-matchers.cc:327-340 | If every matcher is matched, no such set exists. |
| BipartiteMatching.FindMaxBipartiteMatching | test/gmock/src/gmock-matchers.cc:307-310 | The result is a maximum matching, in the order of the elements. |
| BipartiteMatching.FindPairing | test/gmock/src/gmock-matchers.cc:327-357 | Succeeds if and only if all matchers can be matched at once, which is if and only if no set of matchers accepts fewer elements than it has members. |
| UnorderedElements.AnalyzeElements | test/gmock/include/gmock/gmock-matchers.h:3168-3191 | The matrix that is filled in edge by edge from the list of results says of each element and matcher what the table says. |
| UnorderedElements.MatchingsOfRows | test/gmock/include/gmock/gmock-matchers.h:3019-3058 | The matchings of a matrix are the sets of entries of its rows that are true, no two of which share an element or a matcher. |
| UnorderedElements.VerifyAllElementsAndMatchersAreMatched | test/gmock/src/gmock-matchers.cc:444-495 | Whether every element is accepted by some matcher and every matcher accepts some element. |
| UnorderedElements.MatchAndExplain | test/gmock/include/gmock/gmock-matchers.h:3134-3162 | A container matches if and only if there are as many matchers as elements, and these can be given to the elements, one each, so that every element is accepted by its own. |

## Left out

- `src/lib/persistent_stl`: persistent maps and sets are taken as ideal ordered containers; reopening a store or a server with old data is not modelled.
- Sockets, packets, FUSE, the client programs and the startup scripts. The network is a log of packets, and responses that are in flight until they arrive.
- EspressoStorage.EspressoStore.ReadData: what a read past the end of a chunk returns is not said; the code passes a negative count to the operating system.
- EspressoStorage.EspressoStore.ReadChunk: the same.
- EspressoStorage.EspressoStore.WriteChunk: only for offsets from 0 on; with a negative one the code allocates a chunk of the wrong size, or writes outside the chunk.
- EspressoStorage.EspressoStore.DeallocateChunk: the code keeps using a position in the free set after its element is erased; the model uses the element before the released extent in the set, which is what that position stood for.
- IoManager.IoManagerTable.ProcessWriteStripe: only while the primaries of its chunks can be reached, because otherwise the loop has no end.
- BaristaCore.Barista.WriteFile: the same.
- IoManager.IoManagerTable.ProcessReadStripe: only when some copy of each chunk that it asks for can be reached, for the same reason.
- BaristaCore.Barista.ReadFile: the same.
- ServerRuns.Run: a call that has no end for one of these reasons ends the run.
- Nodes that run out of space: the Barista part takes every write that a node acknowledges to be complete. `Nodes.Feed` says when a chunk store behaves that way.
- Responses that never arrive; a read of which no chunk exists, or a delete of a file without chunks, which wait for ever because nothing was asked for.
- Reads of ranges that were not written completely up to where the request or the file ends: which fragments are asked for is stated, but not which bytes come back for the parts that were never written, nor what a node answers to a read that begins past the end of a chunk.
- The wrap-around of 32-bit request ids, descriptors, file ids and file sizes, which are unbounded here. The file id that comes with a refused file name is -3, not its unsigned form.
- Contention for the metadata lock: the server handles one message at a time.
- Real disk behaviour: the data file is a sequence of bytes, and transfers are whole.
- IoManager.NodeAnswers: it stands for the node that answers a read, and is any answer that the state of the node allows.
- File status texts, access times, directories, `move_chunk`, the monitored strategy and the count of nodes.
- The list of graphs in the matcher tests (`NextGraph`, `Randomize`, `DebugString`) and the explanations that the matchers print.
