# blobcache: a verified model

blobcache is a distributed, content-addressed cache. A server cuts each object into pages, keeps them in a lossy memory
cache and on disk, and serves byte ranges of objects by their hash, in one answer or as a stream. A coordinator keeps the
metadata of a filesystem tree over the cached objects and hands out the locks under which objects are fetched from their
source. This project models that behaviour in Dafny and proves what it promises.

| module | what it models |
|---|---|
| `Decimal`, `Text`, `PageKeys` | printed numbers, splitting and joining, the keys of pages and indices |
| `Paging` | pages of an object, and the specification of a read over whatever pages are resident |
| `StoreState`, `Storage` | the two tiers and the content-addressable storage: add, get, lookup, eviction |
| `Serving` | the server's unary and streamed reads and its uploads |
| `StoreRuns` | every interleaving of concurrent adds, gets, evictions, losses and restarts |
| `StoreLock`, `LockRuns` | the leased lock, and every run of the locked store from a source |
| `RangedDownload`, `DownloadRuns` | the concurrent ranged download: its reassembly, and every schedule of it |
| `Paths`, `BlobFsTree`, `PartialTree`, `MockCoordinator`, `BlobFsOps`, `TreeRuns` | the filesystem tree: paths, the tree, the tree during removals, the coordinator, the operations, every interleaving |
| `MetadataCodec`, `NodeMetadata`, `GenerationRuns` | the reflective struct codec, the generation of node metadata, and every interleaving of its updates |
| `ClientRouting` | the client's choice of host and its failover |
| `BufferPool`, `Prefetching`, `PrefetchedStore` | the pool of buffers, every run of the prefetcher, and its runs joined to those of the store |

Objects that the source updates in place are classes (`ContentAddressableStorage`, `CacheService`, `RedisLock`,
`MockCoordinator`, `BlobCacheMetadata`, `BlobCacheClient`, `BufferPool`); each method is proved against a specification on
values. What is concurrent is a state machine with one event per atomic step, and its theorems speak of every sequence of
events.

What the source reaches outside itself is a parameter or a free choice of the model: the memory cache may drop, refuse or
evict anything at any time, remote calls may fail before or after they took effect, file reads, file writes and directory
creation may fail, time passes by events.

The model assumes:

- Hashes do not collide: a catalogue gives each hash its content. Hashes hold no `-`, `,` or `/`. The ids of tree nodes,
  hashes of their paths, do not collide either.
- A requested hash holds no `/`; one like `x/../h` would resolve to the page files of `h` (`pkg/storage.go:295`).
- One page file is written whole and, when it can be read, read whole; nobody else removes page files.
- The memory cache's own deletes do not run the eviction callback.
- A lease is set if absent with a fresh token and a time to live, and is extended and deleted only by its token, each
  atomically. There is one coordinator, which may restart.
- The kernel passes plain names to the operations of the mounted filesystem.

What the code does not keep is stated as such, with the exact condition:

- Reading exactly at the end of an object whose size is a multiple of the page size is not found, while for any other size it
  delivers nothing without error (`Paging.ExactRead`).
- An object that exists need not be readable (`StoreRuns.ExistsIsNotReadable`); a range of it is readable exactly when it is
  within reach and every page it touches is resident (`Paging.PartialRead`, `StoreRuns.UndisturbedGet`).
- A worker that goes a lease time without refresh lets a second one in (`LockRuns.AcquireBreaksIff`,
  `LockRuns.StalledWorkerBreaksExclusion`), and a release that arrives late can remove the lease of another worker
  (`LockRuns.ForeignReleaseIff`, `LockRuns.LateReleaseBreaksExclusion`).
- A short reply to a range request goes unnoticed (`RangedDownload.ReassemblyExact`), though the buffer's length would tell
  (`RangedDownload.ReassemblyLength`).
- A unary read of a negative length panics (`Serving.CacheService.GetContent`).
- Unlinking a node that has children, removing a node that another operation needs, a removal whose second call fails, and
  every rename to another name break the tree (`BlobFsTree.RemoveKeepsInvIff`, `TreeRuns.StepSafeIff`,
  `BlobFsTree.RemoveNodeKeepsInvIff`, `BlobFsOps.RenamedIff`). Such a rename breaks the links, and not only the renamed
  node's own record, exactly when that node has children (`BlobFsOps.RenamedLinksIff`). A directory's emptiness is checked
  before it is removed, and may be stale by then (`TreeRuns.StaleListing`). Storing the root path breaks the tree too, though
  only by a direct call: the server first reads the path as a file, which fails for the root (`BlobFsOps.StoreRootBreaks`).
- Two overlapping updates of a node can move its generation on only once (`GenerationRuns.GenerationsUnderOverlap`).
- The buffer pool cannot serve requests above its largest bucket (`BufferPool.BufferPool.Get`), and cleaning up a state whose
  goroutine still runs lets a second one start (`Prefetching.SingleIff`).

Where a comment in the source promises otherwise the model follows the code: the pool's comment promises a buffer of at
least the requested size.

`dafny verify dfyconfig.toml` checks the whole project.

## Model

| member | source | states |
|---|---|---|
| `Decimal.ParsePrint` | pkg/redis.go:383-395 | A printed unsigned number below its type's limit parses back to itself |
| `Decimal.ParsePrintInt` | pkg/redis.go:356-381 | Same for signed numbers, with a sign before the digits |
| `Decimal.PrintInjective` | pkg/storage.go:148 | A non-negative number prints like no other number, negative ones included |
| `Text.SplitJoin` | pkg/storage.go:177-178 | Splitting a joined list at the separator gives the list back, for every non-empty list whose parts do not hold it |
| `PageKeys.ChunkKeyInjective` | pkg/storage.go:227 | A page key of a well-formed hash is the key of no other hash, well-formed or not, and of no other index |
| `PageKeys.ChunkKeyIsNotHash` | pkg/storage.go:148 | A page key is never a bare hash, so the two key kinds cannot collide |
| `PageKeys.IndexRoundTrip` | pkg/storage.go:333-342 | Parsing an index string as the eviction callback does recovers the hash and the full list of page keys in order |
| `Paging.ExactRead` | pkg/storage.go:225-283 | With every page resident a read fails exactly when its range is out of reach, and otherwise delivers exactly the requested slice; reads past the end of an object that is not a page multiple are short, those of a page multiple fail |
| `Paging.ReadSound` | pkg/storage.go:225-283 | Whatever subset of the pages is resident, a read that succeeds delivers exactly the requested slice, never a short or shifted one |
| `Paging.PartialRead` | pkg/storage.go:225-283 | With any part of the pages resident, a read from a non-negative offset fails, as not-found, exactly when its range is out of reach or a page of the object that it touches is not resident; otherwise it delivers exactly its slice |
| `Paging.ReadMonotone` | pkg/storage.go:225-283 | A read that succeeds on some resident pages gives the same bytes when more are resident |
| `Paging.ReadSplit` | pkg/server.go:274-304 | A read is the read of a first part followed by the read of the rest, for every split and every set of resident pages, errors and short reads included |
| `Paging.PassTracks` | pkg/storage.go:250-280 | One pass of the loop copies at least one byte and keeps what the loop has delivered in step with the outcome of the whole read; it stops only with that outcome |
| `Paging.StepTracks` | pkg/server.go:274-304 | One step of a read done in steps: an error is an error of the whole, a short step ends the whole with exactly its bytes, a full step goes on |
| `Paging.HasPageIffCounted` | pkg/storage.go:138-141 | An object has exactly the pages counted by rounding its size up |
| `Paging.CountedAll` | pkg/storage.go:138-141 | The paging loop cuts exactly as many pages as rounding up counts |
| `StoreState.PageInMemory` | pkg/storage.go:250-253 | Under a page key memory holds only that page, for any requested hash and index, so the unchecked type assertion on it cannot fail |
| `StoreState.PageOnDisk` | pkg/storage.go:286-323 | A page file holds exactly the page that its name says |
| `StoreState.IndexInMemory` | pkg/storage.go:333-335 | Under a bare hash memory holds only that object's index string |
| `StoreState.CascadeExact` | pkg/storage.go:325-352 | The keys deleted by the callback are the object's full page list when the index was evicted or a page was evicted while the index is present, none when a page was evicted alone, and one empty key for an empty object |
| `StoreState.EvictionExact` | pkg/storage.go:325-352 | Evicting an index, or a page whose index is present, removes every page of that object; a page alone goes alone; the index stays when a page went; no entry of another object changes |
| `StoreState.PageKeysOwned` | pkg/storage.go:337-342 | The listed page keys hold all entries of the object but its index, and nothing of another object |
| `Storage.ContentAddressableStorage.constructor` | pkg/storage.go:40-115 | A new store is empty and its disk is not full |
| `Storage.ContentAddressableStorage.OnEvict` | pkg/storage.go:325-352 | Memory loses exactly the keys of the cascade; the store stays valid |
| `Storage.ContentAddressableStorage.Evict` | pkg/storage.go:325-352 | Memory loses the entry and its cascade, and no type assertion fails |
| `Storage.ContentAddressableStorage.Add` | pkg/storage.go:122-185 | The disk gains only pages of this object, none when it is full; success with the disk available leaves every page on disk, and every page and the index in a lossless memory; the store stays valid on every failure |
| `Storage.ContentAddressableStorage.AddPage` | pkg/storage.go:138-171 | One page: on disk unless full, then in memory unless there; the store stays valid on failure |
| `Storage.ContentAddressableStorage.GetFromDiskCache` | pkg/storage.go:286-323 | Finds only resident pages, and every one that is in memory or in a readable file; delivers exactly the object's page, makes nothing resident that was not |
| `Storage.ContentAddressableStorage.Lookup` | pkg/storage.go:226-248 | Same for the memory-first lookup of one page |
| `Storage.ContentAddressableStorage.ReadPass` | pkg/storage.go:225-281 | One pass delivers the specified pass over the object's own page into the buffer, or misses: always when the page is not resident, and otherwise only when its file cannot be read |
| `Storage.ContentAddressableStorage.Get` | pkg/storage.go:203-284 | Success delivers the read of what was resident into the first bytes of the buffer, and nothing beyond the requested length is written; it takes every page of the range resident, and every one in a readable file suffices, whatever memory loses; with a lossless memory and readable files success holds exactly when the range is within reach and all its pages are resident, and a failure has the error of the read of what was resident |
| `Serving.StreamStep` | pkg/server.go:274-304 | Each step keeps: what was sent is what the unary read would deliver, a prefix of the content, and an error only when the unary read fails |
| `Serving.CacheService.GetContent` | pkg/server.go:249-259 | Panics exactly on a negative length; content answered is the requested slice and takes every page of the range resident, which suffices in readable files; for an object all in readable files content is answered exactly when the range is within reach |
| `Serving.CacheService.GetContentStream` | pkg/server.go:266-307 | Every message is non-empty and at most one stream chunk; the messages together are always bytes of the content from the offset on, and all of the requested slice once the stream has ended; with a fixed set of resident pages an ended stream delivered exactly the unary read and a failed one is a failed unary read; a stream that readable files alone can serve never reports missing content |
| `Serving.CacheService.Store` | pkg/server.go:309-328 | The answered hash is that of the buffer, and on success every page is on disk |
| `Serving.CacheService.StoreContent` | pkg/server.go:423-454 | The answered hash is that of the concatenated messages, however the upload was split |
| `Serving.CacheService.UploadThenStream` | pkg/server.go:423-454 | End to end: after a successful upload an ended stream of the object delivered exactly the uploaded bytes, whatever memory lost meanwhile and however both sides were split, and with readable files no stream reports missing content |
| `StoreRuns.EveryGetIsExact` | pkg/storage.go:203-284 | In every interleaving of adds, gets, evictions, silent losses, disk-full changes, unreadable files and restarts, a get that ended without error delivered exactly its slice of the content its hash stands for |
| `StoreRuns.KeysKeepTheirTypes` | pkg/storage.go:325-352 | In every run bare hashes hold only index strings and page keys only their page, and no type assertion ever failed |
| `StoreRuns.Durable` | pkg/storage.go:130-156 | Once an add has succeeded with the disk never full, then after any later steps every get started since, unless it could not read a file, fails exactly when its range is out of reach and otherwise delivers its slice |
| `StoreRuns.DurableProgress` | pkg/storage.go:239-248 | Such a get also ends: each pass over disk ends it or copies at least one more byte |
| `StoreRuns.EveryEvictionIsExact` | pkg/storage.go:325-352 | From every reachable state an eviction whose steps nothing interrupts, the entry leaving and the callback reading the index and deleting key by key, removes exactly what it should |
| `StoreRuns.DeleteTouchesOwn` | pkg/storage.go:325-352 | In every run, whatever happens between its steps, a delete of the eviction callback takes away no index and no entry of another object |
| `StoreRuns.UndisturbedGet` | pkg/storage.go:203-284 | From every reachable state a get that nothing disturbs delivers its slice exactly when its range is within reach and every page of the object that it touches is resident in either tier, and is not-found otherwise, whether or not the object exists |
| `StoreRuns.UndisturbedGetEnds` | pkg/storage.go:225-283 | From every reachable state such a get can be run to its end by its own passes |
| `StoreRuns.ExistsIsNotReadable` | pkg/storage.go:187-201 | Existence does not promise a readable object: for every non-empty object a run in which it exists and its first byte is not found |
| `StoreRuns.DurableExists` | pkg/storage.go:187-201 | In every run an object that is all on disk exists |
| `StoreRuns.RunKeepsInv` | pkg/storage.go:122-352 | Every step of every run keeps the store invariant, and no step removes a page file |
| `StoreLock.RedisLock.Acquire` | pkg/redis.go:278-300 | Granted exactly as on a free key, refused only on a held one with nothing changed; after a lost connection nothing changed or the lease was taken without a handle |
| `StoreLock.RedisLock.Release` | pkg/redis.go:302-313 | Removes the lease that the remembered handle still owns, or only forgets the handle; an unknown key is reported as not held |
| `StoreLock.RedisLock.Refresh` | pkg/redis.go:315-327 | Extends the lease exactly when the remembered handle still owns it; when the answer is lost it may or may not have done so |
| `StoreLock.LockKeyEqual` | pkg/metadata.go:262-265 | For localities without a colon two sources share a lock exactly when their localities are equal and their paths agree up to slashes and underscores |
| `StoreLock.LockKeyWithColon` | pkg/metadata.go:262-265 | With a colon in a locality two different localities can share a lock |
| `LockRuns.MutualExclusion` | pkg/server.go:570-603 | In every run, over any number of servers, lost messages, releases arriving at any later moment and coordinator restarts, in which no worker goes a lease time without a refresh while it stores or its release is on the way, at most one worker per lock is storing or releasing |
| `LockRuns.ReleaseIsOwn` | pkg/server.go:598-600 | In every such run an arriving release removes at most the releaser's own lease, although it names only the key |
| `LockRuns.ForeignReleaseIff` | pkg/redis.go:302-313 | In every run an arriving release removes another worker's lease if and only if the handle under the key has another token than the releaser's and still holds the live lease |
| `LockRuns.LateReleaseBreaksExclusion` | pkg/redis.go:302-313 | Storing in time is not enough: for every source a release that arrives one lease time late removes the lease of the next worker, which is in time, and lets a third one in |
| `LockRuns.RefreshAdmitsNobody` | pkg/server.go:579-591 | In every run a refresher's tick, even of a worker that has ended, changes no holder and frees or takes no key |
| `LockRuns.AcquireBreaksIff` | pkg/redis.go:278-300 | In every run, timely or not, as long as exclusion holds the next acquire breaks it if and only if the key is free while some worker stores under it |
| `LockRuns.StalledWorkerBreaksExclusion` | pkg/server.go:570-603 | For every source a worker that stalls one lease time lets a second one in |
| `LockRuns.AbandonedLockRecovers` | pkg/server.go:593-596 | From any reachable state in which no refresher of a key is alive, one lease time later the key can be acquired, although the failed worker never released it |
| `RangedDownload.RangesTile` | pkg/s3_client.go:121-125 | The requested ranges are non-empty, lie within the object and follow one another without gap or overlap from its first byte to its last |
| `RangedDownload.PagesFlat` | pkg/s3_client.go:121-125 | The ranges in order make up the object |
| `RangedDownload.DownloadIntoBuffer` | pkg/s3_client.go:96-173 | Succeeds exactly when the object is there, not empty and no range failed; then the buffer holds the chunks in range order whatever the order of arrival, otherwise it is untouched |
| `RangedDownload.ReassemblyExact` | pkg/s3_client.go:156-172 | Whatever the order of arrival and whatever the replies hold, the chunks make up the object if and only if every reply is the whole of its range |
| `RangedDownload.ReassemblyLength` | pkg/s3_client.go:142-148 | When replies are at worst cut short, the chunks make up the object if and only if they are as long as it is |
| `DownloadRuns.InFlightBounded` | pkg/s3_client.go:107-119 | In every schedule at most the configured number of range requests is in flight |
| `DownloadRuns.SendNeverBlocks` | pkg/s3_client.go:133-148 | In every schedule a task ready to send finds a free place in the channel and the channel open |
| `DownloadRuns.EndedIsComplete` | pkg/s3_client.go:151-163 | A collector that stopped has received exactly one result of every task |
| `DownloadRuns.DownloadExact` | pkg/s3_client.go:107-172 | In every schedule, and whatever the replies hold, a collector that stopped has the object in its chunks if and only if every reply was whole |
| `DownloadRuns.DownloadOnSchedule` | pkg/s3_client.go:96-173 | As the caller sees it, for every schedule: success exactly when the object is not empty and no request failed; then the buffer is the object if and only if every reply was whole, which with replies cut short shows in its length |
| `DownloadRuns.NoDeadlock` | pkg/s3_client.go:107-163 | With at least one place in the semaphore some event can happen until the collector has stopped |
| `DownloadRuns.EveryEventProgresses` | pkg/s3_client.go:107-163 | Every event uses up part of a bounded amount of work, so every schedule ends |
| `Paths.PartsRender` | pkg/server.go:331-332 | Cleaning a clean path gives its components back |
| `Paths.JoinRender` | pkg/server.go:344-348 | Joining a name to a clean path appends one component |
| `Paths.RenderInjective` | pkg/server.go:344-350 | Clean paths are equal only when their components are, so their ids are |
| `BlobFsTree.LinkExtends` | pkg/server.go:339-418 | A linked node's path is its parent's path joined with its name, one component longer |
| `BlobFsTree.ReachableFromRoot` | pkg/server.go:339-418 | Every attached node is reached from the root by links, one for each component of its path |
| `BlobFsTree.NoCycle` | pkg/server.go:339-418 | Along any path of links the paths get longer, so no path of links returns |
| `BlobFsTree.OneParent` | pkg/server.go:339-418 | Each node is linked from at most one parent |
| `BlobFsTree.SetNodeKeepsInv` | pkg/server.go:405-409 | Writing a node's metadata, linked or not, new or over an old one, keeps the tree and what is attached |
| `BlobFsTree.AddChildKeepsInv` | pkg/server.go:411-415 | Linking an existing node under its attached parent keeps the tree and attaches it |
| `BlobFsTree.RemoveKeepsInvIff` | pkg/blobfs_node.go:416-438 | Removing a node and the link to it keeps the tree if and only if nothing is linked below it |
| `BlobFsTree.RemoveNodeKeepsInvIff` | pkg/blobfs_node.go:402-411 | Removing only the node, as when the second call fails, keeps the tree if and only if no link touches the node |
| `PartialTree.RemoveNodeIff` | pkg/blobfs_node.go:402-405 | The first call of a removal keeps the tree, but for the link to the node, if and only if nothing is linked below it; nothing else loses its place |
| `PartialTree.RemoveLinkIff` | pkg/blobfs_node.go:408-411 | The second call settles the removal and keeps the tree if and only if nothing is linked below the node by then, even if the node is back |
| `PartialTree.SettledIsTree` | pkg/blobfs_node.go:383-414 | While removals are between their calls the tree without the links to missing nodes is a tree with the same attached nodes |
| `MockCoordinator.MockCoordinator.SetFsNode` | pkg/coordinator_mock.go:107-113 | The tree gains the node's metadata and nothing else changes |
| `MockCoordinator.MockCoordinator.GetFsNode` | pkg/coordinator_mock.go:115-124 | Finds a node exactly when it is there |
| `MockCoordinator.MockCoordinator.RemoveFsNode` | pkg/coordinator_mock.go:126-132 | The tree loses the node, links to and from it stay |
| `MockCoordinator.MockCoordinator.RemoveFsNodeChild` | pkg/coordinator_mock.go:134-148 | The tree loses exactly that link, from a child list without duplicates |
| `MockCoordinator.MockCoordinator.GetFsNodeChildren` | pkg/coordinator_mock.go:150-166 | Lists exactly the existing nodes linked below the node |
| `MockCoordinator.MockCoordinator.AddFsNodeChild` | pkg/coordinator_mock.go:168-185 | The tree gains exactly that link; the child list stays free of duplicates |
| `BlobFsOps.StoreContentInBlobFs` | pkg/server.go:330-421 | Below the root the tree is kept however far the store got; on success every prefix of the cleaned path is there with its own metadata and linked under the one before; a store of the root path that goes through breaks the tree |
| `BlobFsOps.LastPrefixOnly` | pkg/server.go:376 | The rebuilt prefix equals the whole path at the last component and nowhere before, so only the last node gets the file's metadata |
| `BlobFsOps.StoreRootBreaks` | pkg/server.go:339-418 | A store of the root path links the root to itself, whatever the metadata, which is no tree |
| `BlobFsOps.CreateNode` | pkg/blobfs_node.go:261-301 | Creation below a live directory keeps the tree and that directory, however far it got; on success the node is there with its metadata and attached |
| `BlobFsOps.Create` | pkg/blobfs_node.go:261-320 | Same; on success the tree is exactly the old one with that node, of the given mode, set and linked |
| `BlobFsOps.Mkdir` | pkg/blobfs_node.go:322-381 | Same, with the directory bit set |
| `BlobFsOps.RenamedLinksIff` | pkg/blobfs_node.go:440-480 | The links alone stay those of a tree if and only if the name does not change or nothing is linked below the old node, whose children the rename does not move |
| `BlobFsOps.Rmdir` | pkg/blobfs_node.go:383-414 | Success removes the node and its link, keeps the tree and the parent; a directory with children is never removed and nothing changes; an I/O error leaves the tree kept or just the node gone |
| `BlobFsOps.UnlinkFile` | pkg/blobfs_node.go:416-438 | After success the tree is kept if and only if the node had no children; every outcome of an I/O error is named |
| `BlobFsOps.RenamedIff` | pkg/blobfs_node.go:440-480 | A rename that goes through leaves the old id in the metadata, so the tree survives if and only if the name does not change, whether the coordinator hands out its own record or a copy |
| `BlobFsOps.Rename` | pkg/blobfs_node.go:440-480 | A missing node is reported and nothing changes; after success the tree is kept if and only if the name did not change, and its links if and only if that or the node had no children; an I/O error leaves exactly what the calls so far did, including the record changed in place where it is shared |
| `TreeRuns.StepSafeIff` | pkg/blobfs_node.go:261-438 | In any interleaving of the single calls a step keeps the tree, but for links to nodes whose removal is under way, and every unfinished operation, if and only if it is safe: creations on attached directories; listings always; first calls of removals, whatever an earlier listing said, on childless nodes that no operation needs; second calls when the node has no children and no operation continues below it; removals abandoned only if they leave no link to a missing node |
| `TreeRuns.StaleListing` | pkg/blobfs_node.go:393-411 | When the emptiness check of a directory removal is stale: after any safe run since a listing that showed no children the first call breaks the tree if and only if an operation needs the directory or a child is linked below it, and each such child was linked after the listing or its own removal was under way then |
| `TreeRuns.LinkedSince` | pkg/blobfs_node.go:393-411 | A link that was not there before a run and is after it was made by a link call of that run |
| `TreeRuns.NeededRemovalBreaks` | pkg/blobfs_node.go:383-414 | Removing a node that an unfinished store or creation needs does damage: once the removal is through and that operation reaches its next link the tree is broken |
| `TreeRuns.LateUnlinkBreaks` | pkg/blobfs_node.go:408-411 | So does the second call of a removal whose node is back with an operation continuing below it |
| `TreeRuns.SettledRunIsTree` | pkg/blobfs_node.go:261-438 | In every safe run, whenever no removal is between its calls, nodes and links are a tree |
| `TreeRuns.EveryLinkIsSound` | pkg/server.go:330-421 | At every moment of every safe run, with stores, creations and removals interleaved call by call and stopped anywhere, every link is from a parent to its own child, which is there with that parent id or has its removal under way, and links lead to it from the root |
| `TreeRuns.NoRunHasCycle` | pkg/server.go:330-421 | At no moment of a safe run is there a cycle of links, removals under way or not |
| `TreeRuns.FinishedStoreIsAttached` | pkg/server.go:339-418 | In every safe run the last link of a store leaves the stored path attached, whatever other operations did |
| `TreeRuns.StoresAreSafe` | pkg/server.go:330-421 | Runs of stores alone are safe, however they interleave and wherever they stop |
| `MetadataCodec.ToSlice` | pkg/redis.go:426-443 | The flat list of tags and printed values of the tagged fields, in order |
| `MetadataCodec.ToStruct` | pkg/redis.go:332-422 | Each tagged field found in the hash is parsed by its kind, with the zero value where it does not parse; every other field keeps what it had |
| `MetadataCodec.RoundTrip` | pkg/redis.go:332-443 | For every struct of any schema with distinct tags, whatever the hash held before and whatever the target held: tagged fields of a supported kind come back and all others keep what the target had, so decoding undoes encoding if and only if the target agrees on those |
| `MetadataCodec.HSetSlice` | pkg/redis.go:426-443 | Over any earlier hash, setting the slice leaves each tag with its own field's text |
| `MetadataCodec.SetThenGet` | pkg/metadata.go:82-106 | What is read after a set: the struct written, with its own generation if the node was new, else the stored generation plus one, wrapping |
| `MetadataCodec.GenerationsCount` | pkg/metadata.go:82-106 | After a first set and any sequence of overwrites a node reads back as the last struct written, with the first generation plus the number of overwrites, modulo the range of its type |
| `GenerationRuns.GenerationsUnderOverlap` | pkg/metadata.go:82-106 | In every interleaving of the reads and writes of concurrent sets of a node it reads back as the struct last written, its generation moved on at most once per overwrite, and exactly once per overwrite if and only if no two sets overlap |
| `GenerationRuns.OverlapLosesGeneration` | pkg/metadata.go:82-106 | Two sets that both read before either writes are two overwrites that move the generation on once |
| `MetadataCodec.MetadataIsGenerational` | pkg/types.go:273-296 | Node metadata is such a struct: 22 distinctly tagged fields, its generation a 64-bit number |
| `NodeMetadata.NodeKeysDiffer` | pkg/metadata.go:250-256 | For ids without a colon node hashes and child sets never share a key, and different nodes have different keys |
| `NodeMetadata.BlobCacheMetadata.GetFsNode` | pkg/metadata.go:62-80 | Not found exactly when the hash is empty, else the decoded hash |
| `NodeMetadata.BlobCacheMetadata.SetFsNode` | pkg/metadata.go:82-106 | Only the node's own hash changes, to what the set specification says, and the caller's struct gets the generation written |
| `NodeMetadata.BlobCacheMetadata.SetAllThenGet` | pkg/metadata.go:62-106 | A new node written any number of times and then read: the last struct written, the first generation plus the number of overwrites, wrapping; no other key changes |
| `ClientRouting.BlobCacheClient.GetClient` | pkg/client.go:427-482 | A remembered host wins over the ranking; the answered host is the one remembered afterwards, one without a connection is forgotten, no other entry changes |
| `ClientRouting.BlobCacheClient.GetContent` | pkg/client.go:294-334 | The outcome is that of the attempt sequence; afterwards the serving host, or nothing, is remembered, and no other entry changes |
| `ClientRouting.FailoverOrder` | pkg/client.go:294-334 | With a connection to every host in question the attempts go to the remembered or first ranked host and then down the ranking, clamped at the last; the outcome is the first good answer in that order, not-found exactly when there is none within the limit |
| `BufferPool.SelectPoolSize` | pkg/buffer_pool.go:72-80 | The smallest bucket that fits the request, if any does |
| `BufferPool.BufferPool.Get` | pkg/buffer_pool.go:41-53 | A buffer of at least the requested size if and only if the largest bucket fits it, and a panic otherwise; the buffer is of the smallest fitting bucket, new or the pool's, and no longer in the pool |
| `BufferPool.BufferPool.Put` | pkg/buffer_pool.go:56-69 | Pools the buffer exactly when its capacity is that of a bucket |
| `Prefetching.EveryRunIsBounded` | pkg/prefetcher.go:102-161 | In every run the queue stays within 100 tasks, every start queues a gap-free prefix of at most 16 windows after the read, no two workers share a buffer, no held buffer is pooled, and each holds a whole window |
| `Prefetching.SingleIff` | pkg/prefetcher.go:102-117 | A step keeps one prefetching goroutine per object if and only if it is not a cleanup that forgets an object with a running goroutine |
| `Prefetching.OneStartPerObject` | pkg/prefetcher.go:102-117 | In every run without such a cleanup no object is prefetched by two goroutines at once |
| `Prefetching.CleanupDoublesStart` | pkg/prefetcher.go:178-188 | A run with such a cleanup in which an object has two goroutines |
| `PrefetchedStore.RunOfStore` | pkg/prefetcher.go:141-161 | Transparency: whatever the prefetcher and its workers do beside the store, the store goes through a run of its own, in which no other reads fail |
| `PrefetchedStore.PrefetchedGetIsExact` | pkg/prefetcher.go:141-161 | With the prefetcher at work every get that ended without error, a client's or a worker's, delivered exactly its slice |
| `PrefetchedStore.PrefetchedDurable` | pkg/prefetcher.go:141-161 | And what was stored on disk stays served: a later get fails exactly when its range is out of reach |
| `PrefetchedStore.WorkersHaveRoom` | pkg/prefetcher.go:141-161 | In every run a worker's get asks for one window, no more than its pooled buffer holds, and no other worker has that buffer |

## Left out

- The gRPC transport, TLS, authentication, metrics, configuration, logging and the FUSE mount itself.
- The insides of the memory cache, of rendezvous hashing, of the lock library and of the Redis client.
- Widths of offsets and lengths: sums of 64-bit numbers are taken not to overflow.
- Torn page files: a page write that a crash cut short would be read back as a shorter page.
- `Cleanup`, the disk-usage monitor and the hit-ratio metrics of the store; the disk-full flag changes freely instead.
- The mounted filesystem's reads, listings and lookups: the mapping of metadata to kernel structures.
- Times, inode numbers, link counts and owners in the tree model; the codec covers them as fields.
- The remote coordinator's copying of fields between messages and structs.
- Host keep-alive leases and the host index, the host map and its choice of the closest host.
- The client's streamed read, its storing calls, `IsCachedNearby` and the expiry of remembered hosts.
- Fetching from local paths and mounted sources; the head request of a download is one boolean.
- BlobFsOps.StoreContentInBlobFs: the missing file that `stat` reports is an argument, the same for the whole call.
- ClientRouting.BlobCacheClient.GetContent: undisturbed by other calls on the same hash, because the remembered host is shared
  and unlocked between attempts.
- MetadataCodec.ToStruct: floating-point and duration fields are not modelled, since node metadata has none and their text is
  that of Go's formatter; a field of a kind without a case is.
- MockCoordinator.MockCoordinator.GetFsNode: gives a copy where the source gives the stored record; the one caller that
  changes the record, `BlobFsOps.Rename`, is modelled for both.
