# Open vStorage volume driver: a model of its storage core

The project models six parts of the volume driver and proves what they promise, over every run wherever the promise is
about runs.

* **The file driver** (`ExtentName`, `Extent`, `LruCache`, `ContainerState`, `Container`, `ContainerRuns`,
  `ContainerManager`). A file is cut into extents of one mebibyte; each is an object of a backend namespace, and a
  least-recently-used cache of local copies stands in between. `ContainerRuns.Execute` runs any sequence of write,
  resize, read, drop-from-cache and restart on the real methods, with any evictions and any failing backend calls.
* **The cluster registry** (`ClusterRegistry`). Clients read a map of nodes, compute a new one and commit it with a
  sequence that asserts the value they read; a client may retry, erase the map or attach an offline assertion.
* **The object store** (`ObjectStore`, `LocalConnection`, `LockStore`). Tag-conditional writes and removals on the local
  backend and as ALBA sequences, partial reads through cached descriptors, and the advisory lock built on top.
* **Requests** (`Retry`, `PoolSelectors`, `ConnectionPool`, `Rotation`). The retry loop around each request, the two
  selectors that choose a connection pool, and the pool itself.
* **Event publishing** (`AmqpPublisher`). Publishers that rotate through broker URIs while the list may be replaced.
* **Fault injection** (`FaultRules`). Rules that let calls pass, strike for a while and expire.

`Wrappers`, `Values` and `Collections` hold what these share.

Whether a backend call, a local file operation or the search for room in the cache fails is decided by the environment: any
of them may, unless the backend is `reliable`, and each failure of an operation has one of these as its cause.

Where the source updates things in place the model does too: classes with `modifies` clauses, loops with invariants, each
tied to a specification function or relation. Interleavings of threads and clients are runs of a `Next` function whose
steps are the sections that a lock or the store makes atomic, and the methods of the classes are proved to take these
steps.

## Where the code is not what it is meant to be

The model follows the code. Each of these is a lemma that holds if and only if a stated condition does, or a concrete
input together with such a lemma.

* A write sets the size to its own end, so writing in the middle shortens the file; a restart adds one extent too few, so
  a file of two extents or more comes back shorter (`SizeAgrees`, `SizeDisagrees`).
* A read that starts beyond the end is not cut off, because the test is unsigned (`ReadLengthAgrees`); `ReadAgrees` says
  for any history which reads transfer what they should, with this and the wrong size together.
* The extent index has 32 bits and starts over at 2^52 bytes (`IndexTruncates`).
* A failed store of an extent that existed leaves what was changed in the cache, and cache and backend are coherent
  afterwards exactly if that changes nothing (`Container.Update`, `Write` and `Resize`; `FailedOverwrite` is a run).
* An object name with the right shape is read as extent zero even if its suffix is no number
  (`GarbageSuffixIsExtentZero`); printing gives a name back exactly when it is canonical (`PrintOfParse`), and restarted
  flags agree with the backend exactly when every name stands for an extent that is there (`Container.Restart`).
* A container created over left-over objects starts out disagreeing with the backend (`Manager.Create`).
* The local backend has no place for an object whose name leads to a directory or goes on below a file, ALBA has
  (`WritesAgree`, `RemovalsAgree`, `NamesDisagree`).
* A conditional write of the same content can take effect with every retry (`AtMostOnceExactly`).
* A refusal does not mean that nothing happened, unless there are no retries (`RefusalExactly`): a write whose answer was
  lost is reported as a failed assertion (`LostAnswerIsRefusal`). `EffectsCounted` says how often a request took effect.
* The back-off multiplier is truncated to an integer (`BackoffExactly`): one below two leaves the pause as it is.
* A lock tag is the tag of a content and not of a version, so it can replace a later version with the same content
  (`ReplacesSameContent`, `ErasedTagAccepted`).
* A smaller pool capacity keeps the newest connections but turns their order round, so the next one does not
  (`LifoAfter`, `ShrunkTwice`).
* The round-robin selector misses pools when its counter runs over (`ProbesReachAll`, `OverrunSkipsAPool`).
* After a fruitless round it blames the pool that it probed last, which is the one that it handed out exactly if the dice
  fell on it (`BlameIsRight`, `WrongPoolBlamed`).
* A fault rule with duration zero, or whose ramp-up and duration overflow 32 bits, never expires (`EndsExactly`).

## Model

| member | source | states |
|---|---|---|
| ExtentName.ParseOfPrint | src/filedriver/ExtentId.cpp:27-63 | Parsing the printed name of an extent gives back its container id, whatever characters that has, and its 32-bit offset. |
| ExtentName.PrintInjective | src/filedriver/ExtentId.h:108-116 | Two extents with the same name are the same. |
| ExtentName.PrintedDigits | src/filedriver/ExtentId.h:108-116 | A name is the container id, a dot and the eight lower-case hexadecimal digits of the offset, the highest first. |
| ExtentName.PrintOfParse | src/filedriver/ExtentId.cpp:27-63 | A name that parses is printed back as itself if and only if it is canonical: eight lower-case hexadecimal digits after a dot. |
| ExtentName.GarbageSuffixIsExtentZero | src/filedriver/ExtentId.cpp:50-62 | Every suffix of eight characters in which no number can be read, but for eight spaces, parses as extent zero of its container, whose printed name is another one. |
| ExtentName.OddSuffixes | src/filedriver/ExtentId.cpp:49-53 | What the stream reads from a suffix with a space, a sign or a prefix before the digits; a minus sign negates in 32 bits. |
| ExtentName.ExtendedNameRejected | src/filedriver/ExtentId.cpp:27-50 | A printed name with one more character is no name. |
| ExtentName.TruncatedNameAccepted | src/filedriver/ExtentId.cpp:27-63 | A printed name without its last two characters parses if and only if the container id has a dot two places before its end. |
| ExtentName.OwnedIsNamed | src/filedriver/ExtentId.h:108-116 | A canonical name that parses to a container is the name of one of its extents. |
| ExtentName.NamesDiffer | src/filedriver/ExtentId.h:108-116 | Names of extents are equal exactly when container and index are. |
| LruCache.Cache.Lookup | src/youtils/LRUCache.h:84-105 | A hit returns the value and makes the key the most recently used one; the order of the others stays. |
| LruCache.Cache.Insert | src/youtils/LRUCache.h:235-268 | The new key is last in the order, after room was made by dropping idle keys, least recently used first; if only busy ones are left the value is dropped again. |
| LruCache.Cache.MaybeEvict | src/youtils/LRUCache.h:331-372 | The order becomes `DropIdle` of the old one: exactly as many least recently used idle keys go as are over capacity, busy ones stay. |
| LruCache.DropIdleKeeps | src/youtils/LRUCache.h:331-372 | An eviction round drops only idle keys and no more than it was asked to. |
| LruCache.DropIdleIsLeastRecent | src/youtils/LRUCache.h:331-372 | If an idle key is dropped, every idle key used before it is dropped too. |
| LruCache.DropIdleIs | src/youtils/LRUCache.h:331-372 | An eviction round drops the idle keys of a front part of the order, as many as it was asked to unless there are fewer; everything else stays in its order. |
| LruCache.WithoutIs | src/youtils/LRUCache.h:84-136 | Taking a key out leaves the other keys in their order. |
| LruCache.Cache.Erase | src/youtils/LRUCache.h:107-136 | An entry in use is refused; otherwise exactly that key goes and the others keep their order. |
| LruCache.Cache.EraseNoEvict | src/youtils/LRUCache.h:138-155 | Exactly that key is gone. |
| LruCache.Cache.SetCapacity | src/youtils/LRUCache.h:191-207 | The order becomes `DropIdle` of the old one: least recently used idle keys go until the new capacity is met, which is in force exactly if that succeeds; a capacity of zero is refused. |
| Extent.ApplyBytes | src/filedriver/Extent.cpp:45-72 | Byte by byte what a write or a change of length does to an extent's file, with zeros where nothing was written. |
| Extent.ApplyLength | src/filedriver/Extent.cpp:45-72 | How long the file is afterwards, never beyond the capacity of an extent. |
| Extent.PReadIs | src/filedriver/Extent.cpp:32-43 | A read gives the bytes that are there, fewer than asked for at the end and none beyond it. |
| ContainerState.StoredExtent | src/filedriver/Container.cpp:173-217 | An extent that reached the backend keeps flags, cache and backend in agreement and is coherent if the container was. |
| ContainerState.UnstoredExtent | src/filedriver/Container.cpp:192-215 | A failed chunk on a new extent leaves no trace in flags, cache and backend. |
| ContainerState.FailedChange | src/filedriver/Container.cpp:192-215 | After a failed change flags and backend agree as before, and cache and backend are coherent if and only if the extent was new or what is left of the change changes nothing. |
| ContainerState.WrittenTwice | src/filedriver/Container.cpp:173-229 | Writes of adjacent chunks are one write: bytes, flags and end of the file compose. |
| ContainerState.ResizedInLast | src/filedriver/Container.cpp:231-302 | Removing the extents above and then setting the length of the last one is the resize of the flat file. |
| ContainerState.ListedFlagsAgree | src/filedriver/Container.cpp:369-390 | Flags rebuilt from the object names agree with the backend if and only if every name that parses stands for an extent that is there and these are as large as extents are. |
| ContainerState.SameFile | src/filedriver/Container.cpp:357-413 | The same objects give the same flags up to trailing absent ones, the same bytes and the same end. |
| Container.Container.FindExtent | src/filedriver/Container.cpp:67-97 | The cached or fetched content of the extent; only other idle entries may leave the cache, and a failure has a failing backend call as its cause. |
| Container.Container.NewExtent | src/filedriver/Container.cpp:99-114 | An empty extent enters the cache, or nothing changes. |
| Container.Container.FindOrCreateExtent | src/filedriver/Container.cpp:116-129 | The cached file of the extent: its content in a coherent container, and an empty one for an extent that does not exist. |
| Container.Container.Update | src/filedriver/Container.cpp:192-217 | The content of the extent becomes the edited one, in cache and backend; on failure flags and objects are as before, a new extent is rolled back, and an existing one is coherent if and only if the part of the change that reached its cached file changes nothing. |
| Container.Container.StoreEdit | src/filedriver/Container.cpp:192-217 | The try block of that: the edited file is stored, or the creation is undone and the backend is as before. |
| Container.Container.Write | src/filedriver/Container.cpp:173-229 | Exactly the bytes `[off, off + done)` of the flat file are overwritten, all of them unless a backend call failed; flags and end follow, the size becomes the end of the write, flags, cache and backend agree in any case, and after a failure the cache is coherent if and only if what is left of the failed chunk changes nothing. |
| Container.Container.Read | src/filedriver/Container.cpp:131-171 | The answer is the slice of the flat zero-extended file at `off`, of the length that the arithmetic of the code gives; beyond 2^52 it is what the truncated index leads to; the file does not change. |
| Container.Container.RemoveAbove | src/filedriver/Container.cpp:249-267 | The loop ends with exactly the extents from `rm` on removed, topmost first, and stops at the one whose removal fails. |
| Container.Container.Resize | src/filedriver/Container.cpp:231-302 | For every size up to 2^31 - 1 extents: the bytes from the new size on read as zero, the others stay, the removed extents are those that start at or after it, and the size is the new one; the capacity checks of an extent and the final size check cannot fail; a failure leaves the extents below a cut as they were and none above, with the cache coherent if and only if the length left in it is the old one. |
| Container.Container.EraseExtents | src/filedriver/Container.cpp:304-337 | No extent of the container is cached; with `fromBackend` an object survives exactly if its removal failed. |
| Container.Container.DropFromCache | src/filedriver/Container.cpp:348-355 | Flags, size and objects stay, nothing of the container is cached and cache and backend are coherent. |
| Container.Container.Unlink | src/filedriver/Container.cpp:339-346 | All flags are cleared, and an object survives exactly if it existed and its removal failed. |
| Container.Container.ListExtents | src/filedriver/Container.cpp:369-390 | The flags are those that the listed names give. |
| Container.Container.SizeFromLast | src/filedriver/Container.cpp:392-405 | The size is computed from the last extent, one extent short if that is not the first. |
| Container.Container.Restart | src/filedriver/Container.cpp:357-413 | From object names alone the same flags and bytes come back, coherent, and in agreement if and only if every name that parses stands for an extent that is there; the size is as the code computes it; a failure leaves the container empty. |
| ContainerRuns.Step | src/filedriver/Container.cpp:131-413 | One operation keeps agreement whatever fails, and keeps track of the history as long as nothing failed. |
| ContainerRuns.Execute | src/filedriver/Container.cpp:131-413 | After any run, flags, cache and backend agree whatever failed; while nothing failed, which is always if the environment is reliable, every byte, the size and every answer are those that the list of operations gives for one flat byte array. |
| ContainerRuns.SizeAgrees | src/filedriver/Container.cpp:218-229 | After any operations the container's size is the end of its data if and only if its last write ended there or its last restart found one extent. |
| ContainerRuns.SizeDisagrees | src/filedriver/Container.cpp:392-405 | Two short runs after which it is not. |
| ContainerRuns.ReadLengthAgrees | src/filedriver/Container.cpp:131-150 | The unsigned test lets a read transfer what it should if and only if it does not start beyond the end or asks for nothing; beyond the end it transfers all that is asked for, up to 2^64. |
| ContainerRuns.ReadAgrees | src/filedriver/Container.cpp:131-150 | After any operations a read transfers what it should of the data if and only if it asks for nothing, lies within the kept size, starts within a size that is right, or starts beyond the kept size and lies within the data. |
| ContainerRuns.FailedOverwrite | src/filedriver/Container.cpp:192-215 | A write over an existing extent that fails leaves the old byte in the backend, and the cache ahead of it if and only if the whole change reached the cached file. |
| ContainerRuns.IndexTruncates | src/filedriver/Container.cpp:183-188 | The 32-bit extent index is the real one if and only if the offset is below 2^52. |
| ContainerRuns.ShrunkToExtent | src/filedriver/Container.cpp:259-266 | With each extent that a resize goes past, the size falls to where the last extent of the file began; a size of zero runs under in 64 bits. |
| ContainerManager.Isolation | src/filedriver/ContainerManager.cpp:112-173 | A step within the frame of one container leaves flags, bytes, end, agreement and coherence of every other one as they were. |
| ContainerManager.Manager.Create | src/filedriver/ContainerManager.cpp:112-133 | A new empty container, in agreement if and only if the namespace holds no extent of its id; an existing id is refused. |
| ContainerManager.Manager.Write | src/filedriver/ContainerManager.cpp:147-157 | The write of the container, with all other containers untouched. |
| ContainerManager.Manager.Resize | src/filedriver/ContainerManager.cpp:165-173 | The resize of the container, with all other containers untouched. |
| ContainerManager.Manager.Read | src/filedriver/ContainerManager.cpp:135-145 | The read of the container, with all other containers untouched. |
| ContainerManager.Manager.DropFromCache | src/filedriver/ContainerManager.cpp:211-218 | Drops one container's extents from the shared cache and no bytes of any. |
| ContainerManager.Manager.Unlink | src/filedriver/ContainerManager.cpp:184-209 | The container is forgotten and its objects are gone but for failed removals; the others are untouched. |
| ContainerManager.Manager.Restart | src/filedriver/ContainerManager.cpp:220-254 | A container that is not running comes back from the namespace in agreement; on failure it is not registered. |
| ClusterRegistry.CheckNodeMap | src/filesystem/ClusterRegistry.cpp:55-76 | The check passes if and only if every node in a distance map is in the map. |
| ClusterRegistry.BuildNodeMap | src/filesystem/ClusterRegistry.cpp:155-196 | The map of the configs with the states of the nodes that were known before; refused if empty or with an id twice. |
| ClusterRegistry.MapOfConfigs | src/filesystem/ClusterRegistry.cpp:178-196 | That map has exactly the configs' ids, each with its own config and its former state. |
| ClusterRegistry.ApplyKeepsWellFormed | src/filesystem/ClusterRegistry.cpp:156-216 | A successful operation on a well-formed map gives a non-empty map that is keyed by its configs' ids and closed. |
| ClusterRegistry.SetStateSucceeds | src/filesystem/ClusterRegistry.cpp:269-296 | Setting the state of a node of a well-formed map succeeds and changes that node only. |
| ClusterRegistry.ConfigsApplied | src/filesystem/ClusterRegistry.cpp:155-216 | Configurations are refused exactly if there are none, an id occurs twice or a neighbour is unknown; otherwise the map has exactly these nodes, known ones in the state they were in and new ones online. |
| ClusterRegistry.StateApplied | src/filesystem/ClusterRegistry.cpp:276-291 | A change of state is refused exactly if the cluster or the node is not registered or the map is not closed; otherwise it changes the state of that node and nothing else. |
| ClusterRegistry.StateAfter | src/filesystem/ClusterRegistry.cpp:171-196 | set_node_configs keeps the state of every surviving node, set_node_state keeps all nodes and configs and every other state. |
| ClusterRegistry.GetNeighbourMap | src/filesystem/ClusterRegistry.cpp:324-360 | The neighbours with distances and configs; the skipped ones are exactly those that the map does not know, and none on a closed map. |
| ClusterRegistry.NextConsistent | src/youtils/LockedArakoon.cpp:24-65 | Every client step keeps the log chained and the snapshot of every client consistent with what it will assert. |
| ClusterRegistry.EveryCommitFollowsTheLast | src/filesystem/ClusterRegistry.cpp:198-216 | In any interleaving each committed map is one operation applied to the map committed just before it, and every stored map is well-formed. |
| ClusterRegistry.CommitsUnlessChanged | src/youtils/LockedArakoon.cpp:38-63 | In any interleaving an operation commits its result if and only if the key holds at the commit what it held at the read; otherwise the key keeps what others committed, a change of state is to be tried again and a configuration is given up. |
| ClusterRegistry.CommitsAlone | src/filesystem/ClusterRegistry.cpp:198-216 | An operation without interference takes effect. |
| ClusterRegistry.RefusedAtOnce | src/filesystem/ClusterRegistry.cpp:269-296 | An operation that cannot be computed from the map ends without a trace. |
| ClusterRegistry.RetryTakesEffect | src/youtils/LockedArakoon.cpp:36-63 | After a conflict a change of state is computed again from the map as it is then and takes effect on top of it; the attempts go on counting. |
| ClusterRegistry.ConflictCounts | src/youtils/LockedArakoon.cpp:49-62 | A conflict changes nothing in the store; a change of state is tried again up to 10000 times in all, a configuration never. |
| ClusterRegistry.StateSticks | src/filesystem/ClusterRegistry.cpp:269-296 | No update is lost: a committed state stays until the node is set again or dropped, or the map is erased. |
| ClusterRegistry.StoredMapsAreClosed | src/filesystem/ClusterRegistry.cpp:324-360 | In any run the stored map is closed, so no neighbour is ever skipped. |
| ClusterRegistry.GuardHoldsAtCommit | src/filesystem/ClusterRegistry.cpp:304-322 | A sequence with the offline assertion goes through only while the node is offline, whatever happened since the check. |
| ClusterRegistry.GuardedUnlessChanged | src/filesystem/ClusterRegistry.cpp:304-322 | A sequence with the offline assertion goes through if and only if the node was offline at the check and the key holds at the commit what it held then. |
| ClusterRegistry.ErasedIsGone | src/filesystem/ClusterRegistry.cpp:134-152 | After an erasure the cluster is not registered, and clients at work are left alone. |
| ObjectStore.Sequence.Apply | src/backend/AlbaSequence.cpp:100-108 | All updates in order if all assertions hold, and no change otherwise. |
| ObjectStore.WriteBySequence | src/backend/Alba_Connection.cpp:416-444 | The sequence that is built and applied is `AlbaWrite`. |
| ObjectStore.RemoveBySequence | src/backend/Alba_Connection.cpp:506-534 | The sequence that is built and applied is `AlbaRemove`. |
| ObjectStore.AlbaWriteAsMeant | src/backend/Alba_Connection.cpp:416-444 | The sequence replaces the object if and only if the condition is met and the object may be overwritten. |
| ObjectStore.AlbaRemoveAsMeant | src/backend/Alba_Connection.cpp:506-534 | The sequence removes the object if and only if the condition is met and the object is there or need not be. |
| ObjectStore.WritesAgree | src/backend/Local_Connection.cpp:240-283 | Local and ALBA writes succeed on the same requests and leave the same objects, also with a condition on another object, if and only if the name is that of a file or the condition is not met or the object must not be overwritten. |
| ObjectStore.RemovalsAgree | src/backend/Local_Connection.cpp:304-339 | Local and ALBA removals succeed on the same requests and leave the same objects if and only if the name is that of a file, the condition is not met, or there is no such object and its name has a slash or the removal insists on it. |
| ObjectStore.NamesDisagree | src/backend/Local_Connection.cpp:252-282 | The names "." and "a/b", which ALBA takes and the local backend does not. |
| ObjectStore.LocalWriteErrors | src/backend/Local_Connection.cpp:213-283 | Which local writes succeed, and which exception each failing one throws. |
| ObjectStore.LocalRemoveErrors | src/backend/Local_Connection.cpp:304-339 | Which local removals succeed, and which exception each failing one throws. |
| ObjectStore.WriteTagIsCompareAndSwap | src/backend/Local_Connection.cpp:568-592 | For the name of a file, write_tag on either backend replaces the object if and only if its content is the one whose tag was presented, or creates it if there is none and no tag; otherwise it is refused in a way that is not retried. |
| LocalConnection.FallbackRead | src/backend/BackendConnectionInterface.cpp:232-259 | The answer is `ReadAll` of the objects: it succeeds if and only if all objects are there and all slices lie within them, and has the bytes of each slice. |
| LocalConnection.SlicesAre | src/backend/Local_Connection.cpp:409-422 | The slices of one content can be read if and only if each is empty or lies within it, and the answer has byte k of slice i from place offset + k. |
| LocalConnection.ReadAllIs | src/backend/BackendConnectionInterface.cpp:232-259 | The same for several objects, each of which must be there. |
| LocalConnection.Connection.Open | src/backend/Local_Connection.cpp:404-407 | The file that the path leads to now, whose descriptor is the most recently used one of the cache afterwards. |
| LocalConnection.Connection.Write | src/backend/Local_Connection.cpp:240-283 | For names that lead to a file of the namespace or nowhere, the objects of the namespace change as `LocalWrite` says, other namespaces stay, and no cached descriptor outlives the content of its object. |
| LocalConnection.Connection.Remove | src/backend/Local_Connection.cpp:304-339 | For such names the objects of the namespace change as `LocalRemove` says, with the same care for descriptors. |
| LocalConnection.Connection.CreateNamespace | src/backend/Local_Connection.cpp:133-145 | An empty namespace, or a refusal if it exists and must not. |
| LocalConnection.Connection.DeleteNamespace | src/backend/Local_Connection.cpp:341-382 | Its objects are gone, other namespaces stay, and none of its descriptors is cached. |
| LocalConnection.Connection.ForgetDescriptors | src/backend/Local_Connection.cpp:357-363 | The loop drops the descriptors of the namespace and no others. |
| LocalConnection.Connection.PartialRead | src/backend/Local_Connection.cpp:397-431 | In every reachable state a read through cached descriptors succeeds if and only if all objects are there and all slices lie within them, and returns the bytes of each slice of the current objects, like the fallback. |
| LockStore.WriteLockIs | src/backend/LockStore.cpp:77-100 | On either backend a lock write replaces the lock if and only if it is the version presented, or creates it if none was presented and there is none. |
| LockStore.EraseLockIs | src/backend/LockStore.cpp:108-113 | Erasing succeeds and leaves no lock, whether there was one or not. |
| LockStore.NextChained | src/backend/LockStore.cpp:55-113 | Every step of every client keeps the chain: each version replaced the one before it unless the lock was erased in between, and the one presented has the same content. |
| LockStore.CreatesIfNone | src/backend/LockStore.cpp:77-100 | A write without a tag succeeds if and only if there is no lock. |
| LockStore.ReadThenReplace | src/backend/LockStore.cpp:55-100 | A read gives the tag of the stored version: the write that presents it replaces exactly that version. |
| LockStore.WriterGoesOn | src/backend/LockStore.cpp:77-100 | A successful write gives the tag of its own version, so its client can go on replacing the lock. |
| LockStore.ErasesOnlyTheLock | src/backend/LockStore.cpp:108-113 | An erasure leaves no lock, takes no tag from anyone and touches no other object. |
| LockStore.NoTwoSuccessors | src/backend/LockStore.cpp:77-113 | In any interleaving the successful writes between two erasures form one chain, and no version has two successors. |
| LockStore.PresentedIsReplaced | src/backend/LockStore.cpp:77-100 | If no content is written twice, each write replaced the very version whose tag it presented. |
| LockStore.ReplacesSameContent | src/backend/LockStore.cpp:77-100 | A client replaces the stored version if and only if that has the content of the version whose tag it holds, be it another one or not. |
| LockStore.ErasedTagAccepted | src/backend/LockStore.cpp:108-113 | A run in which the tag of an erased lock replaces a new one. |
| PoolSelectors.NamespacePoolSelector.constructor | src/backend/NamespacePoolSelector.cpp:45-52 | The selector starts at the pool that the namespace hashes to. |
| PoolSelectors.NamespacePoolSelector.Pool | src/backend/NamespacePoolSelector.cpp:54-89 | The first pool from the start on, going round, that is not blacklisted; any pool if all are. |
| PoolSelectors.NamespacePoolSelector.MoveOn | src/backend/NamespacePoolSelector.cpp:98-122 | The next selection starts at the pool after the last one, if the policy says so. |
| PoolSelectors.VisitedInOrder | src/backend/NamespacePoolSelector.cpp:54-122 | With a fixed blacklist, attempts that each fail and move on go through the usable pools in cyclic order, over and over. |
| PoolSelectors.EachUsedOnce | src/backend/NamespacePoolSelector.cpp:54-122 | So as many attempts as there are usable pools use each of them exactly once, and the next one is back at the first. |
| PoolSelectors.Counter.Select | src/backend/BackendConnectionManager.h:188-194 | The pool that the 64-bit counter points to, which then moves on and runs over at 2^64. |
| PoolSelectors.RoundRobinPoolSelector.Pool | src/backend/RoundRobinPoolSelector.cpp:48-67 | The first probe that finds a usable pool decides; after one fruitless probe for each pool any pool is handed out; the last one probed is remembered for the blame. |
| PoolSelectors.BlameIsRight | src/backend/RoundRobinPoolSelector.cpp:48-74 | The pool that connection_error blames is the one that was handed out if and only if a probe found a usable one or the dice fall on the last one probed. |
| PoolSelectors.WrongPoolBlamed | src/backend/RoundRobinPoolSelector.cpp:48-74 | With two blacklisted pools, the counter at zero and the dice on the first, that is handed out and the second is blamed. |
| PoolSelectors.ProbesReachAll | src/backend/RoundRobinPoolSelector.cpp:48-67 | n probes without interference reach n different pools if and only if the counter does not run over in between, or runs over at a multiple of n. |
| PoolSelectors.UsablePoolFound | src/backend/RoundRobinPoolSelector.cpp:48-67 | In these cases n fruitless probes mean that every pool is blacklisted. |
| PoolSelectors.OverrunSkipsAPool | src/backend/BackendConnectionManager.h:188-194 | With three pools and the counter at its last value a pool is missed. |
| Retry.BackendInterface.Pause | src/backend/BackendInterface.cpp:70-79 | Before each retry, and only then, the loop counts it, pauses and multiplies the pause. |
| Retry.BackendInterface.Wrap | src/backend/BackendInterface.cpp:60-134 | At most one more attempt than retries; only transport failures are repeated, never a failed assertion or a missing namespace or object; the answer is that of the last attempt, a failure is returned only when the retries are used up; and each attempt has the pause, pool, kind of connection and blame that the selector's rules give. |
| Retry.MadeIs | src/backend/BackendInterface.cpp:81-133 | The attempts made are those up to the first one that may not be repeated. |
| Retry.RepeatedExactly | src/backend/BackendInterface.cpp:81-133 | An attempt is repeated if and only if it did not arrive, its answer was lost or the store failed; a return, a failed assertion and a missing namespace or object are final. |
| Retry.TriesAsTold | src/backend/BackendInterface.cpp:70-88 | Only the first attempt may use a pooled connection, a pool is blamed exactly for a connection that could not be made, and the pauses are none, the configured one, and each further one the last one multiplied. |
| Retry.PositionNext | src/backend/NamespacePoolSelector.cpp:91-122 | After a timeout or a backend error that its policy bit names the selector stands at the next pool; after any other failure it stays. |
| Retry.OwnPoolFirst | src/backend/NamespacePoolSelector.cpp:54-62 | Until the policy moves the selector on, every attempt goes to the own pool of the namespace if that is usable. |
| Retry.NextPoolAfter | src/backend/NamespacePoolSelector.cpp:98-122 | When it does, the next attempt goes to the pool after the one that failed, if that is usable. |
| Retry.SwitchesInOrder | src/backend/BackendInterface.cpp:102-133 | A request that fails and moves on each time visits the usable pools in the selector's cyclic order. |
| Retry.GivesUpAfterAllPools | src/backend/BackendInterface.cpp:102-133 | A request that gives up has tried every usable pool if it had as many attempts. |
| Retry.ConnectFailuresFailOver | src/backend/NamespacePoolSelector.cpp:91-96 | Consecutive connect failures, each of which gets its pool blamed and blacklisted, use pairwise different usable pools until all are blacklisted, which is after as many attempts as there were usable pools. |
| Retry.WriteTagIsOne | src/backend/Alba_Connection.cpp:701-741 | A tag-conditional write is a compare-and-swap request on either backend. |
| Retry.ReturnMeansOnce | src/backend/BackendInterface.cpp:60-134 | Whichever answers are lost, a conditional write of new content takes effect at most once, and exactly once if the request returns, provided nobody brings the old version back. |
| Retry.AtMostOnceExactly | src/backend/BackendInterface.cpp:60-134 | Taking effect at most once holds over all runs if and only if the content changes or there are no retries. |
| Retry.EffectsCounted | src/backend/BackendInterface.cpp:81-133 | A request took effect once for its return and once for each effect whose answer was lost. |
| Retry.RefusalExactly | src/backend/BackendInterface.cpp:60-134 | For a conditional write, that a refusal means no effect holds over all runs if and only if there are no retries. |
| Retry.LostAnswerIsRefusal | src/backend/BackendInterface.cpp:90-93 | A run without interference in which a write whose answer was lost took effect once and is reported as a failed assertion. |
| Retry.BackoffExactly | src/backend/BackendInterface.cpp:76-78 | The pauses grow as the multiplier says if and only if that is integral or there is no pause. |
| Retry.BackoffStuck | src/backend/BackendInterface.cpp:76-78 | With a multiplier between one and two the pause never grows. |
| Retry.TruncatedTowardsZero | src/backend/BackendInterface.cpp:76-78 | The conversion of the multiplier cuts off towards zero. |
| ConnectionPool.NextPartitioned | src/backend/ConnectionPool.cpp:144-232 | Every locked section keeps each connection ever made in exactly one place: pooled, lent, doomed or destroyed. |
| ConnectionPool.NextBalanced | src/backend/ConnectionPool.cpp:144-232 | Every locked section keeps the accounts: puts to the pool are pops plus pooled plus dropped ones, and the lent ones are those handed out that did not come back. |
| ConnectionPool.EveryRunKeepsBooks | src/backend/ConnectionPool.cpp:144-271 | Over all interleavings the partition and the accounts hold, the pool is within its capacity, and pooled connections were healthy when they came back. |
| ConnectionPool.HealthyIsReused | src/backend/ConnectionPool.cpp:144-166 | A connection that comes back healthy while there is room is the next one to be handed out. |
| ConnectionPool.OthersAreDeleted | src/backend/ConnectionPool.cpp:144-166 | Any other one that comes back is counted, deleted and never in the pool. |
| ConnectionPool.HandsOutNewest | src/backend/ConnectionPool.cpp:168-178 | Every request to the pool counts, and in the order of return it gets the connection that came back last. |
| ConnectionPool.NewIsLent | src/backend/ConnectionPool.cpp:181-188 | A new connection is lent at once and counted in a section of its own. |
| ConnectionPool.CapacityInForce | src/backend/ConnectionPool.cpp:206-228 | A new capacity is in force at once; as many connections stay as fit and the others are doomed. |
| ConnectionPool.ErrorEmptiesPool | src/backend/ConnectionPool.cpp:252-265 | In any run an error destroys all pooled connections within its section, so the next request to the pool gets none. |
| ConnectionPool.ShrinkKeepsNewest | src/backend/ConnectionPool.cpp:206-228 | If the pool is in order of return, a smaller capacity keeps exactly the newest connections. |
| ConnectionPool.LifoAfter | src/backend/ConnectionPool.cpp:214-225 | The order of return survives a step if and only if the step does not keep two or more of a larger number. |
| ConnectionPool.LifoRun | src/backend/ConnectionPool.cpp:206-228 | So it holds throughout every run without such a step. |
| ConnectionPool.ShrunkTwice | src/backend/ConnectionPool.cpp:214-225 | The second of two shrinks throws away the newest connection. |
| ConnectionPool.LatestErrorCounts | src/backend/ConnectionPool.cpp:252-284 | In any run the pool is blacklisted exactly up to and including the end of the latest error's period. |
| ConnectionPool.NotBlacklistedAtFirst | src/backend/ConnectionPool.cpp:42-49 | Before the first error the pool is not blacklisted. |
| ConnectionPool.Pool.GetPooled | src/backend/ConnectionPool.cpp:168-178 | The most recently returned connection, if there is one; the request is counted in any case. |
| ConnectionPool.Pool.GetNew | src/backend/ConnectionPool.cpp:181-188 | A new connection is lent and counted; if none can be made, that is an error of the pool. |
| ConnectionPool.Pool.Release | src/backend/ConnectionPool.cpp:144-166 | A healthy connection goes to the front if there is room, any other one is doomed and counted as deleted. |
| ConnectionPool.Pool.MoveFront | src/backend/ConnectionPool.cpp:217-222 | The loop moves the first n connections over in reverse order. |
| ConnectionPool.Pool.Resize | src/backend/ConnectionPool.cpp:206-228 | The section takes the `SetCapacity` step and hands out what is to be cleared. |
| ConnectionPool.Pool.Fail | src/backend/ConnectionPool.cpp:252-271 | The section blacklists the pool, empties it and destroys every pooled connection. |
| AmqpPublisher.Publish | src/filesystem/AmqpEventPublisher.cpp:314-370 | The loop sends the event to the first URI, from the current one on and around the list, where an attempt works, with the channel of that URI; otherwise the event is dropped and no channel is left. |
| AmqpPublisher.SentWhere | src/filesystem/AmqpEventPublisher.cpp:337-366 | An event goes out with the first attempt that works, at the URI as many places after the current one, which becomes the current one, over the old channel or a new one to that URI. |
| AmqpPublisher.DroppedExactly | src/filesystem/AmqpEventPublisher.cpp:337-370 | It is dropped, and the channel with it, if and only if no attempt works. |
| AmqpPublisher.PublishedMatches | src/filesystem/AmqpEventPublisher.cpp:337-366 | Afterwards the index is in the list and a channel, which there is exactly if the event was sent, leads to the URI at the index. |
| AmqpPublisher.DroppedAfterAll | src/filesystem/AmqpEventPublisher.cpp:337-370 | No URI is tried twice, and an event that is dropped was tried with every one. |
| AmqpPublisher.NextConsistent | src/filesystem/AmqpEventPublisher.cpp:260-307 | Every section of every publisher and every update keeps the shared state and all copies fitting. |
| AmqpPublisher.EveryRunConsistent | src/filesystem/AmqpEventPublisher.cpp:177-307 | In every interleaving, while enabled, the index is inside the current list and a stored channel leads to the URI at the index, so the source's checks never fail. |
| AmqpPublisher.NoReturn | src/filesystem/AmqpEventPublisher.cpp:153-173 | A configuration that was replaced never comes back. |
| AmqpPublisher.UnchangedExactly | src/filesystem/AmqpEventPublisher.cpp:153-205 | The parameter objects at two moments of a run are the same if and only if the configuration did not change at any time in between. |
| AmqpPublisher.StaleCopiesDropped | src/filesystem/AmqpEventPublisher.cpp:299-306 | A publisher puts index and channel of its copy back if and only if the configuration did not change at any time since the copy was taken; a stale one changes nothing. |
| AmqpPublisher.PublishesAlone | src/filesystem/AmqpEventPublisher.cpp:260-307 | Undisturbed, a publisher moves the shared index and channel to where its event went. |
| AmqpPublisher.NothingPublished | src/filesystem/AmqpEventPublisher.cpp:265-311 | While there is no URI nothing is published, and an abandoned event leaves the shared state alone. |
| AmqpPublisher.UpdateTaken | src/filesystem/AmqpEventPublisher.cpp:153-205 | An update puts the new values in place; index and channel start over if and only if one of them differs, and then a publisher at work notices. |
| AmqpPublisher.Publisher.Begin | src/filesystem/AmqpEventPublisher.cpp:267-284 | A copy of the shared state with an index inside its list, if events are enabled. |
| AmqpPublisher.Publisher.Finish | src/filesystem/AmqpEventPublisher.cpp:299-306 | Takes the step that puts the copy back or drops it. |
| AmqpPublisher.Publisher.Update | src/filesystem/AmqpEventPublisher.cpp:177-205 | New objects for the changed values; index and channel are reset exactly if there is one. |
| FaultRules.ErrorRule.Match | src/fawltyfs/ErrorRules.cpp:35-58 | The verdict and the new counters, with the 32-bit sum and the 64-bit count as they are. |
| FaultRules.EveryRuleOnPlan | src/fawltyfs/ErrorRules.cpp:35-58 | In any run of calls and rule changes each rule's verdicts on the accepted calls that got to it are its plan, and its counters stand where these put it. |
| FaultRules.RuleStrikesAsPlanned | src/fawltyfs/ErrorRules.cpp:35-58 | With a positive duration and a sum that fits, a rule lets `rampUp` calls pass, strikes the next `duration` and none after. |
| FaultRules.EndsExactly | src/fawltyfs/ErrorRules.cpp:43-52 | A rule ever stops if and only if its duration is positive and the sum fits in 32 bits. |
| FaultRules.OverflowingRuleNeverExpires | src/fawltyfs/ErrorRules.cpp:48-51 | A rule whose sum overflows strikes every call after its ramp-up. |
| FaultRules.StruckInWindow | src/fawltyfs/FileSystem.cpp:1354-1372 | A rule answers yes exactly to the accepted calls in its window. |
| FaultRules.LaterRulesStay | src/fawltyfs/FileSystem.cpp:1354-1372 | At most one rule strikes, and rules with a higher id do not advance. |
| FaultRules.RulesChange | src/fawltyfs/FileSystem.cpp:1199-1278 | A new rule joins the others, a removed one leaves them, and a call changes what a rule has seen but not what it is. |
| FaultRules.SeenInOrder | src/fawltyfs/FileSystem.cpp:1354-1372 | Going through the rules in the order of their ids up to the first that strikes changes the set of rules as the call does. |
| FaultRules.RuleTable.Inject | src/fawltyfs/FileSystem.cpp:1354-1372 | The loop returns the effect of the rule with the lowest id that strikes, and exactly the rules up to it have seen the call. |
| FaultRules.RuleTable.Add | src/fawltyfs/FileSystem.cpp:1199-1218 | The rule is added in its place, or refused if its id is taken. |
| FaultRules.RuleTable.Remove | src/fawltyfs/FileSystem.cpp:1262-1278 | The rule is removed, or the call refused if there is none. |
| FaultRules.MaybeInjectError | src/fawltyfs/FileSystem.cpp:1374-1380 | The delay is that of the delay rule that strikes and the error the negated code of the failure rule that strikes, zero if there is none; and both sets of rules change as the call says. |

## Left out

- Foreign code: the ALBA proxy client, S3, AMQP sockets, FUSE callbacks, file system calls and Arakoon itself appear only by their effect on a store, and whether a call works is decided outside the model.
- Digests and tags: MD5 and SHA-1 are taken to be injective, and a tag stands for the content it was made of.
- Serialisation: cluster maps and locks are taken to survive being written and read back, and equal maps to have equal bytes.
- Deleting an object that ALBA does not have is taken to change nothing.
- Backend calls that fail after taking effect are modelled in `Retry` only; in the file driver a failed write or removal has no effect.
- Container: reads and writes of one container are taken one at a time; other threads appear as evictions and as entries in use.
- Container.Container.Restart: the size is stated as the code computes it, not as it should be; `ContainerRuns.SizeAgrees` says when the two are the same. Object names whose index is 2^31 - 1 or more are outside its contract, for the reason given for writes.
- Container.Container.Write: writes that end beyond 2^31 - 1 extents are outside its contract, since the source keeps extent counts in an `int`.
- ContainerManager.Manager.constructor: names in the namespace that parse as extents are canonical, and their objects neither empty nor too long; what a restart makes of other names is stated for one container by `Container.Container.ListExtents`.
- ContainerManager.Manager.Write: it starts from a container whose flags, cache and backend agree, which `Create` gives exactly when nothing was left over, and `Restart` always.
- ContainerManager.Manager.Resize: starts from such a container.
- ContainerManager.Manager.Read: starts from such a container.
- ContainerManager.Manager.DropFromCache: starts from such a container.
- ContainerManager.Manager.Unlink: starts from such a container; an unlink that runs at the same time as another call on the same container is not modelled, because the code gives no guarantee there.
- ObjectStore.WritesAgree: names that begin with a slash, "./" or "../" are resolved by the file system and may lead to other objects or namespaces; they are outside the contract, like conditions on names that are not those of files, and names that are too long for the file system.
- ObjectStore.RemovalsAgree: the same names are outside, and the removal of the empty name from an empty namespace, which deletes the namespace.
- LocalConnection.Connection.Write: the same names are outside, and those that lead to a directory, where a failed write leaves a temporary file behind.
- LocalConnection.Connection.Remove: the same names are outside.
- ExtentName.ParseOfPrint: a suffix of eight spaces, which the parser leaves unread, is taken as zero.
- LocalConnection.Connection.PartialRead: it is stated for names that lead to a file of the namespace or nowhere, since descriptors are cached by path and not by file; calls are taken one at a time; partial reads do not take the lock, so a descriptor that is opened before an overwrite and cached after it is not modelled, and neither is a second process.
- The lock of the local backend is taken to exclude other connections; the removal of the named mutex by a closing connection is not modelled.
- Retry.ConnectFailuresFailOver: a blamed pool is taken to stay blacklisted while the request lasts, which `ConnectionPool.LatestErrorCounts` gives when the attempts come within the blacklist period.
- Retry.BackendInterface.Wrap: the loop is modelled with the selector of a namespace; the exact multiplication of intervals that overflow 64 bits is not, and that a duration is multiplied after conversion to its integer type is how the Boost library defines it.
- The retry on eventually consistent backends, which follows a missing object with a second look, is not modelled.
- ConnectionPool.EveryRunKeepsBooks: the 64-bit counters are unbounded.
- AmqpPublisher.EveryRunConsistent: a publisher's copy of the URI list is immutable, while the source also updates the replaced object in place.
- FaultRules.RuleTable.Inject: path patterns are arbitrary predicates, and waiting for a delay and cutting it short are left out.
- Garbage collection, the cached object registry, direct I/O rules, configuration classes, Python bindings and logging would only add easy members or rest on code outside this model.
