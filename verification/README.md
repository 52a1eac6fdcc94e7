# Verified model of the noy-db hub engines

noy-db's `hub` package is a client-side, encrypted document database. This project models its
engines in Dafny and proves what they are for. The model has one store: a map from a key
(collection and record id) to an envelope with a version, a timestamp and a payload, with the
compare-and-set put of the in-memory adapter. Each engine is a class or a set of functions over it:

| files | engine |
|---|---|
| `Refs`, `Cascade`, `CascadeIntegrity`, `CascadeSafety`, `CascadeOrder`, `CascadeClosure`, `CascadeAccess`, `CascadeRefusals`, `Vault` | foreign-key refs, strict and cascading deletes, write access |
| `SyncSpec`, `SyncProofs`, `SyncOutcomes`, `SyncDevices`, `SyncRuns`, `Sync` | dirty log, push, pull, conflict resolution |
| `Blobs`, `BlobReads`, `BlobCounts`, `BlobMetadata`, `VersionNames`, `BlobStore` | content-addressed blobs, slots, published versions |
| `Keyring`, `Delegation`, `KeyringSession`, `KeyringRuns` | grants, revocation, key rotation |
| `Crdt`, `CrdtRebuild` | last-writer-wins maps and RGA lists |
| `Tiering`, `WriteQueue`, `Snapshots`, `Cache`, `CacheAge` | store combinators |
| `FanOut` | `queryAcross` |
| `Ulid`, `HistoryIds`, `History` | fixed-width ids, version history |
| `Stores`, `Lex`, `Sorting`, `Wrappers` | the store, string order and sorting, options |

Where the program updates an object step by step, the model has a class whose methods are proved
equal to a specification function; the guarantees over runs are then lemmas about that function.
`dafny verify dfyconfig.toml` checks everything.

## How the engines are modelled

**References.** A delete and its ref enforcement are mutually recursive and cut by the set of
deletes in progress. The specification threads the set as a parameter; it terminates because each
nested delete adds a key of a finite universe, which is all the records there are. Every store
write, and every failure of one (a set of faulty clock ticks), is part of the state, and each write is
logged, so that a claim about the final state of any run is a claim about every intermediate moment.
`Settled` is the invariant that a nested delete may leave to an enclosing one. `Guarded` is what keeps the
intermediate moments safe: a delete in progress that a cascade can come back to has no strict refs to it any
more.

**Sync.** Store calls may fail, one by one. Because the dirty log has one entry per record, a push is the
same as pushing each entry alone, and a pull is record-wise; this gives a closed form for one sync, and the
exact set of starting states from which a record ends equal on both sides. Several devices are a round of
such syncs through one remote. A run interleaves local puts, pulls and pushes of any number of devices, with
any failures.

**Blobs.** Each operation is the list of its store writes in order. A crash is a prefix of that list, and a run may
contain any number of them. The
invariant `Sound` says that every index entry reads back as bytes with its content hash and every slot and
published version points at an index entry. `Excess` is the reference count minus the number of
references.

**Keys.** Encryption is symbolic: a record sealed under a key opens with that key only, generated keys
are numbers never used before, and a key-encryption key is a passphrase and a salt. `Coherent` is the
invariant of runs driven by one unlocked keyring; `LockedOut` is what a revocation establishes and every later
command keeps. A session that is not an owner's may start in a vault that others have written to, which need not be
coherent.

**CRDT values** are opaque and compared for equality, as the program compares them by their JSON text.
Generated item ids are given in advance as a list of fresh names.

## Findings

Where the code meets a promise only under a condition, the condition is proved exact, or a lemma shows
a concrete failing family:

- `StrictRefsSurviveExactly`: strict refs survive every run if and only if each collection's inbound list has
  its strict rules before any cascade that can come back to the collection. A strict rule behind such a cascade
  refuses the delete after its target is gone, and its ref is left dangling (`CyclicCascadeBreaksStrictRef`).
  The lists are in order of declaration. Cascades without cycles always meet the condition.
- `SyncAgreesExactly`: a pending delete is undone by the pull of the same sync, and a merge resolver on pull
  writes the local side only and forgets the dirty entry.
- `DevicesConvergeExactly`: devices that sync through one remote converge if and only if a conflict is decided
  for the local side only when its version is the higher one. Of the built-in settings only `remote-wins` is
  like that (`BuiltInSettings`); with the others a device that has already taken the losing version keeps it.
  Under the last-writer policy even a lower version can win.
- `DefaultPushLowersExactly`: under the default strategy a push lowers a version only for an entry that claims the
  remote's version as its base although the local envelope is older.
- `KeyIsOwnExactly`: published versions are stored under record, slot and label joined by `::`, which another
  triple shares unless the names are plain: no double colon in them, and no colon next to a separator. The publish of
  the other triple then replaces the version (`TwinTakesOver`).
- `RunAs`: an admin's grant overwrites whatever file the user id has, an owner's included, and that is the one way in
  which another owner loses their file to a session that is not an owner's. Rotation checks no role at all.
- `ReaddedValueIsLost`: in a list, a value that was deleted and is added again does not come back, because it
  is matched to its tombstoned item.
- `InterruptedPublishUndercounts`: of all places where an operation can be cut short, one loses a count: a
  publish records the version before it counts it. Trying it again does not make up for it
  (`RetriesKeepTheShortfall`), because the label then already names the blob.
- `ConditionalPutAgreesExactly`: a conditional put does not see the version of a record in the cold tier.
- `Delete` of the tiered store: if the cold tier fails while it holds the record, the record survives the delete.
- `Put` of the tiered store: the cold copy is dropped before the hot write, so a hot write that fails loses a
  record of which the cold copy was the only one.
- `LoadAllAgreesExactly`: `get` prefers the hot tier, `loadAll` the later timestamp and on a tie the cold tier.
- `CacheKeyCollides`: an address that holds a NUL anywhere, its id included, shares its cache entry with another
  one, and whichever is read second gets the envelope of the first (`ReadBoth`).
- `IdsAreOwnExactly`, `VersionsAreKeptExactly`: different records can have one history id, and then overwrite
  each other's versions, unless neither the collection nor the record id has a colon.
- `PrefixSelectsExactly`, `HistoryIsOwnExactly`: reading or pruning the history of a record also takes in every
  other record whose collection and id, joined by a colon, begin with its own: records whose id goes on after a
  colon, collections whose name does, and records whose joined names are the same.
- `Register`: the comma-joined field lists confuse names that hold a comma, which the comparison of the
  descriptors makes up for, except that after an empty declaration one whose only field has the empty name is
  accepted and ignored.
- The documented bound on ULID times is 48 bits; the encoding keeps order up to 2^49 and wraps there
  (`TimePartWraps`). Read as one base-32 number, which is what the ULID format means by it, the time part is the time
  only below 2^24 (`TimePartDenotesExactly`); its two halves are right up to 2^49 (`TimeIsInTwoHalves`).

## Model

| member | source | states |
|---|---|---|
| `Stores.MemoryStore.Put` | packages/to-memory/src/index.ts:34-45 | a conditional put is refused exactly if the record exists at another version, and then nothing changes |
| `Stores.MemoryStore.Get` | packages/to-memory/src/index.ts:30-32 | the stored envelope, or nothing |
| `Stores.MemoryStore.Delete` | packages/to-memory/src/index.ts:47-49 | removes the one record; deleting a missing one is no error |
| `Refs.CheckedRegistryIsScoped` | packages/hub/src/refs.ts:123-133 | a registry filled only with results of `ref()`, by any number of registrations, has nothing but user collections of its own vault as targets |
| `Refs.CheckedExactly` | packages/hub/src/refs.ts:123-133 | the refs that `ref()` lets through are exactly those that keep the registry so |
| `Refs.RegisteredKeepsValid` | packages/hub/src/refs.ts:196-200 | registering keeps inbound and outbound lists mirror images without duplicates, and the targets within the vault if and only if the new ones are |
| `Refs.RefRegistry.Register` | packages/hub/src/refs.ts:173-201 | the first declaration of a collection is entered in both directions; a second one changes nothing and is accepted exactly if it repeats the first, with the one exception of the empty field name |
| `Refs.SameDeclaration` | packages/hub/src/refs.ts:175-194 | sorting the field names, comparing them joined by commas and then comparing the descriptors decides equality of declarations, for all names, with that exception |
| `Refs.EqualJoins` | packages/hub/src/refs.ts:177-179 | lists of names of which one contains the other have the same join only if they are equal, or are the empty list and the list of the empty name |
| `CascadeIntegrity.FrameKeyInjective` | packages/hub/src/vault.ts:590-592 | the slash-joined in-progress keys tell records of ref targets apart |
| `CascadeIntegrity.NormalDeleteLeavesNoRefs` | packages/hub/src/vault.ts:589-639 | a top-level delete that returns leaves no strict or cascade ref to anything it removed, as text or as a number, for every ref graph, cyclic cascades included |
| `CascadeClosure.DeleteRemovesExactlyTheCascade` | packages/hub/src/vault.ts:589-639 | a delete never removes more than the records that reach its target by cascade refs, and on normal return exactly those; the rest is unchanged |
| `CascadeClosure.UnobstructedDeleteReturns` | packages/hub/src/vault.ts:589-639 | with a working store, write access and no strict ref into the cascade, a delete returns normally, cycles included |
| `CascadeClosure.NormalDeleteEndsStrictSafe` | packages/hub/src/vault.ts:589-639 | a delete that returns normally keeps every strict ref resolvable, even with cyclic cascades |
| `CascadeSafety.MetOnPut` | packages/hub/src/vault.ts:531-574 | a put passes enforcement exactly if each of its strict refs is null or a text or number that is the id of an existing record |
| `CascadeSafety.RemovingIsSafeExactly` | packages/hub/src/vault.ts:589-639 | deleting a record keeps all strict refs if and only if no other record holds a strict ref to it |
| `CascadeSafety.PutIsSafe` | packages/hub/src/collection.ts:718-720 | a put, admitted or refused, keeps every strict ref resolvable at each of its writes |
| `CascadeSafety.DeleteIsSafe` | packages/hub/src/vault.ts:589-639 | so does a nested delete, in every frame around it that has no strict refs left, whether it returns or throws |
| `CascadeSafety.RunsKeepStrictRefs` | packages/hub/src/collection.ts:914-948 | over every run of puts and deletes every strict ref resolves after every single store write, also where operations are refused or die halfway, if strict rules come before the cascades that can come back |
| `CascadeSafety.AcyclicIsStrictFirst` | packages/hub/src/vault.ts:585-588 | cascade edges without a cycle meet that condition in any order of declaration |
| `CascadeOrder.CyclicCascadeBreaksStrictRef` | packages/hub/src/vault.ts:589-639 | for every registry with a strict rule behind a cascade that can come back there is a safe state and a delete that is refused after its target is gone, with a strict ref left dangling |
| `CascadeOrder.StrictRefsSurviveExactly` | packages/hub/src/vault.ts:589-639 | the guarantee over all runs holds if and only if strict rules come before the cascades that can come back |
| `CascadeSafety.RunsLog` | packages/hub/src/collection.ts:840-841 | the log that theorem speaks of leads from the first state of the run to the last with one record removed or written between any two entries, so that no moment is left out |
| `CascadeAccess.ReadOnlyIsRefused` | packages/hub/src/collection.ts:902-905 | a put or delete in a collection without write permission is refused and changes nothing |
| `CascadeAccess.RunsProtectReadOnly` | packages/hub/src/collection.ts:902-948 | over every run of puts and deletes, cascades into such collections included, no moment of the run shows a change to one of their records |
| `CascadeAccess.VersionsCountPuts` | packages/hub/src/collection.ts:644-899 | over every run the version of a record counts the puts that went through since it was last missing |
| `CascadeRefusals.DeleteHasReason` | packages/hub/src/vault.ts:589-639 | a delete that throws does so because the store failed, a collection may not be written, or a record that is still there holds a strict ref that the error names |
| `CascadeRefusals.PutViolationIsFirst` | packages/hub/src/vault.ts:531-574 | the error of a refused put names the first declared strict ref that does not resolve, with its field, target and value |
| `CascadeRefusals.PutGoesThroughExactly` | packages/hub/src/collection.ts:644-899 | a put goes through exactly if the collection may be written, its strict refs resolve and the store works; then it replaces the one record in its place of the cache, or adds it at the end; otherwise it does nothing |
| `Vaults.Vault.EnforceRefsOnPut` | packages/hub/src/vault.ts:531-574 | the loop over outbound refs finds the first unmet strict ref; warn and cascade refs do not block |
| `Vaults.Vault.EnforceRefsOnDelete` | packages/hub/src/vault.ts:589-639 | the loops refine the specified walk, and the in-progress set is restored on normal and throwing exit |
| `Vaults.Vault.DeleteMatches` | packages/hub/src/vault.ts:625-633 | nested deletes in order, stopping at the first that throws |
| `Vaults.Vault.PutRecord` | packages/hub/src/collection.ts:644-899 | refs first, then the next version is written; refused puts change nothing |
| `Vaults.Vault.DeleteRecord` | packages/hub/src/collection.ts:902-985 | permission, then refs, then the store delete; what each refusal means is `CascadeAccess.ReadOnlyIsRefused` and `CascadeRefusals.DeleteHasReason` |
| `Vaults.Vault.DeleteTopLevel` | packages/hub/src/collection.ts:902-985 | a delete from outside terminates on every ref graph and leaves the in-progress set empty |
| `Vaults.Vault.CheckIntegrity` | packages/hub/src/vault.ts:705-747 | lists every ref of any mode that does not resolve, and nothing else |
| `Vaults.StrictSafeMeansNoStrictViolation` | packages/hub/src/vault.ts:705-747 | no strict violation is reported exactly in the states the safety theorem keeps |
| `SyncProofs.TrackKeepsOneEntryPerRecord` | packages/hub/src/sync.ts:95-119 | tracking keeps at most one entry per record: the new one, with all others in their places |
| `SyncProofs.PushStores` | packages/hub/src/sync.ts:122-211 | the entries of a push do not interfere: each record ends as if its entry were pushed alone, others are untouched, for every pattern of store failures |
| `SyncProofs.PushLog` | packages/hub/src/sync.ts:128-203 | exactly the completed entries leave the log and the rest keep their order |
| `SyncProofs.CompletedEntriesAgree` | packages/hub/src/sync.ts:139-190 | a completed put of a present record leaves one envelope on both sides; a completed delete leaves the remote without the record |
| `SyncProofs.LeftoverEntriesKeepTheirRecord` | packages/hub/src/sync.ts:188-197 | failed and deferred entries keep their local envelope |
| `SyncOutcomes.StrategiesDecidePush` | packages/hub/src/sync.ts:499-510 | a conflict that push completes leaves, on both sides, the envelope its strategy promises: by default the greater version, and the local one on a tie |
| `SyncOutcomes.PoliciesDecidePush` | packages/hub/src/collection.ts:462-465 | first-writer-wins leaves the lower version, last-writer-wins the later timestamp, both the local one on a tie |
| `SyncOutcomes.DefaultSyncKeepsGreaterVersion` | packages/hub/src/sync.ts:499-510 | under the default strategy one sync leaves the greater version of a pending put on both sides, whatever the state of the rest |
| `SyncOutcomes.PoliciesDecideSync` | packages/hub/src/collection.ts:462-465 | the same for the policies, with the puts that are no conflict |
| `SyncOutcomes.DefaultPushLowersExactly` | packages/hub/src/sync.ts:138-197 | under the default strategy pushing a put lowers a version if and only if the entry claims the remote's version as its base while the local envelope is older |
| `SyncOutcomes.DefaultPushNeverLowers` | packages/hub/src/sync.ts:122-211 | so no push of any log whose entries are not ahead of their records lowers or loses a record on either side, whatever fails |
| `SyncOutcomes.DefaultPullNeverLowers` | packages/hub/src/sync.ts:214-289 | nor does any pull, for all logs, options and failures |
| `SyncOutcomes.DefaultSyncNeverLowers` | packages/hub/src/sync.ts:292-296 | nor does a sync |
| `SyncOutcomes.PushCounts` | packages/hub/src/sync.ts:122-211 | the number a push reports is the number of entries it pushed |
| `SyncOutcomes.CountedMeansWritten` | packages/hub/src/sync.ts:138-197 | an entry counted as pushed leaves the remote as the local store has the record; one that is completed without being counted leaves the remote alone |
| `SyncOutcomes.PartialPullSpares` | packages/hub/src/sync.ts:221-233 | a partial pull leaves alone, with their entries, all records outside the named collections or not newer than the given time |
| `SyncOutcomes.PartialPullTakes` | packages/hub/src/sync.ts:221-233 | and takes every other clean one, down to an envelope no older than the remote's |
| `SyncProofs.SyncAgreesExactly` | packages/hub/src/sync.ts:214-296 | the exact states from which one sync makes a record equal on both sides, for every strategy and resolver |
| `SyncProofs.SyncConverges` | packages/hub/src/sync.ts:292-296 | under a side-picking strategy, without pending deletes and with clean records known remotely, one sync empties the log and makes the replicas equal |
| `SyncProofs.ConvergedSyncIsIdle` | packages/hub/src/sync.ts:292-296 | a sync of equal replicas changes nothing |
| `SyncDevices.TwoRoundsConverge` | packages/hub/src/sync.ts:292-296 | any number of devices that sync one after the other are all equal to the remote, with empty logs, after two rounds, if none lets its own side win over a version that is not lower |
| `SyncRuns.ActKeepsGood` | packages/hub/src/sync.ts:95-289 | one dirty entry per record, of its record's version, and every clean record known remotely: kept by every tracked put and by every pull and push, whatever fails |
| `SyncRuns.FailingRunsThenSyncConverge` | packages/hub/src/sync.ts:122-296 | after any run of puts and of failing pulls and pushes one sync that works makes the device equal to the remote, under every side-picking strategy |
| `SyncRuns.FailingTurnsThenTwoRoundsConverge` | packages/hub/src/sync.ts:122-296 | any number of devices take turns with puts, pulls and pushes that fail in any way; then two rounds of syncs make all of them equal to the remote, under the condition on conflicts |
| `SyncDevices.DevicesConvergeExactly` | packages/hub/src/sync.ts:451-510 | for side-picking settings that condition is also necessary |
| `SyncDevices.BuiltInSettings` | packages/hub/src/sync.ts:499-510 | which of the built-in strategies and policies meet it |
| `SyncProofs.BuiltInPoliciesAgreeAcrossDevices` | packages/hub/src/collection.ts:462-465 | two devices resolving the same conflict pick the same envelope, unless the decisive stamps are equal |
| `Sync.SyncEngine.TrackChange` | packages/hub/src/sync.ts:95-119 | search and overwrite or append is the specified update, and the log is persisted |
| `Sync.SyncEngine.Reload` | packages/hub/src/sync.ts:514-545 | the persisted log brings back the log in memory |
| `Sync.SyncEngine.PushOne` | packages/hub/src/sync.ts:138-197 | the store calls for one entry, with their failures, in order; which side a conflict leaves is `SyncOutcomes.StrategiesDecidePush` |
| `Sync.SyncEngine.PushFiltered` | packages/hub/src/sync.ts:303-384 | loop and index-based splicing equal the specified push |
| `Sync.SyncEngine.SpliceCompleted` | packages/hub/src/sync.ts:200-203 | splicing positions from the last to the first removes exactly those positions |
| `Sync.SyncEngine.Pull` | packages/hub/src/sync.ts:214-289 | the loop over the snapshot, in any order, equals the record-wise pull; the result counts the records written |
| `Sync.SyncEngine.PullOne` | packages/hub/src/sync.ts:230-276 | new records, newer records and conflicts, with what happens to the dirty entry; which side a conflict leaves is `SyncOutcomes.DefaultSyncKeepsGreaterVersion` |
| `Sync.SyncEngine.Sync` | packages/hub/src/sync.ts:292-296 | pull, then push |
| `BlobReads.FetchConcats` | packages/hub/src/blob-set.ts:412-428 | chunks of any positive size, the last one short, concatenate to the bytes they were cut from |
| `Blobs.ChunkCountIsCeiling` | packages/hub/src/blob-set.ts:480-481 | the number of chunks is the least positive one that holds all bytes |
| `BlobReads.InterruptedOperationsStayReadable` | packages/hub/src/blob-set.ts:480-524 | after every prefix of the writes of every operation all index entries have their chunks, all slots and versions their index entry, and readable blobs read the same |
| `BlobReads.CutRunStaysReadable` | packages/hub/src/blob-set.ts:444-691 | the same over runs in which any number of operations are cut short anywhere |
| `BlobReads.PutThenGet` | packages/hub/src/blob-set.ts:444-552 | get after put returns the bytes, for every payload, chunk size and compression choice, deduplicated uploads included |
| `BlobReads.PublishedVersionIsStable` | packages/hub/src/blob-set.ts:616-655 | what is stored under a version key reads the same through every later run, interrupted operations included, that does not publish or delete under that key; per record, slot and label this is `VersionNames.PlainVersionIsStable` |
| `BlobReads.WholeRun` | packages/hub/src/blob-set.ts:444-691 | runs of complete operations are among the runs that may be cut short |
| `BlobReads.PublishThenGetVersion` | packages/hub/src/blob-set.ts:616-655 | a freshly published version reads what its slot reads |
| `VersionNames.SameKeyExactly` | packages/hub/src/blob-set.ts:362-364 | two triples of record, slot and label have one version key if and only if their collections and joined names agree |
| `VersionNames.KeyIsOwnExactly` | packages/hub/src/blob-set.ts:362-364 | a triple has its key to itself if and only if no name holds a double colon and no colon stands next to a separator |
| `VersionNames.PlainVersionIsStable` | packages/hub/src/blob-set.ts:616-691 | a published version of such names reads the same through every run, crashes included, that does not publish or delete that record, slot and label |
| `VersionNames.TwinTakesOver` | packages/hub/src/blob-set.ts:616-641 | for all other names there is another triple whose publish replaces the version |
| `VersionNames.TwoLabelsTwoVersions` | packages/hub/src/blob-set.ts:616-655 | after new bytes are put and published under another label the first version still reads what it was published with |
| `VersionNames.SecondLabelReadsNewBytes` | packages/hub/src/blob-set.ts:616-655 | and the second one the new bytes |
| `BlobMetadata.ChunkOpensInPlaceOnly` | packages/hub/src/blob-set.ts:315-358 | an encrypted chunk opens in its place of its blob and nowhere else |
| `BlobMetadata.PutChunksFit` | packages/hub/src/blob-set.ts:404-408 | no chunk is larger than asked for, or else than the store's limit, or else than 256 KiB |
| `BlobMetadata.MetadataStaysTrue` | packages/hub/src/blob-set.ts:444-691 | over every run, crashes included, index entries, slots and versions describe bytes that have their hash |
| `BlobMetadata.SizesAreThoseRead` | packages/hub/src/blob-set.ts:494-534 | so after every run the size in the index and in each slot is that of the bytes read, slots and versions carry their own names, and there are no more chunks than the stored bytes need |
| `BlobCounts.StepConserves` | packages/hub/src/blob-set.ts:297-311 | one operation changes count minus references by what it leaks and by nothing else |
| `BlobCounts.RunConserves` | packages/hub/src/types.ts:884-885 | the same over runs, over many records |
| `BlobCounts.CountsCoverReferences` | packages/hub/src/types.ts:884-885 | from an empty vault a blob is never undercounted at an operation boundary, and its count is exact if and only if nothing leaked: no slot rewritten with its own bytes, no failed decrement |
| `BlobCounts.InterruptedPublishUndercounts` | packages/hub/src/blob-set.ts:444-691 | over all operations and all prefixes of their writes, a blob loses count against its references if and only if a publish of it is cut after its first write, and then it loses one |
| `BlobCounts.RetriedPublishWritesNothing` | packages/hub/src/blob-set.ts:620-624 | repeating a publish that was cut after its first write writes nothing |
| `BlobCounts.RetriesKeepTheShortfall` | packages/hub/src/blob-set.ts:616-641 | so the blob stays one count short under any number of retries |
| `BlobCounts.CutRunFallsShortAtMost` | packages/hub/src/types.ts:884-885 | over runs with crashes a blob is undercounted by no more than the publishes of it that were cut there |
| `BlobStores.BlobStore.WriteBlobObject` | packages/hub/src/blob-set.ts:271-292 | the index write and its version |
| `BlobStores.BlobStore.CasUpdateRefCount` | packages/hub/src/blob-set.ts:297-311 | rewrites the count of an indexed blob; of an unknown one it changes nothing and reports it |
| `BlobStores.BlobStore.WriteChunks` | packages/hub/src/blob-set.ts:480-491 | the chunk loop makes the specified writes in order |
| `BlobStores.BlobStore.FetchAllChunks` | packages/hub/src/blob-set.ts:412-428 | the read loop, with a missing or foreign chunk as an error |
| `BlobStores.BlobStore.Put` | packages/hub/src/blob-set.ts:444-534 | makes exactly the specified writes, the decrement of the replaced blob after the slot table |
| `BlobStores.BlobStore.Get` | packages/hub/src/blob-set.ts:543-552 | reads the slot's blob, or nothing |
| `BlobStores.BlobStore.Delete` | packages/hub/src/blob-set.ts:567-582 | slot table first, then the best-effort decrement |
| `BlobStores.BlobStore.Publish` | packages/hub/src/blob-set.ts:616-641 | version record, count up, count down of the replaced version; nothing if the label already names the blob; that labels do not disturb each other is `VersionNames.TwoLabelsTwoVersions` |
| `BlobStores.BlobStore.GetVersion` | packages/hub/src/blob-set.ts:647-655 | reads the version's blob, or nothing; whose version that is is `VersionNames.KeyIsOwnExactly` |
| `BlobStores.BlobStore.DeleteVersion` | packages/hub/src/blob-set.ts:685-691 | version record first, then the best-effort decrement; whom that spares is `VersionNames.PlainVersionIsStable` |
| `Keyring.GrantUnlocks` | packages/hub/src/keyring.ts:142-227 | a grant unlocks with its passphrase and no other, and gives the grantee exactly the keys of the permitted collections the caller has |
| `Keyring.GrantGivesByRole` | packages/hub/src/keyring.ts:142-227 | owners, admins and viewers get every key and no explicit permissions; operators and clients the permissions asked for and the keys of those collections and of the internal ones |
| `Keyring.RotatedRecordOpensExactly` | packages/hub/src/keyring.ts:379-410 | after rotation the caller reads a record as before exactly if it was clear or the caller held the old key; a clear record stays readable to anyone |
| `Keyring.RotationKeepsCoherent` | packages/hub/src/keyring.ts:367-495 | in runs driven by one keyring, rotation never aborts and every stored key stays the caller's current key |
| `Keyring.OldKeysOpenNothingNew` | packages/hub/src/keyring.ts:379-410 | keys kept from before a rotation open nothing it re-encrypted |
| `Delegation.ChildrenByParent` | packages/hub/src/keyring.ts:252-267 | the children lists hold exactly the stored grants between admins |
| `Delegation.FindAdminDescendants` | packages/hub/src/keyring.ts:247-282 | terminates on every grant graph and returns, without duplicates and grantors first, exactly the admins other than the root that descend from it |
| `KeyringSession.Session.EnsureCollectionDek` | packages/hub/src/keyring.ts:570-584 | an existing key is reused, a new one is stored before it is used |
| `KeyringSession.Session.Grant` | packages/hub/src/keyring.ts:142-227 | goes through if and only if the session is an owner's, or an admin's and the role granted is not owner; then it writes the grantee's file and nothing else |
| `KeyringSession.Session.ChangeSecret` | packages/hub/src/keyring.ts:500-538 | rewraps the caller's keys under the new secret, which alone unlocks them then |
| `KeyringSession.Session.PersistKeyring` | packages/hub/src/keyring.ts:604-627 | writes the caller's own file with its keys wrapped |
| `KeyringSession.Session.RotateKeys` | packages/hub/src/keyring.ts:367-495 | all records of the collections re-encrypted, own file rewritten, all other files stripped; if a record cannot be opened, keys and files are as before, that record is untouched, and each other one is as it was or re-encrypted |
| `KeyringSession.Session.Revoke` | packages/hub/src/keyring.ts:285-357 | which roles may revoke whom; the revoked users, with all admin descendants under the strict cascade; and the whole new state with and without rotation, a failed rotation included |
| `KeyringSession.Session.Load` | packages/hub/src/keyring.ts:71-102 | a session of any role, with the keys its file unlocks to, in a vault that others have written to |
| `KeyringSession.RevocationMeans` | packages/hub/src/keyring.ts:285-357 | the revoked keyrings are gone; the others lose exactly the affected collections; the caller reads every affected record as before at its version; the revoked users' keys open none of them |
| `KeyringRuns.RotationLocksOut` | packages/hub/src/keyring.ts:367-495 | rotating a collection locks out whoever knows only the keys in the given users' files |
| `KeyringRuns.UnlockedReadsAll` | packages/hub/src/keyring.ts:71-102 | loading the session's own file with its passphrase gives back its keys, which read every record of a coherent vault |
| `KeyringRuns.RunAs` | packages/hub/src/keyring.ts:40-53 | over every run of a session that is not an owner's no file becomes an owner file; another owner keeps theirs if and only if the session is no admin's or grants that user id no other role; and a session that is neither changes no file but its own, except that a rotation strips the rotated collections from the others |
| `KeyringRuns.Drive` | packages/hub/src/keyring.ts:142-538 | over every run of puts, grants, revocations, rotations and changes of secret each record keeps the version and text last put, the keyring reads them all, and a lock-out lasts |
| `KeyringRuns.RevokeForGood` | packages/hub/src/keyring.ts:285-357 | after a revocation with rotation and any further run, the keys in the revoked users' files open nothing encrypted in the affected collections |
| `Crdt.MergeLwwMap` | packages/hub/src/crdt.ts:105-116 | the loop equals the field-wise merge |
| `Crdt.LwwMergeAssociative` | packages/hub/src/crdt.ts:105-116 | for all states |
| `Crdt.LwwMergeIdempotent` | packages/hub/src/crdt.ts:105-116 | for all states |
| `Crdt.LwwMergeCommutesExactly` | packages/hub/src/crdt.ts:105-116 | commutative if and only if equal timestamps carry equal writes |
| `Crdt.BuildLwwMapState` | packages/hub/src/crdt.ts:139-161 | the loop stamps the fields of the record and keeps the others |
| `Crdt.RebuiltLwwAbsorbsAncestorExactly` | packages/hub/src/crdt.ts:139-161 | merging a rebuilt state with its ancestor changes nothing if and only if the clock is not behind any rewritten field |
| `Crdt.LwwRebuildResolvesExactly` | packages/hub/src/crdt.ts:139-161 | a rebuilt map reads as its record if and only if the old state has no other fields, which are kept as documented |
| `Crdt.RgaMergeAssociative` | packages/hub/src/crdt.ts:118-128 | for all states, tombstones as a set |
| `Crdt.RgaMergeIdempotent` | packages/hub/src/crdt.ts:118-128 | for all states, tombstones as a set |
| `Crdt.RgaMergeCommutesExactly` | packages/hub/src/crdt.ts:118-128 | commutes up to item order if and only if no item id stands for two values |
| `Crdt.MergedLiveness` | packages/hub/src/crdt.ts:118-128 | an item is dead in the merge exactly if it is tombstoned on either side, and known exactly if known on either side |
| `Crdt.MergeAssociativeExactly` | packages/hub/src/crdt.ts:90-103 | merging states of any modes is associative exactly unless the first two differ in mode and the third would change the first |
| `Crdt.MergeIdempotent` | packages/hub/src/crdt.ts:90-103 | for states of all modes |
| `Crdt.LwwReplicasAgreeExactly` | packages/hub/src/crdt.ts:63-116 | two devices that merge each other's maps read the same record if and only if fields written at the same time hold the same value |
| `Crdt.SameStateResolvesAlike` | packages/hub/src/crdt.ts:63-79 | states that differ in the order of tombstones only read the same |
| `CrdtRebuild.RgaReplicasAgree` | packages/hub/src/crdt.ts:72-128 | two devices that merge each other's lists read the same elements up to order, if no id stands for two values |
| `CrdtRebuild.IndexByValue` | packages/hub/src/crdt.ts:175-183 | each value is mapped to its first item |
| `CrdtRebuild.BuildRgaState` | packages/hub/src/crdt.ts:170-221 | the two loops equal the specified rebuild |
| `CrdtRebuild.RebuildResolvesExactly` | packages/hub/src/crdt.ts:170-221 | a rebuilt list resolves to its array if and only if no element is matched to a tombstoned item |
| `CrdtRebuild.RebuildKeepsIdentity` | packages/hub/src/crdt.ts:170-221 | item ids stay unique, keep their values, and none comes back to life |
| `CrdtRebuild.RebuiltAbsorbsAncestor` | packages/hub/src/crdt.ts:118-128 | merging the ancestor into the rebuilt list changes nothing |
| `CrdtRebuild.AncestorAbsorbsRebuilt` | packages/hub/src/crdt.ts:118-128 | merging it the other way round resolves to a permutation of the array |
| `CrdtRebuild.ReaddedValueIsLost` | packages/hub/src/crdt.ts:188-215 | add, delete, add again: the value is gone |
| `Tiering.ConditionalPutAgreesExactly` | packages/hub/src/route-store.ts:450-470 | when a conditional put decides as it would on one map |
| `Tiering.LoadAllAgreesExactly` | packages/hub/src/route-store.ts:505-512 | loading everything shows what reading one by one does if and only if each cold copy is the hot record, strictly older than it, or the only one in a tiered collection |
| `Tiering.TieredStore.Get` | packages/hub/src/route-store.ts:436-448 | reads the overlay of hot on cold |
| `Tiering.TieredStore.Put` | packages/hub/src/route-store.ts:450-470 | acts as one put on the overlay, even if dropping the cold copy fails; one that does not go through changes nothing, exactly unless a failing hot write follows the loss of the only copy |
| `Tiering.TieredStore.Delete` | packages/hub/src/route-store.ts:472-484 | acts as one delete on the overlay exactly unless the cold tier fails while it holds the record; nothing happens if the hot tier fails |
| `Tiering.TieredStore.List` | packages/hub/src/route-store.ts:486-503 | lists the ids of the overlay |
| `Tiering.TieredStore.Compact` | packages/hub/src/route-store.ts:529-552 | the overlay is the same at every step, also between the cold write and the hot delete; exactly the stale records move, and the result counts them |
| `Tiering.StaleIsOlderThanDays` | packages/hub/src/route-store.ts:420-429 | a compaction moves a record exactly if it is in a tiered user collection and more than the configured days old by its timestamp |
| `WriteQueue.EnqueueKeepsTheLast` | packages/hub/src/route-store.ts:325-344 | a bounded queue holds the last writes that fit |
| `WriteQueue.NewestWriteCounts` | packages/hub/src/route-store.ts:325-344 | however small the queue, the newest write is the last one replayed |
| `WriteQueue.SuspendableStore.Resume` | packages/hub/src/route-store.ts:588-614 | replays in order, skips conflicts, counts successes |
| `WriteQueue.SuspendableStore.SuspendedRun` | packages/hub/src/route-store.ts:578-614 | suspend, any writes, resume equals applying them directly, or only the last ones that fit |
| `Snapshots.MergeSnapshots` | packages/hub/src/bundle-store.ts:225-248 | the nested loops equal the collection-wise merge |
| `Snapshots.MergeSnapshotList` | packages/hub/src/route-store.ts:693-713 | the router's list merge is the left fold of the two-way merge |
| `Snapshots.MergeAllFromNothing` | packages/hub/src/route-store.ts:693-713 | the fold may start from its first snapshot |
| `Snapshots.MergeAssociative` | packages/hub/src/bundle-store.ts:225-248 | for all snapshots |
| `Snapshots.MergeIdempotent` | packages/hub/src/bundle-store.ts:225-248 | for all snapshots |
| `Snapshots.MergeAllKeepsLatest` | packages/hub/src/route-store.ts:693-713 | no collection or record is lost or invented, and each record is one with the greatest timestamp |
| `Snapshots.MergeIsOrderIndependent` | packages/hub/src/route-store.ts:693-713 | any order and any repetition give the same result when equal timestamps mean equal envelopes |
| `Snapshots.MergeCommutesExactly` | packages/hub/src/bundle-store.ts:225-248 | two snapshots commute if and only if their ties agree |
| `Cache.CacheKeyInjective` | packages/hub/src/store-middleware.ts:302-304 | joined keys are unambiguous for names without NUL |
| `Cache.CacheKeyCollides` | packages/hub/src/store-middleware.ts:302-304 | an address has its key to itself if and only if it holds no NUL, in its id included |
| `Cache.CachedStore.Get` | packages/hub/src/store-middleware.ts:336-343 | answers from a live entry of the key, otherwise from the store, which it then caches |
| `Cache.CachedStore.ReadBoth` | packages/hub/src/store-middleware.ts:336-343 | of two addresses with one key the second read gets the envelope of the first |
| `Cache.CachedStore.GetFromCache` | packages/hub/src/store-middleware.ts:306-317 | expired entries are dropped, live ones move to the end |
| `Cache.CachedStore.SetInCache` | packages/hub/src/store-middleware.ts:319-326 | at capacity the entry that goes is the one not used for longest |
| `Cache.CachedStore.Put` | packages/hub/src/store-middleware.ts:345-349 | writes through; a put that throws leaves nothing stale |
| `Cache.CachedStore.RunOps` | packages/hub/src/store-middleware.ts:332-354 | in every run, under any clock, over addresses with different keys the cached store answers as the bare store and leaves it in the same state; for all addresses it runs as specified, and the cache never exceeds its bound |
| `Cache.RunsAreTransparentExactly` | packages/hub/src/store-middleware.ts:332-354 | over a set of addresses all runs answer as the bare store does if and only if no two of the addresses share a key |
| `Cache.StepIsTransparent` | packages/hub/src/store-middleware.ts:336-354 | one operation over separate addresses answers as the bare store and keeps every cached envelope current, a throwing put included |
| `Cache.NulFreeIsSeparate` | packages/hub/src/store-middleware.ts:302-304 | names without NUL are such a set |
| `CacheAge.AnswersAreRecent` | packages/hub/src/store-middleware.ts:306-317 | whatever others write behind the cache, an answer is what the store had at some moment no longer ago than the expiry time |
| `CacheAge.FreshEntriesAreUsed` | packages/hub/src/store-middleware.ts:306-317 | an entry that has not expired answers without the store |
| `FanOut.FanOutRun.Launch` | packages/hub/src/noydb.ts:560-583 | takes the next index and adds one task in flight |
| `FanOut.FanOutRun.Run` | packages/hub/src/noydb.ts:541-602 | for every order of completion: terminates, launches each vault once and in order, never more than the limit in flight and no fewer than possible, and each slot holds its own vault's name with its result or the error it ended in |
| `Ulid.EncodeBase32` | packages/hub/src/bundle/ulid.ts:61-69 | the loop writes the digits, exactly as many as asked |
| `Ulid.EncodeKeepsOrder` | packages/hub/src/bundle/ulid.ts:61-69 | fixed-width encodings compare as their numbers |
| `Ulid.GenerateUlid` | packages/hub/src/bundle/ulid.ts:83-124 | time part and random part, and the result passes the format check |
| `Ulid.AlphabetIsUlid` | packages/hub/src/bundle/ulid.ts:132-134 | the format check admits exactly the characters of the alphabet |
| `Ulid.UlidsSortByTime` | packages/hub/src/bundle/ulid.ts:83-124 | a later millisecond gives a greater id whatever the random parts, below 2^49 |
| `Ulid.TimePartWraps` | packages/hub/src/bundle/ulid.ts:86-95 | the time part repeats every 2^49 milliseconds |
| `Ulid.RandomPartInjective` | packages/hub/src/bundle/ulid.ts:97-123 | the random part determines its ten bytes |
| `Ulid.RandomPartDenotes` | packages/hub/src/bundle/ulid.ts:97-123 | each half of the random part is the number of its five bytes, the first one the most significant |
| `Ulid.TimeIsInTwoHalves` | packages/hub/src/bundle/ulid.ts:86-95 | the first five characters denote the milliseconds in units of 2^24 and the next five the rest, below 2^49 |
| `Ulid.TimePartDenotesExactly` | packages/hub/src/bundle/ulid.ts:86-95 | as one base-32 number the time part is the time if and only if it is below 2^24 |
| `HistoryIds.ParseInvertsExactly` | packages/hub/src/history.ts:13-31 | parsing inverts the id if and only if the collection has no colon |
| `HistoryIds.SameIdExactly` | packages/hub/src/history.ts:13-15 | two entries have one id if and only if versions and joined names agree |
| `HistoryIds.IdsAreOwnExactly` | packages/hub/src/history.ts:13-15 | no other record shares an id with this one if and only if neither its collection nor its id has a colon |
| `HistoryIds.IdsSortByVersion` | packages/hub/src/history.ts:13-15 | ids of one record sort by version below 10^10 |
| `HistoryIds.TenDigitsExactly` | packages/hub/src/history.ts:11-15 | a version takes ten digits if and only if it is below 10^10 |
| `HistoryIds.PrefixSelectsExactly` | packages/hub/src/history.ts:33-38 | a record or collection prefix selects an entry if and only if it begins the entry's joined collection and record, for all names |
| `HistoryIds.PrefixWithinCollection` | packages/hub/src/history.ts:33-38 | within a collection: the record and those whose id goes on after a colon |
| `HistoryIds.PrefixSelectsForeignCollection` | packages/hub/src/history.ts:33-38 | across collections: everything in the collection named after collection and record |
| `Sorting.SortAscends` | packages/hub/src/history.ts:61-64 | sorting the ids puts them in strictly ascending order and keeps them all |
| `History.HistoryStore.GetHistory` | packages/hub/src/history.ts:53-82 | the window and the limit applied to the matching entries, newest first; nothing before the lower or after the upper bound, and no more than the limit |
| `History.HistoryStore.Prune` | packages/hub/src/history.ts:97-138 | deletes exactly the surplus and the outdated matching entries, each once, and counts them |
| `History.HistoryIsNewestFirst` | packages/hub/src/history.ts:53-82 | for any names, the history of a record that is alone holds exactly the envelopes last saved for it that are there and in the window, in strictly descending version |
| `History.HistoryReadsBetween` | packages/hub/src/history.ts:71-78 | an envelope is read if and only if it was saved for the record and is neither before the one bound nor after the other |
| `History.WindowsSplit` | packages/hub/src/history.ts:71-78 | reading up to a date and reading from it divide the entries, those exactly at it being in both |
| `History.PrunedIsBefore` | packages/hub/src/history.ts:97-138 | a prune by date deletes exactly what is strictly before the date |
| `History.HistoryIsOwnExactly` | packages/hub/src/history.ts:53-82 | everything read as a record's history was saved for that record if and only if no entry was saved for another one whose joined names begin with the record's, equal ones included |
| `History.HistoryStore.Save` | packages/hub/src/history.ts:41-50 | the envelope under the id of its version, and who it was saved for |
| `History.SavesAreKept` | packages/hub/src/history.ts:41-50 | over any run of saves a version is the one last saved for its record, if no other record has the same joined names |
| `History.VersionsAreKeptExactly` | packages/hub/src/history.ts:41-50 | over all runs of saves no other record can replace or feign a version of this one if and only if neither its collection nor its id has a colon |
| `History.ColonFreeIsAlone` | packages/hub/src/history.ts:33-38 | a record is alone when all names are free of colons |
| `History.PruneTakesExactly` | packages/hub/src/history.ts:97-138 | pruning to nothing deletes exactly the entries the prefix selects, other records' and other collections' included |
| `History.PruneThenRead` | packages/hub/src/history.ts:97-138 | what can be read after a prune is what the kept versions from the date on gave before |
| `History.PruneIsLimit` | packages/hub/src/history.ts:97-138 | pruning to N versions and reading is reading with limit N; pruning to a date is reading from it |

## Left out

- Collection caches, lazy mode and the adapter are one map: `put` and `delete` are modelled on eager collections whose cache agrees with the store. History snapshots, the ledger, schemas, i18n, indexes and change events of the lifecycle are not part of this model.
- A record's `id` field is compared with its key: the deletion theorems assume every record carries its own key, as the source's enforcement does. An `id` that is not a string counts as absent.
- Ref targets are assumed to come from `ref()`, so that they hold no slash.
- `CascadeOrder.StrictRefsSurviveExactly`: leaves aside registries with a ref kept in the field `id`, where a record cannot both carry its own key and refer elsewhere.
- Which collections a keyring may write is a given set in the ref engine; deriving it from role and permissions is not part of this model.
- `Vaults.Vault.PutRecord`: schemas, history, ledger, CRDT states and events of the put lifecycle are not modelled.
- `Vaults.Vault.DeleteRecord`: the history snapshot and the ledger entry of a delete, and their failures, are not modelled.
- `Vaults.Vault.CheckIntegrity`: names records by key, and collections come in any order.
- Store failures inside a cascade are failures of deletes and puts; failing reads are not modelled there.
- `SyncRuns.FailingTurnsThenTwoRoundsConverge`: turns are whole puts, pulls and pushes; those of different devices do not overlap.
- `Tiering.LoadAllAgreesExactly`: two tiers without further routes, all of which can be read; records only, not empty collections.
- `SyncProofs.SyncConverges`: excludes pending deletes and merge resolvers, for which `SyncAgreesExactly` shows that one sync does not converge.
- `Sync.SyncEngine.Reload`: the metadata record and its JSON text are not modelled, only that it holds the log.
- `SyncDevices.DevicesConvergeExactly`: for devices with the same settings, no pending deletes, and dirty entries that carry their record's version; syncs of different devices do not overlap.
- `SyncOutcomes.DefaultSyncKeepsGreaterVersion`: for entries that carry their record's version, as tracked puts do (`SyncRuns.ActKeepsGood`).
- Sync metadata is a field that is always written successfully; dirty-entry timestamps, events, the scheduler, online state and concurrent tracking during a push are not modelled.
- The `manual` conflict policy is any resolver that may defer; custom merge functions are any resolver.
- Yjs states and their external merge.
- `Crdt.RgaMergeAssociative`: tombstone lists are compared as sets, because the program never reads their order.
- `BlobStores.BlobStore.Put`: one writer, so the slot table never conflicts and is not retried.
- `BlobStores.BlobStore.CasUpdateRefCount`: one writer, so there is no retry.
- Blobs have one writer: the compare-and-set retry loops are not modelled, and the first attempt succeeds. Counts under concurrent writers are not claimed.
- MIME types, creation and upload metadata, presigned URLs and streaming responses of blobs. Whether compression applies is a flag of each put. Nothing collects blobs with count zero in the source.
- The content hash is assumed free of collisions and never empty, decompression to invert compression.
- `KeyringRuns.RunAs`: while a session runs no other session writes.
- `CacheAge.AnswersAreRecent`: the clock may be any; moments are compared by what it showed.
- Web Crypto, passphrase derivation and salts are symbolic. Creation dates and display names of keyring files are left out, and a user id is its file key.
- `KeyringSession.Session.RotateKeys`: which records a rotation has re-encrypted when it fails midway depends on the order in which the store lists them and is left open; in coherent vaults rotation does not fail. Record timestamps are not modelled.
- A rotation also stamps re-encrypted records with the current time; record timestamps are not part of the key model.
- Data stored under other collection names (history, blobs) is not re-encrypted by a rotation and not covered by its claims. `granted_by` is read as stored, since rewriting one's own file replaces it by oneself.
- Size-tiered blob routing, overrides, hydration, quotas and per-vault routes of the router; suspension without a queue; a cutoff that moves during `compact`.
- Bundle flush and its retry, and `saveAll` of the combinators.
- `Cache.CachedStore.RunOps`: for runs in which all writes go through the cache. Other middlewares are left out.
- `queryAcross`: the closed check and the session timer. The clock and the random bytes of ULIDs are parameters.
- `HistoryIds.ParseInvertsExactly`: `parseInt` is modelled for strings without leading space or sign, which padded versions are.
- `History.HistoryIsNewestFirst`: for versions that fit the padding. Clearing history is left out.
