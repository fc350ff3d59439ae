# ObjectFS, verified

A Dafny model of ObjectFS, a log-structured, content-addressed distributed filesystem, and proofs of what its
core promises. `dafny verify dfyconfig.toml` checks the whole project.

Code that updates state in place is modelled as classes whose methods have the source's branches, loops and error
order, each proved against a specification function on values. The promises are then lemmas about those functions,
over every input, every run or every interleaving. Where a promise does not hold of the code as it is, the model
keeps the code, a lemma gives an input that breaks it, and another says exactly when it holds.

## What is modelled

**Volume data path** (`Volume`, `VolumeModel`, `VolumeProofs`). A file is an inode row plus chunk rows, inline bytes
or blob digests, overlaid by chunks staged since the last sync. Write, sync, truncate, punch and read are proved to be
operations on one flat byte array (`FlatFile`). `VolumeProofs.ReadsAreFlatIff` gives the exact condition: the inline
limit must not exceed the chunk size. Below that, a sync drops every chunk but the first of a short file. A write
without data can leave a staged size behind that no chunk stands for; `VolumeProofs.WriteKeepsValidIff` says when.

**Namespace** (`Namespace`, `NamespaceModel`, `NamespaceLinks`, `NamespaceRuns`). Rows, entries, open handles, the
in-memory cache of directory parents and the ancestor walk of Rename. `Namespace.Namespace.Run` states the invariant
over every run in one life of the volume, but for two operations that it skips; `NamespaceRuns.RunSound` states what
survives every run, those operations and restarts included. The two break the link counts of files: linking an open file
that has no name left, and renaming one name of a file onto another name of it. One breaks those of directories:
renaming a directory onto another of the same parent. And after a restart, when the cache of parents is empty, a
directory can be moved below itself. Each is characterised in both directions.

**Staging and sync** (`Staging`, `StagingModel`, `StagingRuns`, `SyncModel`, `SyncProofs`). Staging packs with reference
counts, sync snapshots, coalesced waiters. A ghost clock tells a chunk that was staged anew from one that was noted. The
promise of fsync is that what was written to a file is in the chunk rows when success is reported. Rows hold what the
last sync to commit them had noted, so over every interleaving the promise is kept if and only if, of each chunk it is
about, the last sync to commit it had noted no older version than an earlier one (`SyncProofs.ReplyTrueIff`). One sync
at a time would do. The mark that is to ensure it is cleared by the end of any sync, also an idle one, and then a write
can be lost (`SyncProofs.SyncLosesWrite`).

**Recovery** (`Recovery`, `RecoveryModel`, `RecoveryProofs`). The transaction-grouping change reader and the index
rebuild, against a replay of the whole stream. A snapshot is as good as the stream, and a stream of several sessions as
good as the sessions one by one, if and only if no transaction straddles the point between.

**Node cache** (`NodeCache`, `NodeCacheModel`, `NodeCacheProofs`, `NodeCacheBytes`). The write-back cache as a state
machine over its calls: flat contents, generations against stale fills, dirty chunks until acknowledged, the dirty-byte
count. A file is its calls since it last came into the cache; it can leave between them only while it is clean, and
`NodeCacheBytes.KeptIff` says exactly when, by the byte limit. The byte count itself is what the entries hold until a
whole file is put and then cut, punched or written; `NodeCacheBytes.CountsIff` says which calls keep it right.

**Metadata cache** (`Lru`, `LruModel`). The doubly-linked list on the heap, refined to a most-recent-first sequence: a
start of the recency order, and exactly when it is the longest that fits.

**Write-ahead log** (`WalCodec`, `WalScan`, `WalNames`, `WalOpen`, `WalStoreModel`, `WalStore`). Record codec, torn-tail
scan, file names, the opening of a directory in name order, and both segment stores as one class that differs in the key
of a record. A store reopens in order if and only if its names sort as the numbers in them, which from 10^19 on they may
not.

**Packs** (`Pack`, `PackModel`). The append-then-seal pack file, its table and the binary search.

**Leases** (`Lease`) and **statistics** (`Stats`). Exclusive holds over any run of calls; incremental counters against
a recount, and the inode allocator seeded from them.

**EROFS images** (`ErofsTree`, `ErofsLayout`, `ErofsImage`, `ErofsWriter`, `ErofsReader`, `ErofsInode`, `ErofsDir`,
`Xattr`, `XattrSpill`, `XattrPlan`, `Fsck`, `ErofsCheck`). The image compiler from node tree to bytes, the reader, and
the checker. `ErofsReader.Compile` is the round trip: which trees compile, that no two parts of the image overlap, and
exactly when the reader shows the tree the image was made from. `ErofsCheck.CheckImage` says what an image that passes
is free of, and that a compiled one passes if and only if its tree is at most a hundred levels deep.

SHA-256 is injective (a digest is its preimage); CRC-32C, CRC-32 and UTF-8 validity are arbitrary functions passed as
parameters. Clocks, whether staging space ran out, and which handles are open come in as parameters or state.
`Bytes`, `BigEndian`, `LittleEndian`, `ChunkedWrite`, `Sums`, `Minimum` and `Options` hold what several modules share.

Where the code and its documentation differ, the model follows the code: a negative truncate size is refused only
after the staged chunks were dropped; a log scan may cut into a header that declares fewer than 16 bytes; the `..`
entry of an image's root names inode 0; a directory whose mode carries another file kind is written with a mode that
no reader takes for a directory's; a nameless attribute without a value ends the inline list for the reader; siblings
of the same name all lead to the first of them; a hole in a clean cached chunk drops the chunk; a compact inode has no
modification time; a hold is still reported at the very moment it expires, when anybody can acquire it.

## Model

| member | source | states |
|---|---|---|
| VolumeProofs.ReadsAreFlatIff | pkg/objectfs/controller/volume.go:4106-4275 | for one chunk size, every sequence of create, non-empty write, fsync, truncate and hole punch, read after a last fsync, returns the slice of the flat byte array, if and only if the inline limit is at most the chunk size |
| VolumeProofs.SyncedReadIsFlat | pkg/objectfs/controller/volume.go:3513-3709 | a read after a last sync is the slice of the flat array the operations describe |
| VolumeProofs.RunIsFlat | pkg/objectfs/controller/volume.go:990-1141 | after any operations the file state is valid and stands for the flat array those operations describe, synced or not |
| VolumeProofs.SmallChunksLoseData | pkg/objectfs/controller/volume.go:990-1141 | with chunks smaller than the inline limit, one write past the first chunk and a sync reads back zero instead of the byte written |
| VolumeProofs.WriteSecondChunk | pkg/objectfs/controller/volume.go:4106-4275 | that write is accepted and stages chunk 1 alone |
| VolumeProofs.WriteIsFlat | pkg/objectfs/controller/volume.go:4106-4275 | a write that lands, as every write with data does, is the overlay on the flat file, through inline-to-chunk moves and partly covered chunks |
| VolumeProofs.WriteKeepsValid | pkg/objectfs/controller/volume.go:4106-4275 | a write that lands keeps rows, staged chunks and blobs consistent |
| VolumeProofs.WriteKeepsValidIff | pkg/objectfs/controller/volume.go:4106-4275 | for every write, empty ones included: it keeps the state consistent if and only if it has data, or stages a chunk of a file that is not empty, or stages none and its size has staged chunks or inline bytes to stand beside |
| VolumeProofs.WriteIsFlatIff | pkg/objectfs/controller/volume.go:4106-4275 | for every write: the contents after it are the flat overlay if and only if it lands or does not reach past the end |
| VolumeProofs.NotLanded | pkg/objectfs/controller/volume.go:4188-4268 | what a write that does not land leaves: a staged chunk without bytes, or a staged size without chunks |
| VolumeProofs.EmptyWriteLingers | pkg/objectfs/controller/volume.go:4125-4268 | an empty write at a chunk boundary past the end of an empty file is dropped by a sync, but the next byte written makes the file that long |
| VolumeProofs.WriteStages | pkg/objectfs/controller/volume.go:4106-4264 | a write with data stages its first chunk; one without stages its chunk, or only the inline bytes |
| VolumeProofs.WriteUntouched | pkg/objectfs/controller/volume.go:4106-4275 | a write changes no byte of a chunk it does not touch |
| VolumeProofs.SyncIsInvisible | pkg/objectfs/controller/volume.go:990-1141 | a sync empties the staging of a file and changes no byte of it |
| VolumeProofs.InlineIsChunkZero | pkg/objectfs/controller/volume.go:990-1141 | a file short enough to inline has nothing outside chunk 0, so writing it inline loses nothing |
| VolumeProofs.TruncateIsFlat | pkg/objectfs/controller/volume.go:4277-4502 | a truncate cuts or zero-extends the flat file |
| VolumeProofs.TruncateKeepsValid | pkg/objectfs/controller/volume.go:4277-4502 | a truncate keeps the state valid |
| VolumeProofs.RefusedTruncate | pkg/objectfs/controller/volume.go:4282-4334 | a negative size is refused with EINVAL after the staged chunks were dropped; the file is unchanged if and only if nothing was staged |
| VolumeProofs.PunchIsFlat | pkg/objectfs/controller/volume.go:4504-4774 | punching a synced file zeroes exactly the range and grows the file exactly when size is not kept |
| VolumeProofs.CreateIsFlat | pkg/objectfs/controller/volume.go:2917-3244 | a new file holds its initial content, inline or in chunks |
| VolumeProofs.ReadIsFlat | pkg/objectfs/controller/volume.go:3513-3709 | a read of a synced file is a slice of the flat file |
| VolumeProofs.ReadCommitted | pkg/objectfs/controller/volume.go:1434-1488 | every chunk of a valid file can be read, and reads as its committed bytes |
| VolumeProofs.CommittedIsRow | pkg/objectfs/controller/volume.go:1359-1428 | loading a file from its rows loses no byte |
| Volume.Volume.constructor | pkg/objectfs/controller/volume.go:518-530 | an empty volume is valid |
| Volume.Volume.CreateFile | pkg/objectfs/controller/volume.go:2917-3244 | the new file stands for its content, other files are untouched |
| Volume.Volume.WriteFile | pkg/objectfs/controller/volume.go:4106-4275 | for every write: ENOENT, EISDIR and ENOSPC change nothing; else the chunk loops compute the model write on the named file only, all files stay valid if and only if it lands, and the bytes are the flat overlay if and only if it lands or does not reach past the end |
| Volume.Volume.FetchBase | pkg/objectfs/controller/volume.go:4153-4186 | fetches the committed bytes of exactly the chunks the write covers in part |
| Volume.Volume.StageChunks | pkg/objectfs/controller/volume.go:4204-4264 | the staging loop gives the staged chunks of the model write |
| Volume.Volume.Fsync | pkg/objectfs/controller/volume.go:784-895 | commits every staged file, uploads before rows, and changes no contents |
| Volume.Volume.TruncateFile | pkg/objectfs/controller/volume.go:4277-4502 | the staged chunks are cut before the errors are found, the truncate loops cut or zero-extend the named file only, and a directory, which has nothing staged, is left alone |
| Volume.Volume.CutStaged | pkg/objectfs/controller/volume.go:4282-4309 | cuts the staged chunks to the new size |
| Volume.Volume.PunchHole | pkg/objectfs/controller/volume.go:4504-4774 | syncs, zeroes the range of the named file, leaves the contents of all others; EINVAL, ENOENT and EISDIR as in the source |
| Volume.Volume.PunchCommitted | pkg/objectfs/controller/volume.go:4544-4774 | the committed half of the punch is the row transaction of the model |
| Volume.Volume.PunchEach | pkg/objectfs/controller/volume.go:4653-4722 | the chunk loop deletes covered rows and rewrites partly covered ones |
| Volume.Volume.ReadFile | pkg/objectfs/controller/volume.go:3513-3709 | planning, fetching and copying chunk by chunk returns the slice of the flat file |
| Volume.Volume.ReadChunks | pkg/objectfs/controller/volume.go:3586-3709 | the copy loop assembles the range from chunks, holes reading zero |
| Namespace.Namespace.Run | pkg/objectfs/controller/volume.go:2787-2915 | over every run of namespace operations in one life of the volume that skips the two operations that break file counts, which the code performs: each other one does its row transaction, as the open handles decide, or is refused, and every tree on the way has no dangling entry, right link counts for files, one entry per directory matching its parent, and parent chains that reach the root |
| NamespaceRuns.RunSound | pkg/objectfs/controller/volume.go:2787-5482 | over every run, with nothing skipped, whatever the cache of parents knows and restarts included: no entry dangles, no file has fewer links counted than names, and every directory has exactly one entry, in the directory its row calls its parent |
| NamespaceRuns.StepSound | pkg/objectfs/controller/volume.go:2787-5482 | the same for one turn |
| NamespaceRuns.Perform | pkg/objectfs/controller/volume.go:2787-5482 | any operation of the volume, or a restart, is such a turn |
| NamespaceRuns.PerformRename | pkg/objectfs/controller/volume.go:5009-5290 | a rename goes ahead or not, whatever the walk sees, but never into the directory it moves |
| NamespaceRuns.RenameSound | pkg/objectfs/controller/volume.go:5120-5290 | a rename that goes ahead, also between two names of a file and below the directory it moves, leaves no entry dangling and no file counted too low |
| NamespaceRuns.UnlinkSound | pkg/objectfs/controller/volume.go:4776-4905 | an unlink deletes a row only when no other entry names it, however high the count was |
| NamespaceRuns.LinkSound | pkg/objectfs/controller/volume.go:3374-3480 | a link counts a file at least as high as its names |
| NamespaceRuns.RmdirSound | pkg/objectfs/controller/volume.go:4907-5007 | removing an empty directory leaves no entry dangling |
| NamespaceRuns.DropSound | pkg/objectfs/controller/volume.go:5436-5482 | a file dropped with its last handle has no name |
| NamespaceRuns.MkdirSound | pkg/objectfs/controller/volume.go:2787-2915 | a new directory has its one entry |
| NamespaceRuns.CreateSound | pkg/objectfs/controller/volume.go:3125-3220 | a new file has its one link |
| NamespaceRuns.InvIsSound | pkg/objectfs/controller/volume.go:2787-5482 | the invariant of the covered runs is more than that |
| Namespace.HeldStays | pkg/objectfs/controller/volume.go:4776-5482 | a file with a handle before and after an operation keeps its row |
| Namespace.Namespace.Apply | pkg/objectfs/controller/volume.go:5009-5290 | one operation of such a run |
| Namespace.Namespace.constructor | pkg/objectfs/controller/volume.go:6352-6392 | a fresh volume, the root alone, satisfies the invariant |
| Namespace.Namespace.Load | pkg/objectfs/controller/volume.go:2198-2210 | loading a directory notes its parent, and the cache of parents stays right |
| Namespace.Namespace.Mkdir | pkg/objectfs/controller/volume.go:2787-2915 | error order, new number, row transaction; keeps the invariant |
| Namespace.Namespace.CreateFile | pkg/objectfs/controller/volume.go:2917-3244 | creates, or reopens an existing regular file, or EISDIR or EEXIST; keeps the invariant |
| Namespace.Namespace.Insert | pkg/objectfs/controller/volume.go:3125-3220 | the row transaction of a new file under a new number |
| Namespace.Namespace.Symlink | pkg/objectfs/controller/volume.go:3246-3357 | as CreateFile, for a link; keeps the invariant |
| Namespace.Namespace.Link | pkg/objectfs/controller/volume.go:3374-3480 | adds a name; keeps the invariant if and only if the file still had one |
| Namespace.Namespace.Unlink | pkg/objectfs/controller/volume.go:4776-4905 | removes a name, and the row when no name and no handle is left; keeps the invariant |
| Namespace.Namespace.Rmdir | pkg/objectfs/controller/volume.go:4907-5007 | removes an empty directory; keeps the invariant |
| Namespace.Namespace.Walk | pkg/objectfs/controller/volume.go:5108-5119 | the ancestor walk ends, and finds the moved directory if and only if it lies above the new parent by parents the cache knows; with a full cache, if and only if it lies above it |
| Namespace.Namespace.Rename | pkg/objectfs/controller/volume.go:5009-5290 | goes ahead exactly when its checks pass and the walk does not meet the moved directory; keeps the invariant if and only if source and target are not two names of one file and the new parent is not below the moved directory, which a full cache always sees |
| Namespace.Namespace.Reload | pkg/objectfs/controller/volume.go:5803-5804 | a restart keeps the rows and the invariant, and empties the cache of parents |
| Namespace.Namespace.Commit | pkg/objectfs/controller/volume.go:5120-5290 | the row transaction of a rename, with rows copied before the transaction; exactly when it keeps the invariant |
| Namespace.Namespace.Open | pkg/objectfs/controller/volume.go:5406-5434 | counts a handle, changes no row |
| Namespace.Namespace.Release | pkg/objectfs/controller/volume.go:5436-5482 | drops a handle, and the file with the last handle of an unlinked file |
| NamespaceProofs.RenameKeeps | pkg/objectfs/controller/volume.go:5009-5290 | a rename that passed its checks keeps the tree invariant if and only if it is not between two names of one file |
| NamespaceProofs.RenameOntoSameFile | pkg/objectfs/controller/volume.go:5120-5290 | renaming one name of a file onto another leaves its link count one too high |
| NamespaceProofs.RenameToItself | pkg/objectfs/controller/volume.go:5120-5290 | renaming an entry onto itself changes no row of the tree |
| NamespaceProofs.RenameRooted | pkg/objectfs/controller/volume.go:5108-5290 | after a rename every directory still reaches the root |
| NamespaceProofs.LinkKeeps | pkg/objectfs/controller/volume.go:3374-3480 | a link keeps the counts if and only if the file had a link |
| NamespaceProofs.MkdirKeeps | pkg/objectfs/controller/volume.go:2787-2915 | a new directory keeps the invariant |
| NamespaceProofs.CreateKeeps | pkg/objectfs/controller/volume.go:3125-3220 | a new file keeps the invariant |
| NamespaceProofs.UnlinkKeeps | pkg/objectfs/controller/volume.go:4776-4905 | an unlink keeps the invariant, whether the file is open or not |
| NamespaceProofs.RmdirKeeps | pkg/objectfs/controller/volume.go:4907-5007 | removing an empty directory keeps the invariant |
| NamespaceProofs.DropOrphanKeeps | pkg/objectfs/controller/volume.go:5436-5482 | dropping a file without names keeps the invariant |
| Namespace.LinkOfOrphan | pkg/objectfs/controller/volume.go:3374-3480 | the run that breaks a count by a link: create, open, unlink, link |
| Namespace.RenameOntoOtherName | pkg/objectfs/controller/volume.go:5120-5290 | the run that breaks a count by a rename: create, link, rename one name onto the other |
| Namespace.SeenIsBelow | pkg/objectfs/controller/volume.go:5108-5119 | what the walk finds lies above, and with a full cache it finds whatever does |
| Namespace.CommitKeeps | pkg/objectfs/controller/volume.go:5009-5290 | a rename that passed its checks keeps tree and cache if and only if it is neither between two names of one file nor to below the directory it moves |
| Namespace.MovedBelowBreaks | pkg/objectfs/controller/volume.go:5108-5290 | a directory moved to below itself is cut off from the root |
| Namespace.RestartThenMove | pkg/objectfs/controller/volume.go:5108-5119 | after a restart the walk does not know the parent of a/b, so a can be moved to a/b/c/x |
| NamespaceLinks.StepCountsIff | pkg/objectfs/controller/volume.go:2787-5290 | one operation keeps the count of every directory at two plus its subdirectories if and only if it does not replace a directory by another of the same parent |
| NamespaceLinks.RunCounts | pkg/objectfs/controller/volume.go:2787-5290 | over every run the counts of directories stay right until such a rename |
| NamespaceLinks.RenameCountsIff | pkg/objectfs/controller/volume.go:5120-5290 | the same for any rename that passed its checks |
| NamespaceLinks.MkdirCounts | pkg/objectfs/controller/volume.go:2833-2850 | a new directory raises the count of its parent |
| NamespaceLinks.RmdirCounts | pkg/objectfs/controller/volume.go:4954-4970 | a removed one lowers it |
| NamespaceLinks.ReplaceDirectory | pkg/objectfs/controller/volume.go:5138-5147 | make two directories and rename one onto the other: the root counts two subdirectories and has one |
| Recovery.RebuildIndex | pkg/objectfs/controller/volume.go:5808-6014 | a rebuild that succeeds applied every position after the snapshot up to a head at least the target, once and in order, and its rows are those of replaying the whole stream when no transaction straddles the snapshot; a failure names the gap, the shortfall or the unusable record |
| Recovery.Rebuild.constructor | pkg/objectfs/controller/volume.go:5808-5900 | a rebuild starts from the snapshot rows with nothing pending |
| Recovery.Rebuild.Take | pkg/objectfs/controller/volume.go:5892-6014 | one record: a restore replaces the rows, any other is fed and what it commits is applied |
| Recovery.Rebuild.TakeAll | pkg/objectfs/controller/volume.go:5892-6014 | records below the expected position are skipped, a later one is a gap, and no position is applied twice |
| Recovery.ChangeReader.constructor | pkg/sds/reader.go:65-77 | a new reader has nothing pending |
| Recovery.ChangeReader.Feed | pkg/sds/reader.go:151-268 | holds the writes of a transaction until its commit, hands out what is committed, moves the safe position when nothing is pending; the version and header errors |
| Recovery.ChangeReader.DiscardPending | pkg/sds/reader.go:133-147 | forgets open transactions and hands back every change they held, each as often as it was held, in stream order |
| Recovery.SortByPosition | pkg/sds/reader.go:141-143 | the sort is a permutation in stream order |
| Recovery.FeedAll | pkg/sds/reader.go:151-268 | fed a stream, the reader hands out at each position what a replay applies there, and its safe position is the latest with nothing pending |
| RecoveryProofs.SnapshotReplay | pkg/objectfs/controller/volume.go:5892-6014 | replay from a snapshot has the effects of the whole stream at every position if and only if no transaction straddles the snapshot, and then gives the same rows |
| RecoveryProofs.SameEffectIff | pkg/objectfs/controller/volume.go:5892-6014 | one record has the same effect in both replays if and only if it does not commit a straddling transaction |
| RecoveryProofs.PendingIsOpen | pkg/sds/reader.go:151-268 | what a reader holds pending is exactly what is open in the stream |
| RecoveryProofs.Carried | pkg/sds/reader.go:151-268 | a replay past a point holds what was open there followed by what a replay begun there holds |
| RecoveryProofs.NothingPending | pkg/sds/reader.go:103-116 | where nothing is pending nothing straddles |
| RecoveryProofs.SafeIsLatest | pkg/sds/reader.go:103-109 | the safe position is the latest one with nothing pending |
| RecoveryProofs.SafeSnapshot | pkg/sds/reader.go:103-116 | a snapshot taken at the safe position replays to the rows of the whole stream |
| RecoveryProofs.ReplayIsLive | pkg/objectfs/controller/volume.go:6206-6341 | replaying all sessions from the start has at every position the effect the session it belongs to had if and only if no transaction straddles the beginning of a session, and then gives the rows the volume lived with, abandoned transactions included |
| RecoveryProofs.EffectIsLiveIff | pkg/objectfs/controller/volume.go:6206-6341 | one position has that effect if and only if it commits no transaction open since before its session |
| RecoveryProofs.ClosedSessions | pkg/objectfs/controller/volume.go:6206-6341 | sessions that leave nothing open never straddle, whatever ids they reuse |
| RecoveryProofs.LiveStep | pkg/objectfs/controller/volume.go:6206-6341 | the rows lived with change by the effect of each position |
| RecoveryProofs.ReusedId | pkg/sds/writer.go:144-151 | with a reused id it does not: a later session commits what an earlier one abandoned |
| Staging.Staging.FinishSync | pkg/objectfs/controller/volume.go:636-693 | a committed sync drops exactly the noted chunks not staged anew since, and answers a waiter with success only when nothing but later writes is staged for its inode; waiters are neither lost nor answered twice; a failed sync drops nothing |
| SyncProofs.ReplyTrueIff | pkg/objectfs/controller/volume.go:636-1293 | over every run of writes, drops, uploads, requests and the three steps of any number of syncs, with chunk rows that hold what the last sync to commit them had noted: a reply of success, to a caller or a waiter, is true if and only if for no chunk it promises the last sync to commit it had noted an older version than an earlier one had |
| SyncProofs.GuardedIsTrue | pkg/objectfs/controller/volume.go:695-765 | if no sync begins while another has yet to write its rows, every reply of success is true |
| SyncProofs.OneAtATimeIsTrue | pkg/objectfs/controller/volume.go:751-755 | so when a sync begins only when none is under way |
| SyncProofs.ExposedIff | pkg/objectfs/controller/volume.go:636-643 | a sync can begin while another has yet to write its rows exactly after a third ended and cleared the mark it had not set |
| SyncProofs.ExposedLoses | pkg/objectfs/controller/volume.go:1160-1293 | from every such state some run ends with a reply of success for a write that the rows do not hold |
| SyncProofs.SyncLosesWrite | pkg/objectfs/controller/volume.go:825-834 | an idle fsync begun before the first write and ended during the sync of that write is enough to get there |
| SyncProofs.WaitersServed | pkg/objectfs/controller/volume.go:662-682 | over every run no waiter is lost or answered twice, and one told of success by a true reply has in the rows what the writes it waits for left in its file |
| SyncProofs.InRowsIff | pkg/objectfs/controller/volume.go:1055-1087 | a version some sync committed is in the rows, or a newer one, if and only if it was not overtaken |
| SyncProofs.RunOk | pkg/objectfs/controller/volume.go:636-1293 | over every run each version is staged, hidden by a newer one that is, or was committed by some sync |
| SyncProofs.StepOk | pkg/objectfs/controller/volume.go:636-1293 | the same for one event |
| SyncProofs.BeginBegan | pkg/objectfs/controller/volume.go:1172-1214 | a sync that begins notes, or finds committed, everything written so far to the files it is for |
| SyncProofs.WriteFollows | pkg/objectfs/controller/volume.go:4206-4268 | a later write does not take from what a sync under way accounts for |
| SyncProofs.CommitFollows | pkg/objectfs/controller/volume.go:1258-1263 | a row transaction takes from no sync under way what it accounts for |
| SyncProofs.RemainingAccounted | pkg/objectfs/controller/volume.go:652-659 | what leaves the staging area with a sync was committed |
| SyncProofs.FinishKept | pkg/objectfs/controller/volume.go:636-693 | all that a sync that succeeds promises was committed by some sync |
| SyncProofs.UnstagedKept | pkg/objectfs/controller/volume.go:839-877 | a request answered at once, because nothing is staged, promises only what was committed |
| SyncProofs.CommitOrdered | pkg/objectfs/controller/volume.go:1258-1263 | the one sync that has yet to write its rows writes none older than those there are |
| StagingRuns.Runner.Run | pkg/objectfs/controller/volume.go:636-1293 | any events take the staging area, its syncs and the mark through the run of the model |
| StagingRuns.Runner.constructor | pkg/objectfs/controller/volume.go:540-550 | an empty staging area is the start of a run |
| StagingRuns.Runner.DoCommit | pkg/objectfs/controller/volume.go:1258-1263 | the row transaction of a sync as one event |
| StagingRuns.Runner.Note | pkg/objectfs/controller/volume.go:1172-1239 | what a sync notes, and nothing if its pack cannot be sealed |
| StagingRuns.Runner.Retire | pkg/objectfs/controller/volume.go:636-693 | comparing references takes out exactly the chunks noted and not staged anew |
| StagingRuns.Runner.DoWrite | pkg/objectfs/controller/volume.go:4206-4268 | a write as one event of a run |
| StagingRuns.Runner.DoDrop | pkg/objectfs/controller/volume.go:4050-4065 | a dropped chunk as one event |
| StagingRuns.Runner.DoDropFile | pkg/objectfs/controller/volume.go:4067-4079 | a deleted file as one event |
| StagingRuns.Runner.DoRequest | pkg/objectfs/controller/volume.go:784-895 | a request as one event |
| StagingRuns.Runner.DoBegin | pkg/objectfs/controller/volume.go:1172-1242 | the begin of a sync as one event: it waits while the mark is set, and sets it if it notes anything |
| StagingRuns.Runner.DoFinish | pkg/objectfs/controller/volume.go:636-693 | the end of a sync as one event: its chunks leave, its waiters are answered and the mark is cleared, whoever set it |
| StagingRuns.Runner.DoUpload | pkg/objectfs/controller/volume.go:3926-3983 | an upload as one event |
| Staging.Staging.Commit | pkg/objectfs/controller/volume.go:652-659 | drops a noted chunk if and only if it was not staged anew |
| Staging.Staging.Settle | pkg/objectfs/controller/volume.go:645-660 | the loop over the noted chunks |
| Staging.Staging.AnswerWaiters | pkg/objectfs/controller/volume.go:662-682 | the waiter loop splits the waiters into answered and kept |
| Staging.Staging.BeginSync | pkg/objectfs/controller/volume.go:1172-1202 | seals the active pack and notes what is staged for the sync |
| Staging.Staging.BeginIdle | pkg/objectfs/controller/volume.go:1178-1214 | with nothing staged for it, a sync notes nothing |
| Staging.Staging.EvictUploaded | pkg/objectfs/controller/volume.go:601-628 | deletes only uploaded packs no staged chunk refers to, lowest first, until the bytes fit |
| Staging.Staging.Delete | pkg/objectfs/controller/volume.go:583-599 | forgetting a pack nobody refers to keeps the counts |
| Staging.Staging.PackBytes | pkg/objectfs/controller/volume.go:601-628 | the total size of all packs |
| Staging.Staging.Append | pkg/objectfs/controller/volume.go:3985-4032 | the active pack, opened if there is none |
| Staging.Staging.Set | pkg/objectfs/controller/volume.go:4034-4048 | pointing a chunk at a pack keeps reference counts and staged bytes exact |
| Staging.Staging.Stage | pkg/objectfs/controller/volume.go:3985-4048 | a chunk is staged under its bytes in the active pack, and a sync begun before can tell |
| Staging.Staging.Write | pkg/objectfs/controller/volume.go:4206-4268 | stages exactly the chunks touched, stamped with the next write number |
| Staging.Staging.Drop | pkg/objectfs/controller/volume.go:4050-4065 | dropping a chunk keeps counts and bytes exact |
| Staging.Staging.DropFile | pkg/objectfs/controller/volume.go:4067-4079 | drops exactly the chunks of one inode |
| Staging.Staging.SetPackState | pkg/objectfs/controller/volume.go:3926-3983 | an upload changes only the state of its pack |
| Staging.Staging.RequestSync | pkg/objectfs/controller/volume.go:784-895 | a request waits if and only if something is staged, and then for the writes so far |
| Staging.Staging.constructor | pkg/objectfs/controller/volume.go:583-634 | an empty staging area is consistent |
| Staging.Staging.StandsIff | pkg/objectfs/controller/volume.go:652-659 | comparing references tells restaged chunks from noted ones, in both directions |
| Staging.Staging.OnlyLater | pkg/objectfs/controller/volume.go:636-693 | once the noted chunks are gone, what is staged is from later writes |
| StagingModel.SetKeeps | pkg/objectfs/controller/volume.go:4034-4048 | replacing a reference moves one count and the difference of lengths |
| StagingModel.DropKeeps | pkg/objectfs/controller/volume.go:4050-4065 | removing a reference lowers one count and the staged bytes |
| StagingModel.ForgetKeeps | pkg/objectfs/controller/volume.go:583-599 | a pack whose count is not positive has no users |
| StagingModel.AnsweredAre | pkg/objectfs/controller/volume.go:662-682 | which waiters a sync answers |
| StagingModel.WaitersKept | pkg/objectfs/controller/volume.go:662-682 | answered and kept waiters together are the waiters there were |
| NodeCacheProofs.RangeAfterRun | pkg/objectfs/fuse/cache.go:151-217 | after any writes, truncates and hole punches to any files, with clean or dirty chunks cached at the start, every GetRange hit on a file is the slice of the flat file its own calls made since it came into the cache, and a chunk that is not cached is zero there, as long as no hole in it cuts into a clean chunk that is not zero beside the hole |
| NodeCacheProofs.MutationsAreFlat | pkg/objectfs/fuse/cache.go:535-787 | over every such run a file holds, for as long as it is cached, exactly the flat file of its own calls since it came in, whatever is done to others |
| NodeCacheProofs.UnsyncedSizeStays | pkg/objectfs/fuse/cache.go:789-818 | over every such run a file with an unacknowledged size stays cached |
| NodeCacheProofs.LeavesOnlyClean | pkg/objectfs/fuse/cache.go:789-818 | such a call removes a file from the cache only while it is clean, and only as a write to another file or an empty one |
| NodeCacheProofs.RangeOfKept | pkg/objectfs/fuse/cache.go:151-217 | when the file is never evicted between its calls, every hit is the slice of the flat file of all of them, whether it was cached at the start or not |
| NodeCacheProofs.RangeOfAll | pkg/objectfs/fuse/cache.go:151-217 | so when its own writes are not empty and it is dirty whenever another file is written |
| NodeCacheBytes.KeptIff | pkg/objectfs/fuse/cache.go:789-818 | over every run of local calls with a byte limit, where clean entries were read at different times: a file is kept throughout if and only if at each write it is dirty, inode 0 or behind it, or the bytes fit without all clean entries read before it |
| NodeCacheBytes.KeptStepIff | pkg/objectfs/fuse/cache.go:789-818 | the same for one call |
| NodeCacheBytes.RangeWhileRoom | pkg/objectfs/fuse/cache.go:151-217 | from an empty cache, while there is that room for a file, every hit is the slice of the flat file of all its calls |
| NodeCacheBytes.ShortAfterEviction | pkg/objectfs/fuse/cache.go:535-629 | once a file with more than a byte is out of the cache, a write of one byte makes it read as that byte |
| NodeCacheBytes.EvictedIff | pkg/objectfs/fuse/cache.go:789-818 | making room evicts an entry if and only if it is clean, not inode 0 nor read after it, and the bytes do not fit without all clean entries read before it |
| NodeCacheBytes.LeavesOnlyFull | pkg/objectfs/fuse/cache.go:789-818 | one direction of it, read times equal or not |
| NodeCacheBytes.StaysOnlyFitting | pkg/objectfs/fuse/cache.go:789-818 | the other direction |
| NodeCacheBytes.DriftStep | pkg/objectfs/fuse/cache.go:229-867 | for every call: how far the byte count is from what the entries are charged for changes by exactly the whole-file buffer that starts or stops to count, the buffer a truncate takes off beside the chunks, and the fill whose own entry made room for it |
| NodeCacheBytes.CountsIff | pkg/objectfs/fuse/cache.go:229-867 | for every call: the count stays as right as it was if and only if none of these happens, told from the entry before the call |
| NodeCacheBytes.CountIsTotal | pkg/objectfs/fuse/cache.go:535-867 | over every run from an empty cache without a Put of a file with contents or a fill that evicts its own entry, the byte count is what all entries are charged for |
| NodeCacheBytes.CutCountedTwice | pkg/objectfs/fuse/cache.go:690-695 | put a file of two bytes and cut one off: the count is then one below what the cache holds |
| NodeCacheBytes.SizedIsNext | pkg/objectfs/fuse/cache.go:535-867 | a call with its byte count is a call of the model |
| NodeCacheBytes.WholeCharge | pkg/objectfs/fuse/cache.go:475-522 | a whole file is charged for its length |
| NodeCacheProofs.OwnRunIsFlat | pkg/objectfs/fuse/cache.go:535-787 | a run of one file alone keeps its entry, so every hit is the slice of the flat file of all its calls, first write to an unknown file included |
| NodeCacheBytes.EvictedWhileClean | pkg/objectfs/fuse/cache.go:789-818 | for every byte limit: write a chunk, punch it away, write more than the limit to another file, write one byte: the clean entry is evicted, and GetRange is then shorter than the flat file of all the calls |
| NodeCacheProofs.GetRangeIsFlat | pkg/objectfs/fuse/cache.go:151-217 | a hit is a slice of any flat file the entry holds |
| NodeCacheProofs.WrittenHolds | pkg/objectfs/fuse/cache.go:535-629 | a write is the flat overlay |
| NodeCacheProofs.TruncatedHolds | pkg/objectfs/fuse/cache.go:631-701 | a truncate is the flat cut or extension |
| NodeCacheProofs.PunchedHolds | pkg/objectfs/fuse/cache.go:703-787 | a hole is the flat hole |
| NodeCacheProofs.PunchedHoldsIff | pkg/objectfs/fuse/cache.go:757-763 | for every entry that holds a flat file: a hole is the flat hole if and only if every clean chunk it cuts into is zero beside it, because that chunk is dropped whole |
| NodeCacheProofs.CleanChunkPunched | pkg/objectfs/fuse/cache.go:757-763 | a fetched file of two bytes loses the second to a hole in the first |
| NodeCacheProofs.UnsyncedRunIsSafe | pkg/objectfs/fuse/cache.go:745-781 | a file that is not cached, or of which nothing cached is clean, meets that in every run of local calls |
| NodeCacheProofs.StaleFillChangesNothing | pkg/objectfs/fuse/cache.go:219-305 | over every interleaving, a fill whose generation was read before a later local mutation of its inode changes nothing, even if the entry was dropped and made again |
| NodeCacheProofs.EffectiveRises | pkg/objectfs/fuse/cache.go:219-227 | no call takes the generation in force for an inode back |
| NodeCacheProofs.MutationRaises | pkg/objectfs/fuse/cache.go:535-787 | a local mutation puts a generation in force that was never handed out |
| NodeCacheProofs.GensKept | pkg/objectfs/fuse/cache.go:26-38 | every call keeps the generations in order |
| NodeCacheProofs.DirtyChunkSurvives | pkg/objectfs/fuse/cache.go:229-305 | no fill, eviction, invalidation or call about another file alters or removes a dirty chunk |
| NodeCacheProofs.CountKept | pkg/objectfs/fuse/cache.go:535-629 | every call keeps dirtyBytes equal to the total length of the dirty chunks |
| NodeCacheProofs.StampSurvivesIff | pkg/objectfs/fuse/cache.go:383-397 | a dirty stamp outlives a call if and only if the call is no newer write, no discard and no acknowledgement of that stamp or a later one |
| NodeCacheProofs.DirtyUntilAcknowledged | pkg/objectfs/fuse/cache.go:356-397 | over every interleaving, a write that nothing superseded and no acknowledged snapshot contains is still dirty |
| NodeCacheProofs.AcknowledgedWasSent | pkg/objectfs/fuse/cache.go:356-397 | an acknowledgement that cleans a chunk finds the bytes its snapshot held |
| NodeCache.NodeCache.Run | pkg/objectfs/fuse/cache.go:535-867 | any calls on the cache make a run of the model, byte count included, so the theorems about runs are about the cache |
| NodeCache.NodeCache.Apply | pkg/objectfs/fuse/cache.go:535-867 | each call is the model step |
| NodeCache.NodeCache.constructor | pkg/objectfs/fuse/cache.go:74-83 | an empty cache is valid, with a limit of at least one byte |
| NodeCache.NodeCache.WriteAt | pkg/objectfs/fuse/cache.go:535-629 | one write of the model |
| NodeCache.NodeCache.WriteChunks | pkg/objectfs/fuse/cache.go:573-620 | the chunk loop extends, overwrites and stamps each touched chunk and recounts the bytes and the dirty bytes |
| NodeCache.NodeCache.Truncate | pkg/objectfs/fuse/cache.go:631-701 | one truncate of the model |
| NodeCache.NodeCache.CutChunks | pkg/objectfs/fuse/cache.go:664-683 | the first loop drops chunks past the end and cuts the last |
| NodeCache.NodeCache.CutStrayStamps | pkg/objectfs/fuse/cache.go:684-688 | the second loop drops stamps past the end |
| NodeCache.NodeCache.LastChunkCut | pkg/objectfs/fuse/cache.go:672-682 | the length of the chunk the new end falls in |
| NodeCache.NodeCache.PunchHole | pkg/objectfs/fuse/cache.go:703-787 | one hole of the model |
| NodeCache.NodeCache.PunchChunks | pkg/objectfs/fuse/cache.go:745-781 | covered and clean overlapped chunks go, dirty overlapped ones are zeroed |
| NodeCache.NodeCache.ZeroBytes | pkg/objectfs/fuse/cache.go:766-778 | zeroes a range of a buffer |
| NodeCache.NodeCache.GetRange | pkg/objectfs/fuse/cache.go:151-217 | a hit is the range of the cached bytes, a miss is none |
| NodeCache.NodeCache.ReadChunks | pkg/objectfs/fuse/cache.go:184-216 | the copy loop over chunks |
| NodeCache.NodeCache.GetGeneration | pkg/objectfs/fuse/cache.go:219-227 | the generation a later fill must carry |
| NodeCache.NodeCache.PutChunk | pkg/objectfs/fuse/cache.go:229-305 | one fill of the model: refused when stale, else stored unless the chunk is dirty |
| NodeCache.NodeCache.FillRoom | pkg/objectfs/fuse/cache.go:281-304 | makes room, then stores the chunk if its entry is still there |
| NodeCache.NodeCache.Put | pkg/objectfs/fuse/cache.go:475-522 | replaces a clean entry by a whole file |
| NodeCache.NodeCache.Cut | pkg/objectfs/fuse/cache.go:506-517 | a whole file cut into chunks |
| NodeCache.NodeCache.EntryBytes | pkg/objectfs/fuse/cache.go:461-473 | the bytes an entry is charged for |
| NodeCache.NodeCache.EvictIfNeeded | pkg/objectfs/fuse/cache.go:789-818 | evicts clean entries only, longest unread first; the count goes down by what they were charged for; it stops when the bytes fit, nothing clean is left or inode 0 is next, and with the last one that went they would not fit |
| NodeCache.NodeCache.OldestClean | pkg/objectfs/fuse/cache.go:795-809 | finds the longest unread clean entry |
| NodeCache.NodeCache.GetDirtyChunks | pkg/objectfs/fuse/cache.go:356-381 | a snapshot is every dirty chunk with its bytes and stamp |
| NodeCache.NodeCache.MarkChunkClean | pkg/objectfs/fuse/cache.go:383-397 | one chunk acknowledgement of the model |
| NodeCache.NodeCache.MarkSizeClean | pkg/objectfs/fuse/cache.go:450-459 | one size acknowledgement of the model |
| NodeCache.NodeCache.Invalidate | pkg/objectfs/fuse/cache.go:820-833 | drops an entry and its dirty bytes from the count |
| NodeCache.NodeCache.SubtractDirty | pkg/objectfs/fuse/cache.go:820-833 | the loop that takes the dirty bytes off the count |
| NodeCache.NodeCache.InvalidateIfNotDirty | pkg/objectfs/fuse/cache.go:838-846 | drops a clean entry only |
| NodeCache.NodeCache.InvalidateAllClean | pkg/objectfs/fuse/cache.go:848-858 | drops every clean entry and no dirty one |
| NodeCache.NodeCache.Clear | pkg/objectfs/fuse/cache.go:860-867 | drops everything |
| Lru.LruCache.Put | pkg/objectfs/controller/metadata_cache.go:153-184 | the list after a Put is the trim of the list with the item in front, and the callback saw exactly what was trimmed |
| Lru.LruCache.PutAll | pkg/objectfs/controller/metadata_cache.go:153-196 | any Puts leave a start of their recency order within both limits; with no negative size it is the longest such start if and only if everything put is cached or the last thing evicted would not fit beside what is |
| Lru.LruCache.SetLimits | pkg/objectfs/controller/metadata_cache.go:250-257 | new limits keep the longest prefix within them |
| Lru.LruCache.EvictExcess | pkg/objectfs/controller/metadata_cache.go:186-196 | the eviction loop trims to the longest prefix and calls back from the tail |
| Lru.LruCache.EvictOldest | pkg/objectfs/controller/metadata_cache.go:186-196 | takes the tail node out of list, map and count |
| Lru.LruCache.EvictAll | pkg/objectfs/controller/metadata_cache.go:315-328 | empties the cache, calling back for each item |
| Lru.LruCache.Get | pkg/objectfs/controller/metadata_cache.go:124-137 | a hit moves its item to the front and counts |
| Lru.LruCache.Remove | pkg/objectfs/controller/metadata_cache.go:199-208 | takes one key out, without a callback |
| Lru.LruCache.Clear | pkg/objectfs/controller/metadata_cache.go:211-219 | empties the cache |
| Lru.LruCache.PushFront | pkg/objectfs/controller/metadata_cache.go:88-98 | prev and next spell the list with the node in front |
| Lru.LruCache.RemoveElement | pkg/objectfs/controller/metadata_cache.go:100-113 | prev and next spell the list without the node |
| Lru.LruCache.MoveToFront | pkg/objectfs/controller/metadata_cache.go:115-121 | prev and next spell the list with the node moved |
| Lru.LruCache.Discard | pkg/objectfs/controller/metadata_cache.go:186-208 | list, map and byte count lose one node together |
| Lru.LruCache.Refront | pkg/objectfs/controller/metadata_cache.go:115-137 | list and items move together |
| Lru.LruCache.Update | pkg/objectfs/controller/metadata_cache.go:162-172 | new contents for a node, moved to the front |
| Lru.LruCache.Insert | pkg/objectfs/controller/metadata_cache.go:174-184 | a new node in front, in list, map and byte count |
| Lru.LruCache.constructor | pkg/objectfs/controller/metadata_cache.go:63-86 | an empty cache; no positive limit means a capacity of 1024 |
| LruModel.TrimIsLongest | pkg/objectfs/controller/metadata_cache.go:186-196 | trimming keeps the longest prefix within both limits; with no negative size the prefixes within them are exactly its own |
| LruModel.PutAfterTrim | pkg/objectfs/controller/metadata_cache.go:153-196 | what was evicted never matters again |
| LruModel.CacheIsTrimmedRecency | pkg/objectfs/controller/metadata_cache.go:153-196 | when items do not shrink, the cache after any Puts is the trimmed recency order |
| LruModel.CacheIsLongestIff | pkg/objectfs/controller/metadata_cache.go:153-196 | after any Puts: a start of the recency order within the limits, and exactly when it is the longest one |
| LruModel.ShrinkLeavesRoom | pkg/objectfs/controller/metadata_cache.go:153-184 | under ten bytes, six evicts six and shrinks to one: the evicted item would fit again and is gone |
| LruModel.RecencyIs | pkg/objectfs/controller/metadata_cache.go:153-184 | the recency order has every key that was put, once, the last put first |
| LruModel.FrontedIs | pkg/objectfs/controller/metadata_cache.go:153-184 | a key is in the list at most once, and a Put makes its own the most recent |
| WalCodec.DecodeEncode | pkg/wal/record.go:85-163 | a record under 4 GiB decodes from its encoding, whatever follows, if and only if it carries its own checksum |
| WalCodec.EncodeDecode | pkg/wal/record.go:110-285 | what decodes is byte for byte the encoding of the record it decodes to |
| WalCodec.DecodeCut | pkg/wal/record.go:110-285 | a record cut anywhere inside is reported as truncated, or as the end when nothing is left |
| WalCodec.HeaderFields | pkg/wal/record.go:85-197 | the header fields read back |
| WalCodec.ParsedHeader | pkg/wal/record.go:110-285 | a header that parses is the header of what it parses to |
| WalCodec.ChecksumIgnoresCrc | pkg/wal/record.go:69-81 | the checksum does not cover itself |
| WalScan.Scan | pkg/wal/segment.go:80-138 | the scan returns the records of the body that decode, cuts the file after them, and reports their range |
| WalScan.ScanBody | pkg/wal/segment.go:100-125 | the decode loop |
| WalScan.ScanOfCut | pkg/wal/segment.go:80-214 | for any records and any cut at or after the header, the scan returns exactly the records wholly before the cut and leaves the file ending with them |
| WalScan.RetainedIsEncoding | pkg/wal/segment.go:80-214 | for arbitrary bytes after the header, what is kept is the encoding of what is returned |
| WalScan.ScanTwice | pkg/wal/segment.go:80-214 | a second scan changes nothing if and only if the header does not declare a length that the first scan cut into |
| WalScan.ShortHeaderScans | pkg/wal/segment.go:80-138 | a file whose header declares 12 bytes: the first scan cuts it to them, and a second finds no header |
| WalScan.WrongStampEnds | pkg/wal/segment.go:100-125 | a record with another checksum than its own ends the reading: neither it nor what follows is found |
| WalScan.GoodOfCut | pkg/wal/segment.go:100-125 | of records cut at a point exactly those wholly before it are read |
| WalScan.GoodBytes | pkg/wal/segment.go:100-125 | the records read are a prefix of the body |
| WalScan.GoodOfAll | pkg/wal/segment.go:100-125 | uncut records are all read back |
| WalScan.HeaderReads | pkg/wal/header.go:67-176 | a written header reads back its length |
| WalNames.NamesSortAsNumbers | pkg/wal/segment.go:217-279 | below 10^19, file names sort as the numbers in them |
| WalNames.NamesBeyondNineteenDigits | pkg/wal/segment.go:277-279 | at 10^19 they do not |
| WalNames.NamesSortIff | pkg/wal/segment.go:277-279 | below 10^20, two names sort as their numbers if and only if not one has 19 digits and the other 20 whose first 19 spell less |
| WalNames.FirstByName | pkg/wal/segment.go:244-247 | the first file in name order |
| WalStore.SegmentStore.constructor | pkg/wal/segment.go:217-275 | an empty store is consistent |
| WalStore.SegmentStore.Append | pkg/wal/segment.go:283-308 | the store holds the old records and the new one; a new file never takes a live name; a log record with another checksum than its own is stored as it is, and neither it nor anything later in its file is ever read back |
| WalStore.SegmentStore.WriteRecord | pkg/wal/segment.go:283-308 | the bytes go to the active file, or to a new one when none is open or it is full |
| WalStore.SegmentStore.WriteActive | pkg/wal/segment.go:296-305 | the file and its note grow by the record |
| WalStore.FirstWritten | pkg/wal/segment.go:283-308 | the first record of a new file |
| WalStore.NextWritten | pkg/wal/segment.go:283-308 | a record after others |
| WalStore.SegmentStore.Rotate | pkg/wal/segment.go:323-356 | starts a file with a header and notes it as active |
| WalStore.SegmentStore.AppendBatch | pkg/wal/segment.go:585-622 | appends the records of a batch in order |
| WalStore.SegmentStore.Search | pkg/wal/segment.go:673-680 | the binary search finds the first segment that starts after the position |
| WalStore.SegmentStore.ReadFrom | pkg/wal/segment.go:662-718 | returns exactly the retained records at or above the position, in order |
| WalStore.SegmentStore.TruncateAfter | pkg/wal/segment.go:359-463 | leaves exactly the records at or below the bound; the mark of the active file goes only with an open file |
| WalStore.SegmentStore.CutAfter | pkg/wal/segment.go:391-458 | scans one file for the first record above the bound and cuts there |
| WalStore.SegmentStore.DeleteSegmentsThrough | pkg/wal/segment.go:724-754 | retires the oldest files only, none with an unflushed record, no more than needed |
| WalStore.SegmentStore.RetireOldest | pkg/wal/segment.go:737-751 | the retirement loop |
| WalStore.SegmentStore.Install | pkg/wal/segment.go:745-753 | the store goes on with the remaining files |
| WalStore.SegmentStore.DeleteSegmentsBeforeAck | pkg/wal/segment.go:466-489 | retires exactly the leading files whose records are all acknowledged, but for the active one |
| WalStore.SegmentStore.Reopen | pkg/wal/segment.go:217-275 | for every directory the store left and every cut of its last file: the files are opened in name order, up to the first that cannot be read; when names sort as their numbers and the header was not cut, every record is there but those that reach past the cut |
| WalStore.SegmentStore.TakeFile | pkg/wal/segment.go:256-269 | one file of the reopening loop |
| WalOpen.ReopensInOrderIff | pkg/wal/segment.go:217-275 | reopening an uncut directory returns the records in order if and only if its names sort as their numbers |
| WalOpen.OpensInOrder | pkg/wal/segment.go:244-275 | opening such a directory after a cut returns every record but those that reach past it |
| WalOpen.NamesInOrderIff | pkg/wal/segment.go:277-279 | for 64-bit numbers its names do unless a file of 19 digits meets one of 20 whose first 19 spell less |
| WalOpen.SmallNamesInOrder | pkg/wal/segment.go:277-279 | below 10^19 they always do |
| WalOpen.Samples | pkg/wal/segment.go:217-279 | records with the keys 2 * 10^18 and 10^19 exist, for any checksum |
| WalOpen.ReopensOutOfOrder | pkg/wal/segment.go:244-275 | two files, 2 * 10^18 and 10^19: the reopened store has their records the wrong way round |
| WalStore.SegmentStore.Close | pkg/wal/segment.go:492-517 | closing keeps every record |
| WalStore.SegmentStore.SumSizes | pkg/wal/segment.go:728-731 | the size of the files |
| WalStore.ReadSegment | pkg/wal/segment.go:683-712 | the records of one file at or above the position |
| WalStore.ReadImage | pkg/wal/segment.go:683-712 | a file the store wrote is read back whole |
| WalStoreModel.FreshName | pkg/wal/segment.go:323-356 | a larger key is no live file name |
| WalStoreModel.LargestKey | pkg/wal/segment.go:283-308 | all keys are below a bound exactly when the last ones of the segments are |
| Pack.ReadBack | pkg/objectfs/blob/blob.go:612-664 | whoever reads a sealed pack finds exactly the blobs appended, each with its payload |
| Pack.IncrementalPack.constructor | pkg/objectfs/blob/incremental_pack.go:49-60 | a new pack is consistent and empty |
| Pack.IncrementalPack.Append | pkg/objectfs/blob/incremental_pack.go:96-129 | a blob is appended once per hash; closed, sealed and full packs refuse; the entry finds the payload if and only if it begins below 4 GiB and is no longer than that, and while every one does ranges lie past the table, apart, and hold the bytes |
| Pack.IncrementalPack.Lookup | pkg/objectfs/blob/incremental_pack.go:131-145 | finds the entry of a hash if and only if it was appended |
| Pack.IncrementalPack.Seal | pkg/objectfs/blob/incremental_pack.go:176-210 | sorts the entries, a permutation of them, writes the table and marks the file |
| Pack.BuildTable | pkg/objectfs/blob/incremental_pack.go:165-210 | the table spells the entries slot by slot |
| Pack.SortByHash | pkg/objectfs/blob/incremental_pack.go:192-194 | the sort is a permutation in hash order |
| Pack.InsertByHash | pkg/objectfs/blob/incremental_pack.go:192-194 | one step of the sort |
| Pack.DecodePackTable | pkg/objectfs/blob/blob.go:795-892 | gives the entry of every used slot, or the error the table has; it indexes past what it read if and only if the slots in use do not fit the size cut to 32 bits |
| PackModel.OnlyLargeWraps | pkg/objectfs/blob/blob.go:855-870 | that takes a header that declares a table of 4 GiB |
| PackModel.ShortFileWraps | pkg/objectfs/blob/blob.go:855-875 | a file of 64 bytes with such a header is read that far |
| Pack.Find | pkg/objectfs/blob/blob.go:612-620 | binary search finds a hash if and only if it is there |
| PackModel.SealedReads | pkg/objectfs/blob/blob.go:795-892 | the table of a sealed file reads back its header and its entries |
| PackModel.SlotReads | pkg/objectfs/blob/incremental_pack.go:165-173 | a slot reads back its entry |
| PackModel.CompareIsOrder | pkg/objectfs/blob/blob.go:612-620 | comparing hashes of one length orders them as numbers |
| Lease.Exclusive | pkg/objectfs/controller/service.go:1655-1796 | over any run with a forward clock, once a (node, mount) is granted a volume no other is granted it within the lease unless the holding node gave it back |
| Lease.StaysProtected | pkg/objectfs/controller/service.go:1655-1796 | no call but a release by the holding node ends the protection of a grant |
| Lease.GrantProtects | pkg/objectfs/controller/service.go:1655-1772 | a grant protects the volume for the whole lease |
| Lease.Server.constructor | pkg/objectfs/controller/service.go:1655-1660 | no holds at the start |
| Lease.Server.AcquireExclusive | pkg/objectfs/controller/service.go:1655-1703 | grants exactly when free, expired or already held by the caller |
| Lease.Server.RenewExclusive | pkg/objectfs/controller/service.go:1707-1772 | renews exactly when no live hold of another is in the way |
| Lease.Server.ReleaseExclusive | pkg/objectfs/controller/service.go:1775-1796 | while a hold lasts only the node that has it frees the volume; an expired one goes with anybody's release |
| Lease.Server.GetExclusiveHold | pkg/objectfs/controller/service.go:1799-1816 | refuses an empty volume id; without a hold to report anybody can acquire the volume; before the reported hold expires only its owner can; at that moment it is still reported and anybody can again |
| Lease.HeldIsLastGrant | pkg/objectfs/controller/service.go:1655-1796 | over any run, a hold is the last grant of its volume: owner and expiry are its, and nothing after it granted or dropped the volume |
| Lease.Server.Run | pkg/objectfs/controller/service.go:1655-1796 | any calls make a run |
| Stats.FoldIsRecount | pkg/objectfs/controller/aggregator.go:61-95 | folding the changes of any log without negative sizes gives the counts of the final rows if and only if its changes of kind set the bytes off by nothing in all |
| Stats.FoldDrifts | pkg/objectfs/controller/aggregator.go:61-95 | in any case the kinds and chunks are right, and the bytes are off by exactly that sum |
| Stats.SoundLogHolds | pkg/objectfs/controller/aggregator.go:61-95 | a log of sound changes sets nothing off |
| Stats.FileBecomesDirectory | pkg/objectfs/controller/aggregator.go:61-86 | a file of five bytes whose row becomes that of a directory: five bytes stay counted for no file |
| Stats.KindsStayRight | pkg/objectfs/controller/aggregator.go:33-58 | the inode kinds are always counted right |
| Stats.BytesStayRightIff | pkg/objectfs/controller/aggregator.go:61-86 | a change counts logical bytes right if and only if it keeps the kind, or no kind is a file, or the size before was zero |
| Stats.ChangeKeeps | pkg/objectfs/controller/aggregator.go:61-95 | a sound change keeps all counters right |
| Stats.MaxInoCovers | pkg/objectfs/controller/aggregator.go:61-86 | the maximum never falls below an inode ever created |
| Stats.Recount | pkg/objectfs/controller/volume.go:6087-6106 | counts every row of an index |
| Stats.Volume.constructor | pkg/objectfs/controller/volume.go:5603-5627 | an empty volume counts nothing and allocates from the stride |
| Stats.Volume.UpdateForInode | pkg/objectfs/controller/aggregator.go:61-86 | the counters after a row change |
| Stats.Volume.AdjustInodeCount | pkg/objectfs/controller/aggregator.go:47-58 | one kind counter moves |
| Stats.Volume.Apply | pkg/objectfs/controller/aggregator.go:61-95 | a change keeps counters, table and allocator consistent |
| Stats.Volume.AllocInode | pkg/objectfs/controller/volume.go:1755-1773 | never a number handed out in this life nor one ever created |
| Stats.Volume.Restart | pkg/objectfs/controller/volume.go:5603-5627 | after a restart the allocator is past everything created and replayed |
| Stats.Volume.Restore | pkg/objectfs/controller/volume.go:5706-5764 | a restore brings the counters of the snapshot back but never lowers the maximum |
| ErofsReader.Compile | pkg/erofs/erofs.go:1552-2015 | for every tree: it compiles if and only if it is acceptable; what is written is laid out without overlap inside the declared blocks; and when values and numbers fit their fields, the superblock reads back and from the root the reader shows the tree if and only if no directory mode has another kind and no attribute is empty in stored name and value, siblings of the same name being the first of them |
| ErofsReader.ImageShowsIff | pkg/erofs/erofs.go:300-454 | that last part: every directory lists its children under inodes that show their modes, owners, link counts, numbers, sizes, attributes, bytes and subtrees, and extended ones their modification times |
| ErofsReader.SameLook | pkg/erofs/erofs.go:300-454 | an inode that shows one tree shows another if and only if no field a reader sees tells them apart |
| ErofsReader.TwinsShowFirst | pkg/erofs/erofs.go:1810-1819 | a directory with two files of the same name and different owners is accepted, and no image made from it shows it |
| ErofsReader.NoTwinsResolved | pkg/erofs/erofs.go:1810-1819 | without siblings of the same name the tree shown is the tree |
| ErofsReader.NodeShowsIff | pkg/erofs/erofs.go:300-454 | the same from any inode of the image |
| ErofsReader.DirectoryShowsIff | pkg/erofs/erofs.go:755-786 | the same for what a directory lists |
| ErofsReader.NodeReads | pkg/erofs/erofs.go:300-353 | every field of an inode reads back at its number |
| ErofsReader.DataReads | pkg/erofs/erofs.go:406-454 | the data of an inode reads back |
| ErofsReader.AttrsReadIff | pkg/erofs/erofs.go:884-979 | the attributes of an inode read back as the same map if and only if none is empty in stored name and value |
| ErofsReader.ListingReads | pkg/erofs/erofs.go:755-786 | a directory of any number of blocks lists itself, its parent and its children |
| ErofsReader.DirectoryListsIff | pkg/erofs/erofs.go:755-786 | a directory can be listed if and only if its mode carries no other file kind |
| ErofsReader.DeviceDirectory | pkg/erofs/erofs.go:1604-1608 | an empty directory with a block device mode is accepted, and no image made from it lists it |
| ErofsWriter.WriteImage | pkg/erofs/erofs.go:1552-2015 | accepts a tree if and only if its numbers differ, its slots do not overlap, its attributes can be encoded and divided, its names can be packed and its sizes are right; every refusal names the fault, and none is for a missing child; every part is written where the layout says |
| ErofsWriter.OverlappingIff | pkg/erofs/erofs.go:1787-1794 | the slots the writer plans overlap if and only if the least the attributes need do |
| ErofsWriter.AutomaticNumbersClear | pkg/erofs/erofs.go:1558-1600 | a tree that asks for no inode numbers is never refused for the ones it gets |
| ErofsWriter.SplitEach | pkg/erofs/erofs.go:1610-1687 | divides the attributes of every inode, or one cannot be divided |
| ErofsWriter.PlanAreas | pkg/erofs/erofs.go:1732-1785 | each inode area and the shared table hold its attributes between them |
| ErofsWriter.SlotsInStride | pkg/erofs/erofs.go:1750-1785 | an inode never takes more than eight slots, so the stride check never fires |
| ErofsWriter.OverlapIsNear | pkg/erofs/erofs.go:1787-1794 | only numbers closer than the stride can overlap |
| ErofsWriter.PlanDirectory | pkg/erofs/erofs.go:1798-1848 | the data of a directory lists as its entries; refused only for a bad name or a missing child |
| ErofsWriter.PlanData | pkg/erofs/erofs.go:1798-1860 | the data of every inode |
| ErofsWriter.FindMismatch | pkg/erofs/erofs.go:1982-2001 | finds a file that streams another number of bytes than its size |
| ErofsWriter.LayOut | pkg/erofs/erofs.go:1862-1909 | hands out blocks so that all parts are apart and inside the block count |
| ErofsWriter.WriteParts | pkg/erofs/erofs.go:1911-2013 | writes every part, none over another |
| ErofsWriter.NoChildMissing | pkg/erofs/erofs.go:1810-1819 | every child of a directory is found in the list |
| ErofsImage.PartsApart | pkg/erofs/erofs.go:1862-2013 | superblock, inode slots, shared table, directory blocks and file blocks are pairwise disjoint and inside the block count |
| ErofsImage.SlotsApart | pkg/erofs/erofs.go:1787-1794 | slots that passed the overlap check are apart in bytes |
| ErofsImage.DataApart | pkg/erofs/erofs.go:1882-1894 | the block runs of directories and of files are apart |
| ErofsLayout.SortByNid | pkg/erofs/erofs.go:1717-1721 | a permutation in inode order |
| ErofsLayout.InsertByNid | pkg/erofs/erofs.go:1717-1721 | one step of the sort |
| ErofsLayout.HasDuplicate | pkg/erofs/erofs.go:1722-1730 | comparing neighbours finds a duplicate number if and only if there is one |
| ErofsLayout.HasOverlap | pkg/erofs/erofs.go:1787-1794 | comparing neighbours finds overlapping slots if and only if there are any |
| ErofsLayout.MaxSlot | pkg/erofs/erofs.go:1862-1867 | the least bound on the slots in use |
| ErofsLayout.AssignBlocks | pkg/erofs/erofs.go:1882-1894 | gives every directory, or every file, blocks of its own in a row |
| ErofsLayout.Disk.constructor | pkg/erofs/erofs.go:1552-1554 | nothing written |
| ErofsLayout.Disk.WriteAt | pkg/erofs/erofs.go:1474-1484 | a write next to earlier ones leaves them readable |
| ErofsLayout.Disk.WriteAll | pkg/erofs/erofs.go:1930-2013 | several writes in turn |
| ErofsTree.Collector.constructor | pkg/erofs/erofs.go:1552-1556 | nothing collected |
| ErofsTree.Collector.Visit | pkg/erofs/erofs.go:1558-1708 | collects a subtree, parents first, with explicit or automatic numbers |
| ErofsTree.Collector.VisitAll | pkg/erofs/erofs.go:1695-1707 | collects the children of a directory |
| ErofsTree.VisitedParents | pkg/erofs/erofs.go:1558-1708 | every inode but the root is listed with the number of the directory that holds it, and every child of every directory is listed |
| ErofsTree.FoundIn | pkg/erofs/erofs.go:1810-1819 | everywhere in a tree with distinct numbers, looking a child up by number and name finds the first child of that name |
| ErofsTree.FirstFound | pkg/erofs/erofs.go:1810-1819 | the same among the children of one directory |
| ErofsTree.DirectoryEntries | pkg/erofs/erofs.go:1799-1842 | the entries are itself, its parent and the inode found for each child, or none when one is missing |
| ErofsTree.FindChild | pkg/erofs/erofs.go:1810-1816 | the search loop finds the first match |
| ErofsTree.DirectoryKindIff | pkg/erofs/erofs.go:1604-1608 | or-ing in the directory bit gives a directory mode if and only if the mode had no other kind |
| ErofsInode.InodeReads | pkg/erofs/erofs.go:300-353 | every field of an inode of either version reads back when its values fit |
| ErofsInode.CompactReads | pkg/erofs/erofs.go:1487-1515 | every field of a compact inode reads back |
| ErofsInode.ExtendedReads | pkg/erofs/erofs.go:1518-1548 | every field of an extended inode reads back, modification time included |
| ErofsInode.SuperReads | pkg/erofs/erofs.go:206-276 | a superblock reads back, checksum and wide root number included |
| ErofsInode.FieldReads | pkg/erofs/erofs.go:206-353 | a field of a record reads back wherever the record lies |
| ErofsDir.ParseDirectoryBlock | pkg/erofs/erofs.go:466-543 | the parse loop gives the entries of the block or its error, for any bytes, and never indexes past the block |
| ErofsDir.NeverOutOfRange | pkg/erofs/erofs.go:466-543 | no bytes make the parser index past the block |
| ErofsDir.BuildDirectoryBlock | pkg/erofs/erofs.go:982-1021 | lays entries and names out; fails if and only if they do not fit or a name is bad |
| ErofsDir.BlockReadsBack | pkg/erofs/erofs.go:466-543 | a block with good names parses to the entries it was built from |
| ErofsDir.ListDirectory | pkg/erofs/erofs.go:755-786 | the block loop lists all blocks |
| ErofsDir.BuildDirectoryData | pkg/erofs/erofs.go:1024-1076 | packs entries into blocks; fails if and only if a name is bad or an entry is larger than a block; what it builds lists as the same entries |
| Fsck.Check | pkg/erofs/erofs.go:546-652 | when it passes, nothing reachable lies on a cycle, everything reachable was readable and within the depth, no inode was expanded twice; when it fails, the fault it reports is there |
| Fsck.Traversal.Traverse | pkg/erofs/erofs.go:562-645 | one inode of the walk |
| Fsck.Traversal.TraverseAll | pkg/erofs/erofs.go:610-632 | the entries of a directory in turn |
| Fsck.Traversal.Enter | pkg/erofs/erofs.go:572-582 | marks an inode as visited and active |
| Fsck.Traversal.constructor | pkg/erofs/erofs.go:556-560 | nothing visited |
| Fsck.NoCycle | pkg/erofs/erofs.go:562-645 | an order in which children finish first rules out cycles |
| ErofsCheck.CheckImage | pkg/erofs/erofs.go:546-652 | any image that passes, flat in blocks or with inline tails, has nothing unreadable, too deep or on a cycle in reach of its root, and one that does not has a fault; an image compiled from a legible tree without siblings of the same name passes if and only if the tree is at most a hundred levels deep |
| ErofsCheck.NoFault | pkg/erofs/erofs.go:546-652 | a compiled image of such a tree has none of the faults |
| ErofsCheck.DeepUnreached | pkg/erofs/erofs.go:563-566 | a deeper tree has an inode that no walk within the limit reaches |
| ErofsCheck.SameLength | pkg/erofs/erofs.go:562-645 | walks from the root to the same inode are equally long |
| XattrSpill.Spill | pkg/erofs/erofs.go:1637-1685 | largest-first spilling moves no more entries than any choice that fits, and of as many none leaves a shorter area; it gives up only when none fits |
| XattrSpill.BestTakes | pkg/erofs/erofs.go:1637-1685 | any two such choices leave areas of the same length |
| XattrSpill.BestSpillsLong | pkg/erofs/erofs.go:1637-1685 | only entries longer than an id are moved |
| XattrSpill.LargestHoldMost | pkg/erofs/erofs.go:1642-1671 | no set of the same size frees more bytes than the largest entries |
| XattrSpill.Largest | pkg/erofs/erofs.go:1648-1657 | picks the largest entry left, the first of equals |
| XattrSpill.Total | pkg/erofs/erofs.go:1620-1635 | the bytes of all entries |
| XattrPlan.SplitAttrs | pkg/erofs/erofs.go:1610-1687 | divides the attributes so that the inode fits its slots, moving as few as any division that fits; fails exactly when one cannot be encoded or no division fits |
| XattrPlan.EncodedSizes | pkg/erofs/erofs.go:1620-1635 | the encoded sizes, or the first attribute that cannot be encoded |
| XattrPlan.Deal | pkg/erofs/erofs.go:1678-1685 | each attribute goes to exactly one side |
| XattrPlan.ShareAll | pkg/erofs/erofs.go:1732-1748 | one deduplicated table and ids into it for all inodes |
| XattrPlan.AreaReads | pkg/erofs/erofs.go:884-979 | the attributes read back from the area and the table |
| XattrPlan.AreaReadsIff | pkg/erofs/erofs.go:884-979 | however the writer divided them, they read back if and only if none is empty in stored name and value |
| XattrPlan.AreaLength | pkg/erofs/erofs.go:1750-1785 | the size of an area and when it is empty |
| Xattr.EncodeEntry | pkg/erofs/erofs.go:790-833 | encodes an attribute if and only if name and value fit their fields, refuses with the error of the one that does not, and what it encodes reads back as the attribute |
| Xattr.NameReadsBack | pkg/erofs/erofs.go:835-850 | prefix index and suffix spell the key they came from |
| Xattr.EntryReads | pkg/erofs/erofs.go:790-833 | an encoded entry reads back |
| Xattr.InlineReads | pkg/erofs/erofs.go:947-976 | inline entries read back if and only if none is empty in both suffix and value |
| Xattr.InvisibleIsLost | pkg/erofs/erofs.go:947-976 | the key user. with an empty value is encoded, and not found again |
| Xattr.ShareEntries | pkg/erofs/erofs.go:1732-1748 | every entry is in the table under its id, equal entries once |
| Xattr.SharedReads | pkg/erofs/erofs.go:912-945 | a shared entry reads back by its id |
| Xattr.ReadXattrs | pkg/erofs/erofs.go:884-979 | the reading loops find the shared and the inline attributes |
| Xattr.ReadShared | pkg/erofs/erofs.go:912-945 | the loop over shared ids |
| Xattr.ReadInline | pkg/erofs/erofs.go:947-976 | the loop over inline entries |
| Xattr.AreaReadsBack | pkg/erofs/erofs.go:884-979 | an area reads back as shared entries followed by inline ones |
| Xattr.AreaFinds | pkg/erofs/erofs.go:884-979 | whatever entries there are, the shared ones read back, and of the inline ones none but visible ones |
| Xattr.AttributesReadBack | pkg/erofs/erofs.go:884-979 | however attributes are divided, the reader returns the same map |
| Xattr.MapFormIff | pkg/erofs/erofs.go:683-719 | the named fields and the rest survive the map form if and only if the rest holds no reserved key |

## Left out

- VolumeProofs.ReadsAreFlatIff: its runs have no empty writes, because one that does not land leaves a state the other operations do not expect; single empty writes are covered by WriteKeepsValidIff and WriteIsFlatIff.
- Staging.Staging.Write: nothing is said about waiters for a truncate that restages chunks, because the source gives it no write number.
- SyncProofs.ReplyTrueIff: rows are written by syncs alone; the row transactions of truncates, holes and deletions are not events, because a chunk they touch is dropped from what a reply promises. The last failure of an inode, which a blocking fsync reports instead, is in Staging.Staging.FinishSync only.
- NodeCacheBytes.EvictedIff: clean entries read at the same time are outside it, because the source takes them in no fixed order; LeavesOnlyFull covers them.
- Namespace.Namespace.Run: the runs do not restart and skip the two operations that break file counts; NamespaceRuns.RunSound says what holds over runs with both. That the walk of a rename may not end once directories form a cycle is outside it.
- Recovery.Rebuild.Take: a restore brings back the rows of its snapshot; that the source then raises the maximum inode number in the statistics row is modelled in Stats.Volume.Restore.
- WalStore.SegmentStore.AppendBatch: every record carries its own checksum, because one that does not ends what can be said of the file; Append covers it.
- WalStore.SegmentStore.Reopen: what is left when a file cut inside its header stops the opening is the source's error and no claim about the records.
- Pack.IncrementalPack.constructor: the table is under 4 GiB, because its size is kept in 32 bits when it is read.
- ErofsReader.Compile: read-back needs block numbers below 2^32, a shared table below 16 GiB, directory data below 4 GiB in a compact inode; of a tree with siblings of the same name that is not legible either it says nothing; inode numbers are unbounded, so wrap-around past 2^64 is outside it.
- ErofsWriter.WriteImage: what is on disk after a refusal is not described; a wrong file size is found before the files are written, not while.
- Building a node tree from paths or from a directory on disk.
- Redirect URLs, content digests, timestamps and extended attributes of volume inodes: easy members.
- Restoring, listing and deleting snapshots as operations; recovery covers what a restore record does.
- Timers, coalescing windows, epochs, backpressure and broadcast of changes.
- File-system faults, fsync and backup copies in the log stores.
- Pack tables of version 1, compression and loose blobs.
- Lease time-to-live is fixed and the controller lives once.
- The overlay checkpoint of the node daemon.
- gRPC, CSI and FUSE plumbing, TLS, certificates, command lines, logging and tracing.
- The SQLite index, the stream client and its buffers: the index is a map and the stream a sequence.
