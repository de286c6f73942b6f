# SFTP sync daemon: the reconciliation core in Dafny

The daemon mirrors a directory on an SFTP server into a local directory.
Every `max(1, poll.seconds)` seconds (30 by default) `SftpSyncService.syncRemoteToLocal` runs one tick. The
tick lists the remote tree, walks the local tree, and then handles each
remote file in one of three ways:

- it **skips** the file when a local file of the same size sits under the same key;
- it **moves** a local file onto the remote file's target (the rename heuristic) when a local file of the same size and nearly the same time stamp exists;
- otherwise it **downloads** the file.

After that, the tick deletes each local file that the server no longer
lists, but only when `SyncState` shows that the daemon itself downloaded
or uploaded that file. Separately, `uploadFile` and `deleteRemote` map a
local path to its remote path:

- `uploadFile` creates the missing remote directories (`ensureRemoteDirExists`), puts the file, and records the upload;
- `deleteRemote` removes the remote file or directory and forgets the upload record.

The model is functional. The remote tree is a datatype. Inventories are
maps from relative key to metadata. `SyncState` is two maps and a window.
Every transport and file-system effect is an oracle parameter, and so
are the clock and Java's `HashMap` iteration order. Java `long`
arithmetic (wrapping subtraction, `Math.abs`) is written out in
`java_long.dfy`.

| file | module | models |
|---|---|---|
| `java_long.dfy` | `JavaLong` | 64-bit `long` subtraction and `Math.abs` |
| `wrappers.dfy` | `Wrappers` | `Option` (Java's null) |
| `strings.dfy` | `Strings` | the '/'-separated segments of a path |
| `inventory.dfy` | `Inventory` | `RemoteMeta`, `LocalMeta`, the abstract `java.nio.file` path operations |
| `state.dfy` | `State` | `SyncState` |
| `remote_paths.dfy` | `RemotePaths` | the remote-path joins, the parent directory, listing keys |
| `remote_dirs.dfy` | `RemoteDirs` | `ensureRemoteDirExists` |
| `remote_listing.dfy` | `RemoteListing` | `collectRemoteFiles` over a remote tree |
| `planner.dfy` | `Planner` | `syncRemoteToLocal` |
| `sync_properties.dfy` | `SyncProperties` | what one tick guarantees |
| `rename_heuristic.dfy` | `RenameHeuristic` | the rename window; the finding about the heuristic and its correction |
| `transfers.dfy` | `Transfers` | `uploadFile`, `deleteRemote` |

## Model

| member | source | states |
|---|---|---|
| JavaLong.Wrap | src/main/java/org/juanrdzbaeza/daemon/SftpSyncService.java:115 | two's-complement truncation to 64 bits: congruent to the exact value modulo 2^64, and the value itself when it fits |
| JavaLong.Sub | src/main/java/org/juanrdzbaeza/daemon/SftpSyncService.java:115 | Java `long` subtraction: the exact difference whenever that fits in 64 bits, and otherwise the difference wrapped modulo 2^64 |
| JavaLong.SubOverflow | src/main/java/org/juanrdzbaeza/daemon/SftpSyncService.java:115 | a difference above the greatest long comes out 2^64 lower (negative), one below the least long 2^64 higher (non-negative) |
| JavaLong.Abs | src/main/java/org/juanrdzbaeza/daemon/SftpSyncService.java:115 | `Math.abs(long)`: the magnitude of every value except `Long.MIN_VALUE`, which it returns unchanged |
| Strings.Segments | src/main/java/org/juanrdzbaeza/daemon/SftpSyncService.java:276-278 | the non-empty pieces of a path between '/' characters; none contains '/' |
| RemotePaths.JoinUnder | src/main/java/org/juanrdzbaeza/daemon/SftpSyncService.java:180 | `endsWith("/") ? dir + child : dir + "/" + child`: the result starts with the directory, ends with the child, and what precedes the child ends in '/', at most one character being inserted |
| RemotePaths.RemotePathFor | src/main/java/org/juanrdzbaeza/daemon/SftpSyncService.java:209-211 | an empty remote dir gives the key unchanged; a dir ending in '/' is followed directly by the key; any other dir is followed by exactly one '/' and then the key |
| RemotePaths.RemotePathSegments | src/main/java/org/juanrdzbaeza/daemon/SftpSyncService.java:209-211 | the segments of the remote path are the remote dir's segments followed by the key's |
| RemotePaths.ParentRemote | src/main/java/org/juanrdzbaeza/daemon/SftpSyncService.java:213 | the prefix before the last '/' (no '/' follows it), or "" when the path has no '/' |
| RemotePaths.ParentSegments | src/main/java/org/juanrdzbaeza/daemon/SftpSyncService.java:213 | for a path not ending in '/', the parent's segments plus the base name are the path's segments |
| RemotePaths.ChildKey | src/main/java/org/juanrdzbaeza/daemon/SftpSyncService.java:179 | the key of a child: the name alone at top level, otherwise parent key, '/', name |
| RemotePaths.KeyOfValidNames | src/main/java/org/juanrdzbaeza/daemon/SftpSyncService.java:179 | a key built from server names splits back into those names, and never starts or ends with '/' |
| RemoteDirs.CollapseSlashes | src/main/java/org/juanrdzbaeza/daemon/SftpSyncService.java:272 | `replaceAll("/+", "/")`: no two adjacent '/', empty only for "", keeps a leading '/' |
| RemoteDirs.CollapseKeepsSegments | src/main/java/org/juanrdzbaeza/daemon/SftpSyncService.java:272 | collapsing runs of '/' does not change the segments |
| RemoteDirs.Normalise | src/main/java/org/juanrdzbaeza/daemon/SftpSyncService.java:272-273 | the walked path starts with '/', has no doubled '/', and has the input's segments |
| RemoteDirs.DropTrailingEmpty | src/main/java/org/juanrdzbaeza/daemon/SftpSyncService.java:276 | Java's `split` drops trailing empty strings; the result is a prefix with the same non-empty parts |
| RemoteDirs.JavaSplit | src/main/java/org/juanrdzbaeza/daemon/SftpSyncService.java:276 | the non-empty parts of `split("/")` are exactly the path's segments |
| RemoteDirs.EnterOrCreate | src/main/java/org/juanrdzbaeza/daemon/SftpSyncService.java:279-284 | `cd(part)`, or `mkdir` then `cd` again: succeeds iff `cd` is allowed and the directory exists or may be created; on failure either `cd` or `mkdir` was refused, and a directory made before a refused `cd` stays; only that directory can be new, and only when `mkdir` allows it |
| RemoteDirs.WalkParts | src/main/java/org/juanrdzbaeza/daemon/SftpSyncService.java:276-285 | visits exactly the non-empty parts in order; succeeds iff every directory on the way can be entered, or created and then entered; on failure it stops at the first that cannot, having created nothing beyond it; only directories `mkdir` allowed are created; every visited directory exists |
| RemoteDirs.EnsureRemoteDirExists | src/main/java/org/juanrdzbaeza/daemon/SftpSyncService.java:270-286 | null or "" is a no-op; a refused `cd("/")` throws before anything is created; otherwise the segments of the directory are visited in order from the root; it succeeds iff `cd("/")` and every step are allowed, and a failed walk stops at the first refused `cd` or `mkdir` (the `SftpException` of :282-283); only directories on that path that `mkdir` allowed are created |
| RemoteListing.ListedPath | src/main/java/org/juanrdzbaeza/daemon/SftpSyncService.java:170-173 | the directory listed for a key prefix: the base for the top level, otherwise the prefix joined under the base (stated through ChildRemotePath and NestedRemotePath) |
| RemoteListing.CollectRemoteFiles | src/main/java/org/juanrdzbaeza/daemon/SftpSyncService.java:87 | the listing of the whole tree from the empty key prefix (stated through ListingFails, TreeFilesListed and ListedFilesFromTree) |
| RemoteListing.CollectDir | src/main/java/org/juanrdzbaeza/daemon/SftpSyncService.java:169-190 | listing a directory keeps every key of the map it is given |
| RemoteListing.CollectEntries | src/main/java/org/juanrdzbaeza/daemon/SftpSyncService.java:176-189 | the loop over the entries keeps every key of the map it is given |
| RemoteListing.DirFails | src/main/java/org/juanrdzbaeza/daemon/SftpSyncService.java:175 | a directory's listing throws iff some directory reachable without "." or ".." is unreadable |
| RemoteListing.EntriesFail | src/main/java/org/juanrdzbaeza/daemon/SftpSyncService.java:183 | the loop throws iff an entry from the current one on leads to an unreadable directory |
| RemoteListing.ListingFails | src/main/java/org/juanrdzbaeza/daemon/SftpSyncService.java:169-190 | the whole listing fails iff an unreadable directory is reachable |
| RemoteListing.DirComplete | src/main/java/org/juanrdzbaeza/daemon/SftpSyncService.java:182-187 | each regular file under a directory gets an entry under its key |
| RemoteListing.EntriesComplete | src/main/java/org/juanrdzbaeza/daemon/SftpSyncService.java:176-188 | each regular file under the remaining entries gets an entry under its key |
| RemoteListing.TreeFilesListed | src/main/java/org/juanrdzbaeza/daemon/SftpSyncService.java:176-188 | every regular file of the tree reached without "." or ".." is listed under the key of its names |
| RemoteListing.DirSound | src/main/java/org/juanrdzbaeza/daemon/SftpSyncService.java:182-187 | every entry a directory adds is a regular file below it, at the listed remote path |
| RemoteListing.EntriesSound | src/main/java/org/juanrdzbaeza/daemon/SftpSyncService.java:176-188 | every entry the loop adds is a regular file of a remaining entry, at the listed remote path |
| RemoteListing.ListedFilesFromTree | src/main/java/org/juanrdzbaeza/daemon/SftpSyncService.java:176-188 | every listed key is the key of a regular file of the tree with that size and mtime; under a non-empty base its remote path is the upload join of base and key; under an empty base it is "/" + key |
| RemoteListing.ChildRemotePath | src/main/java/org/juanrdzbaeza/daemon/SftpSyncService.java:170-180 | the child's remote path built while listing equals the listing path of the child's key |
| RemoteListing.NestedRemotePath | src/main/java/org/juanrdzbaeza/daemon/SftpSyncService.java:170-180 | the same holds at every depth: the listed directory joined with a name is the path of the joined key |
| RemoteListing.KeyUnderTop | src/main/java/org/juanrdzbaeza/daemon/SftpSyncService.java:179 | the key built while descending from the top is the names joined by '/' |
| State.NewSyncState | src/main/java/org/juanrdzbaeza/daemon/SyncState.java:20-22 | keeps the given window and holds no records |
| State.DefaultSyncState | src/main/java/org/juanrdzbaeza/daemon/SyncState.java:24-26 | the window is 3000 ms and there are no records |
| State.GetDownloadedTimestamp | src/main/java/org/juanrdzbaeza/daemon/SftpSyncService.java:152 | null for a null path; otherwise the download record under the absolute path, if any |
| State.GetLastUploaded | src/main/java/org/juanrdzbaeza/daemon/SyncState.java:44-47 | null for a null path; otherwise the upload record under the absolute path, if any |
| State.MarkDownloaded | src/main/java/org/juanrdzbaeza/daemon/SyncState.java:28-31 | no-op for null; records `now` for the absolute path; other paths, the upload map and the window are unchanged |
| State.IsRecentlyDownloaded | src/main/java/org/juanrdzbaeza/daemon/SyncState.java:33-37 | true iff a record exists and the Java difference `now - t` is below the window |
| State.MarkUploaded | src/main/java/org/juanrdzbaeza/daemon/SyncState.java:39-42 | no-op for null; records the modification time for the absolute path, adding exactly that key; other paths and the download map are unchanged |
| State.RemoveUploaded | src/main/java/org/juanrdzbaeza/daemon/SftpSyncService.java:263 | drops exactly the path's upload record; the download map is unchanged |
| State.RemoveDownloaded | src/main/java/org/juanrdzbaeza/daemon/SftpSyncService.java:159 | drops exactly the path's download record; the upload map is unchanged |
| State.RecentAfterMark | src/main/java/org/juanrdzbaeza/daemon/SyncState.java:28-37 | after `markDownloaded(p)` at t, `isRecentlyDownloaded(p)` at now iff `now - t` is below the window (plain difference for non-negative clock readings) |
| State.NotRecentWithoutRecord | src/main/java/org/juanrdzbaeza/daemon/SyncState.java:33-36 | a null path or a path without a record is never recently downloaded |
| State.UploadedReadBack | src/main/java/org/juanrdzbaeza/daemon/SyncState.java:39-47 | `markUploaded(p, m)` then `getLastUploaded(p)` gives m, overwriting an earlier value |
| State.SharedRecord | src/main/java/org/juanrdzbaeza/daemon/SyncState.java:28-47 | two paths with the same absolute form share every record |
| Planner.WithinRenameWindow | src/main/java/org/juanrdzbaeza/daemon/SftpSyncService.java:115 | `Math.abs(lastModified - mtime * 1000L) < 2000L` in Java longs (stated through RenameHeuristic.WindowExact and WindowWraps) |
| Planner.Eligible | src/main/java/org/juanrdzbaeza/daemon/SftpSyncService.java:114-115 | a candidate: a path other than the target, the same size, within the window; the corrected policy also refuses a key still listed (stated through FirstEligible) |
| Planner.UpToDate | src/main/java/org/juanrdzbaeza/daemon/SftpSyncService.java:109-110 | a local file under the same key with the same size (stated through RemoteStepCases) |
| Planner.HasRecord | src/main/java/org/juanrdzbaeza/daemon/SftpSyncService.java:152-155 | a download timestamp or an upload record under the file's absolute path (stated through LocalStep and DeletesAreRecorded) |
| Planner.FirstEligible | src/main/java/org/juanrdzbaeza/daemon/SftpSyncService.java:113-116 | `findFirst`: the first local file in iteration order whose path differs from the target, with equal size, within the 2000 ms window; none before it qualifies |
| Planner.MoveStep | src/main/java/org/juanrdzbaeza/daemon/SftpSyncService.java:118-130 | a failed move changes nothing but the log; a successful one re-keys the candidate under the target with its size and time; the state is never touched; relativize throwing ends the tick |
| Planner.FetchStep | src/main/java/org/juanrdzbaeza/daemon/SftpSyncService.java:132-142 | a successful download records the target at the clock reading; a failed one leaves the state as it is; the inventory is unchanged |
| Planner.RemoteStep | src/main/java/org/juanrdzbaeza/daemon/SftpSyncService.java:103-143 | one remote key yields at most one action; upload records are untouched and download records only added |
| Planner.RemoteStepCases | src/main/java/org/juanrdzbaeza/daemon/SftpSyncService.java:107-142 | the skip (same key, same size: nothing happens), the move of the first eligible file, and the download, each with its effect |
| Planner.RemoteStepLog | src/main/java/org/juanrdzbaeza/daemon/SftpSyncService.java:103-143 | a step's action is about its key, lands on the key's local target, and is never a delete |
| Planner.RemoteStepRecords | src/main/java/org/juanrdzbaeza/daemon/SftpSyncService.java:133-142 | the state changes exactly by recording a successful download |
| Planner.RemoteStepInventory | src/main/java/org/juanrdzbaeza/daemon/SftpSyncService.java:118-130 | the inventory changes only at the step's key and the key moved away |
| Planner.RemoteLoop | src/main/java/org/juanrdzbaeza/daemon/SftpSyncService.java:103-143 | the first loop extends the log, never touches upload records, and only adds download records |
| Planner.LocalStep | src/main/java/org/juanrdzbaeza/daemon/SftpSyncService.java:146-165 | a listed key or a file with no record is left alone; otherwise the file is deleted, and a successful delete clears both records |
| Planner.LocalLoop | src/main/java/org/juanrdzbaeza/daemon/SftpSyncService.java:146-165 | the second loop never changes the inventory and only drops records |
| Planner.SyncRemoteToLocal | src/main/java/org/juanrdzbaeza/daemon/SftpSyncService.java:81-166 | a failed listing does nothing; the window is kept; upload records are only dropped |
| SyncProperties.RemoteLoopLog | src/main/java/org/juanrdzbaeza/daemon/SftpSyncService.java:103-143 | the first loop only moves and downloads, each about a processed key and onto that key's local target |
| SyncProperties.RemoteLoopRecords | src/main/java/org/juanrdzbaeza/daemon/SftpSyncService.java:133-142 | every download record after the first loop existed before or comes from a successful download |
| SyncProperties.RemoteLoopFetchesRecorded | src/main/java/org/juanrdzbaeza/daemon/SftpSyncService.java:133-138 | every successful download of the first loop leaves a download record |
| SyncProperties.RemoteLoopInventory | src/main/java/org/juanrdzbaeza/daemon/SftpSyncService.java:118-130 | the first loop adds only listed keys, and leaves every unprocessed key's entry as it was |
| SyncProperties.LocalLoopLog | src/main/java/org/juanrdzbaeza/daemon/SftpSyncService.java:146-165 | the second loop only deletes unlisted local keys that had a record, and a successful delete leaves no record |
| SyncProperties.RemoteStepKeyed | src/main/java/org/juanrdzbaeza/daemon/SftpSyncService.java:118-125 | a step keeps the inventory keyed by relative path, and then relativizing after a move cannot throw |
| SyncProperties.RemoteLoopKeyed | src/main/java/org/juanrdzbaeza/daemon/SftpSyncService.java:103-130 | the first loop keeps the inventory keyed by relative path and never aborts |
| SyncProperties.ConsistentTickCompletes | src/main/java/org/juanrdzbaeza/daemon/SftpSyncService.java:81-166 | a tick over a consistent inventory runs to the end, stays consistent, and holds only its own and listed keys |
| SyncProperties.TickPhases | src/main/java/org/juanrdzbaeza/daemon/SftpSyncService.java:102-165 | a tick is a first loop of moves and downloads and then, unless aborted, a second loop of deletes only |
| SyncProperties.DownloadsOntoListedTargets | src/main/java/org/juanrdzbaeza/daemon/SftpSyncService.java:103-138 | every download of a tick is of a listed key onto that key's local target |
| SyncProperties.DeletesAreRecorded | src/main/java/org/juanrdzbaeza/daemon/SftpSyncService.java:145-165 | delete protection: each delete is of an unlisted key's file that the daemon had downloaded or uploaded, before the tick or during it |
| SyncProperties.DeletesOfSecondLoop | src/main/java/org/juanrdzbaeza/daemon/SftpSyncService.java:146-165 | the same, for the second loop run on what the first left |
| SyncProperties.ForeignFileNeverDeleted | src/main/java/org/juanrdzbaeza/daemon/SftpSyncService.java:145-165 | an unlisted local file with no record, whose path no listed key resolves to, is never deleted, and stays as it was unless the heuristic moved it |
| SyncProperties.LocalLoopDeletes | src/main/java/org/juanrdzbaeza/daemon/SftpSyncService.java:146-165 | the second loop deletes every unlisted key with a record when no other file shares its absolute path |
| SyncProperties.RecordedFilesAreDeleted | src/main/java/org/juanrdzbaeza/daemon/SftpSyncService.java:145-165 | after a complete tick, every unlisted recorded file was deleted, and a successful delete forgets both records |
| RenameHeuristic.WindowExact | src/main/java/org/juanrdzbaeza/daemon/SftpSyncService.java:115 | without overflow the window test is `-2000 < lastModified - mtime*1000 < 2000`, both directions |
| RenameHeuristic.WindowWraps | src/main/java/org/juanrdzbaeza/daemon/SftpSyncService.java:115 | with overflow it is not: a wrapped difference and `Math.abs(Long.MIN_VALUE)` both pass the test |
| RenameHeuristic.RemoteStepKeepsListed | src/main/java/org/juanrdzbaeza/daemon/SftpSyncService.java:107-129 | under the corrected filter, a step never moves the local file of an up-to-date listed key |
| RenameHeuristic.RemoteLoopKeepsListed | src/main/java/org/juanrdzbaeza/daemon/SftpSyncService.java:103-130 | the same for the whole first loop |
| RenameHeuristic.ListedUpToDateFileKept | src/main/java/org/juanrdzbaeza/daemon/SftpSyncService.java:107-130 | under the corrected filter a listed, up-to-date local file is kept in place, and no action of the tick concerns it |
| RenameHeuristic.StealSecondKey | src/main/java/org/juanrdzbaeza/daemon/SftpSyncService.java:113-125 | as written, the up-to-date copy of `a` is the first eligible file for `b` and is moved onto it |
| RenameHeuristic.RenameStealsListedFile | src/main/java/org/juanrdzbaeza/daemon/SftpSyncService.java:107-130 | as written, a tick with two equal remote files moves away the local copy of the first one |
| RenameHeuristic.PingPongFirstMove | src/main/java/org/juanrdzbaeza/daemon/SftpSyncService.java:113-125 | on the next tick the file at `b` is moved onto `a` |
| RenameHeuristic.PingPongSecondMove | src/main/java/org/juanrdzbaeza/daemon/SftpSyncService.java:113-125 | and on the same tick straight back onto `b` |
| RenameHeuristic.RenamePingPong | src/main/java/org/juanrdzbaeza/daemon/SftpSyncService.java:103-130 | the next tick ends as it started: `a` is never mirrored |
| RenameHeuristic.CorrectedFilterDownloads | src/main/java/org/juanrdzbaeza/daemon/SftpSyncService.java:113-142 | on the same input the corrected filter keeps `a` and downloads and records `b` |
| Transfers.LocalKey | src/main/java/org/juanrdzbaeza/daemon/SftpSyncService.java:201-207 | the path relative to the local root, or the bare file name when relativizing throws |
| Transfers.RemoteTarget | src/main/java/org/juanrdzbaeza/daemon/SftpSyncService.java:209-211 | the remote path of a local file is the join of the remote dir with its key; there is none when it has no key |
| Transfers.UploadFile | src/main/java/org/juanrdzbaeza/daemon/SftpSyncService.java:195-228 | a null path, a failed connection, or a path with no key does nothing; the file is put at its remote target once every directory above it exists; only those directories are created; the file is put iff the put and the walk to its parent (`cd("/")` and every `cd`/`mkdir` on the way) are allowed, so a refused step skips both the put and the record; only directories `mkdir` allowed are created; the upload record is written only after a successful put |
| Transfers.DeleteRemote | src/main/java/org/juanrdzbaeza/daemon/SftpSyncService.java:233-267 | the same early exits; it addresses the same remote path as the upload; tries `rm`, then `rmdir`; the upload record goes whatever the server did; download records stay |
| Transfers.UploadParents | src/main/java/org/juanrdzbaeza/daemon/SftpSyncService.java:209-214 | the directories an upload walks are the remote dir's segments, then the key's, without the file name |
| Transfers.DeleteUndoesUploadRecord | src/main/java/org/juanrdzbaeza/daemon/SftpSyncService.java:216-263 | upload then delete of one file: the delete addresses the path the upload wrote, and the upload record is gone afterwards |
| Transfers.DownloadUploadsBack | src/main/java/org/juanrdzbaeza/daemon/SftpSyncService.java:179-211 | a file fetched for a listed key uploads back to the remote path it was listed at, under a non-empty remote dir |

## Left out

- The JSch session (`connect`, `disconnect`, the channel) is not modelled. A failed connection or a failing `ls` is an input: a `None` listing, or `connectOk` set to false.
- The transport and file-system effects are not modelled: `channel.get/put/rm/rmdir/mkdir`, `Files.move/copy/deleteIfExists/createDirectories`, and reading the local modification time. Each is an oracle saying whether it succeeds.
- RemoteDirs.EnterOrCreate: `channel.cd` is modelled by the directories that exist (a set of segment lists) and an oracle `cdOk`. A `cd` succeeds when the directory exists and `cdOk` allows it; `cd("/")` is `cdOk([])`. The working directory itself is not tracked.
- `Files.walk` of the local tree is not modelled. The local inventory is an input. `KeyedByRelativePath` states the shape the walk gives it, and the lemmas that need that shape require it.
- `java.nio.file` paths are strings, and `resolve`, `relativize`, `getFileName` and `toAbsolutePath` are uninterpreted. The '\\' to '/' replacement is folded into `relativize`.
- The clock (`System.currentTimeMillis`) is a parameter: `now`, and the download time oracle.
- Java's `HashMap` iteration order is a parameter. It is fixed for the length of a tick. The local map's order lists every key the map can hold during that tick.
- Concurrency is not modelled: the scheduler, thread-safety of `ConcurrentHashMap`, and the watcher thread uploading during a tick.
- `Config`, `FtpSyncService`, `JavaSFTPDaemon` and `LocalWatcher` are not part of this model.
- Console output and `printStackTrace` are left out.
- State.GetDownloadedTimestamp: `SyncState.java` does not define `getDownloadedTimestamp`, `removeUploaded` or `removeDownloaded`. They are modelled as the plain lookup in, and removal from, the corresponding map.
- The remote tree is a datatype (`Listing`): `ls` of a directory is assumed to return that node's entries. Symbolic links and other non-regular, non-directory entries are `OtherKind`.
- RemoteListing.ListedFilesFromTree: the soundness direction assumes the server never reports a name holding '/' or an empty name (`NamesValid`).
- The remote directory is a string. A null `getRemoteDir()` is not modelled; `Config` supplies a default.
- Transfers.UploadFile: the result states the path string handed to `channel.put`. How the server resolves a relative path is not modelled: after `ensureRemoteDirExists` changes the working directory, a relative remote directory no longer resolves from the login directory.
- Under an empty remote directory, the listing records "/" + key while the upload addresses the key itself. `ListedFilesFromTree` states both. Which directory `ls("")` lists is up to the server library.

## Findings

| source | as written | input that shows it | evidently intended | confidence | as-written member | corrected member |
|---|---|---|---|---|---|---|
| src/main/java/org/juanrdzbaeza/daemon/SftpSyncService.java:113-116 | any local file of the same size and nearly the same mtime may be the rename source, including one whose own key is still listed and up to date | remote `a` and `b`, both size 10 and mtime 100 s; local `a` size 10, modified at 100000 ms. The tick moves `/l/a` to `/l/b`, and every later tick moves the file back and forth | a rename source is only a local file whose key the server no longer lists | not executed | RenameHeuristic.RenameStealsListedFile | RenameHeuristic.ListedUpToDateFileKept |
