# One-way folder synchronisation, modelled in Dafny

`folder.py` keeps a replica folder a copy of a source folder. One call of
`sync_folders(source, replica, logger)` runs two walks:

1. **Mirror.** It creates the replica root (`mkdir(parents=True, exist_ok=True)`).
   It then walks the source top-down. For each source directory it creates the
   matching replica directory (`mkdir(exist_ok=True)`). For each file in that
   directory:
   - if nothing exists at the replica path, it logs "Creating file" and copies the file;
   - otherwise it computes the MD5 of both sides and, when they differ, logs
     "Updating file" and copies.
2. **Prune.** It walks the replica. It unlinks every replica file whose path
   does not exist in the source, and logs "Removing file" before doing so.
   It never removes a directory.

`copy_file` creates the destination's parent directories outside its `try`.
Any exception raised while copying is caught and logged as "Failed to copy",
so a failed copy never stops the call. Every other exception escapes
`sync_folders`:
- mkdir meeting a file;
- open of a directory or an unreadable file for hashing;
- a refused unlink.

`calculate_md5` reads a file in 4096-byte chunks and feeds each chunk to
`hashlib.md5`.

The model is organised as follows.

- **Folders as trees.** A folder is a `Tree`, a map from relative paths to
  `Dir` or `File(bytes)` (module `FileTree`). That module also models:
  - `mkdir` with and without `parents`;
  - the two listings `os.walk` provides, as the methods `Walk` and `ListFiles`.
- **Digest.** `calculate_md5` (module `Digest`) is a method with the
  chunk-reading loop. It uses a `Md5` hash object and a `Reader` file object.
  MD5 itself is a parameter `md5: Bytes -> Digest`.
- **What one call should do** (module `SyncSpec`) is stated on values:
  - the decision for each path (`Decide`);
  - the replica left by a call that raises nothing (`Synced`, built as `Pruned(Phase1Tree(..))`);
  - the condition under which the call raises (`SyncOk`);
  - the log records (`SyncLog`, over the abstract `Event` records, each logged once).
- **Filesystem faults** come from a value `Io`:
  - which copies raise inside `copy_file`, and what they leave behind;
  - which files cannot be opened for hashing;
  - which unlinks are refused.
- **The class `Folders`** (module `Folder`) holds the two trees and the
  logger's records. Its methods follow the source's loops one by one. They
  are proved against `SyncSpec`: on success, `SyncFolders` leaves exactly
  `Synced(..)` and returns no error exactly when `SyncOk(..)`.
- **Loop invariants.** The methods' loop invariants are in module `Progress`.
- **Properties** (module `Properties`) are proved about the specification:
  - mirroring of directories, files and bytes;
  - exact pruning;
  - copy faults stay local, and the other faults abort;
  - convergence and idempotence;
  - the digest does not depend on the read size (`HashStream`);
  - a few concrete scenarios.

Where the documented behaviour and the code disagree, the model follows the
code:

- **A file that cannot be hashed aborts.** A source or replica file that
  cannot be opened for hashing raises out of `sync_folders` (folder.py:36-37).
  The process then exits (folder.py:95-97). The design asks for that fault to be
  logged and skipped; the model raises (`FaultsThatAbort`,
  `UnreadableReplicaScenario`).
- **A refused unlink aborts** the call for the same reason (folder.py:52).
- **A missing source is not an error.** `os.walk` of a missing source yields
  nothing, so the second walk deletes every replica file (`MissingSource`).
  The design treats a source root that cannot be listed as a fatal error.
- **A moved file converges in one call.** For a file moved from A to B in
  the source, the design expects A to be removed only on a later cycle, once
  B exists. The code attempts the copy to B and then removes A in the same
  call (`CopyBeforeRemove`).
- **A moved file can be lost.** When that copy to B fails, `copy_file` only
  logs the failure (folder.py:56-60), and the second walk still removes A.
  The call raises nothing, and the replica holds the file at neither path
  (`MovedFileLostScenario`). The design removes A only once B exists.

## Model

| member | source | states |
|---|---|---|
| FileTree.MakeDir | folder.py:26 | `mkdir(exist_ok=True)` succeeds exactly on an existing directory or a new path whose parent is a directory. It adds just that directory. It raises FileExists for a file in the way and NoParent otherwise. |
| FileTree.MakeDirs | folder.py:20 | `mkdir(parents=True, exist_ok=True)` succeeds exactly when neither the path nor any of its ancestors is a file. It then makes all of them directories, keeps every old entry, adds only ancestors of the path and keeps the tree well formed. |
| FileTree.MakeDirsOnDir | folder.py:55 | On an existing directory, `mkdir(parents=True, exist_ok=True)` changes nothing. |
| FileTree.Walk | folder.py:22 | The directories `os.walk` visits: every directory exactly once, each after its parent. |
| FileTree.ListFiles | folder.py:28 | The `files` list of a directory: distinct names, exactly those of the files (not directories) directly inside it. |
| Digest.Md5.Update | folder.py:13 | `update` appends the chunk to everything hashed so far. |
| Digest.Reader.Read | folder.py:12 | `read(n)` returns the next at most `n` bytes and advances by that many; it is empty only at the end. |
| Digest.ChunksPartition | folder.py:12-13 | The reads of `n` bytes are non-empty. All but the last are exactly `n` bytes, the last is at most `n`, and concatenated they are the file's content. |
| Digest.HashStream | folder.py:10-14 | The read loop hashes the whole content, whatever the read size. Its chunks are the partition above. |
| Digest.CalculateMd5 | folder.py:9-14 | `calculate_md5` returns the digest of the file's bytes. It raises for a missing path, a directory or an unreadable file. |
| SyncSpec.FileEvents | folder.py:32-40 | For one source file: a creation record exactly for a create, an update record exactly for an update, and a failure record exactly for a copy that failed. Every record names that file, none is a removal, and none is repeated. |
| SyncSpec.DecideIsLocal | folder.py:32-40 | The decision and outcome for a path depend only on the entries at that path. |
| SyncSpec.Phase1KeepsStale | folder.py:28-40 | The first walk neither creates nor removes a stale replica file. |
| SyncSpec.Phase2OkAfterPhase1 | folder.py:50-52 | Whether the second walk raises can be read off the replica as it was before the first walk. |
| SyncSpec.SyncedAt | folder.py:16-52 | After a call that raised nothing, each path holds: nothing if it was a stale file; a directory if it is the root or a source directory; the copy outcome if it is a source file; otherwise the old entry. |
| SyncSpec.SyncLogCompose | folder.py:22-52 | The copy records of the first walk followed by one removal per stale file make the log of the whole call. |
| Folder.Folders.CopyFile | folder.py:54-60 | A parent mkdir that fails raises and changes nothing. Otherwise no error escapes. On success the file is written; a failed open or copy leaves what the fault left and logs one failure. |
| Folder.Folders.SyncFile | folder.py:29-40 | One source file raises exactly when the replica entry is a directory or either side is unreadable. Otherwise the entry becomes the copy outcome the decision prescribes, with exactly that file's records logged. |
| Folder.Folders.SyncFiles | folder.py:28-40 | The file loop of one directory raises exactly when one of its files would. Otherwise each file of the directory is handled and logged, and nothing else changes. |
| Folder.Folders.SyncNth | folder.py:28-40 | One iteration of the file loop keeps the loop invariant and raises exactly when that file would. |
| Folder.Folders.SyncDir | folder.py:23-40 | One source directory raises exactly when a replica file is in the way or one of its files would raise. Otherwise it becomes a directory with every file handled. |
| Folder.Folders.MirrorNth | folder.py:22-40 | One directory of the first walk keeps the walk invariant. An error means the first walk as a whole raises. |
| Folder.Folders.MirrorDirs | folder.py:22-40 | The first walk raises exactly when a directory or file would. Otherwise the replica is the first walk's result, with each source file's records logged. |
| Folder.Folders.MirrorSource | folder.py:20-40 | The root mkdir and the first walk raise exactly when `Phase1Ok` fails. Otherwise they leave `Phase1Tree` and log the copy records of every source file. They never remove a directory and never change the source. |
| Folder.Folders.PruneFile | folder.py:47-52 | One replica file: a file absent from the source is logged and then unlinked. A refused unlink raises, after the record. |
| Folder.Folders.PruneDir | folder.py:43-52 | One replica directory of the second walk: every stale file in it is removed and logged, and every other entry is kept. |
| Folder.Folders.PruneReplica | folder.py:42-52 | The second walk raises exactly when some stale file cannot be unlinked. Otherwise it removes exactly the stale files and logs one removal record for each of them, none repeated. Even when it raises, it has removed nothing but stale files and logged nothing but their removals. |
| Folder.Folders.SyncFolders | folder.py:16-52 | `sync_folders` raises exactly when `SyncOk` fails. Otherwise it leaves `Synced` and writes the records `SyncLog` prescribes. It never changes the source and never removes a replica directory. |
| Properties.DirectoriesMirrored | folder.py:20-26 | After a call that raised nothing, the replica root and every source directory are directories, and every replica directory is still one. |
| Properties.FilesMirrored | folder.py:32-40 | A source file whose copy succeeds is a replica file with the source's digest: the source's bytes when copied, its old bytes when skipped. |
| Properties.BytesMirrored | folder.py:32-40 | With a digest free of collisions, such a file is byte-identical to its source. |
| Properties.MatchingDigestUntouched | folder.py:36-40 | A replica file with the source's digest is skipped: same bytes afterwards, and no record names it. |
| Properties.PruneExact | folder.py:42-52 | A replica entry disappears exactly when it is a stale file. An entry present in the source is never removed, and nothing appears that is in neither folder except the root. |
| Properties.MissingSource | folder.py:42-52 | With no source, every replica file is removed and every replica directory kept. The call raises exactly when such an unlink is refused. |
| Properties.CopyFaultIsLocal | folder.py:56-60 | A failing copy changes neither whether the call raises nor any other path. The failing path holds what the interrupted copy left. |
| Properties.FaultsThatAbort | folder.py:20-52 | Each of these aborts the call: a replica root that is a file, a source directory over a replica file, a source file over a replica directory, an unreadable file to hash, and a refused unlink. |
| Properties.Convergence | folder.py:16-52 | With no faults, the call raises exactly when the folders clash file-against-directory. Otherwise the replica's files are exactly the source's, with the source's digests (bytes, given no collisions), and its directories are the source's plus its own. |
| Properties.OnceEach | folder.py:22-52 | In a log without repeats, as `SyncLog` requires, every record occurs exactly once. |
| Properties.CopyIntoEmpty | folder.py:32-34 | Into an empty replica, a fault-free call copies the whole source and logs exactly one creation per source file, each exactly once, and nothing else. |
| Properties.Idempotent | folder.py:16-52 | After a successful call with no failed copy, the next call has nothing to copy or delete and leaves the replica unchanged. It raises only when a source file or its replica copy cannot be opened for hashing. |
| Properties.SecondRunQuiet | folder.py:32-52 | That second call writes no record. |
| Properties.CopyBeforeRemove | folder.py:22-52 | Every creation record precedes every removal record, so for a moved file the copy to the new path is attempted before the old copy is removed. |
| Properties.MovedFileLostScenario | folder.py:22-60 | A file moved from `a` to `b` whose copy to `b` fails leaves a replica with neither, and the call raises nothing. |
| Properties.FirstRunScenario | folder.py:16-40 | `dir1/file1.txt` holding "x" is copied into a missing replica folder, and the whole log is that one creation record. |
| Properties.PruneScenario | folder.py:42-52 | A stale file is removed, a matching file kept, and an extra replica directory kept. |
| Properties.PruneScenarioLog | folder.py:50-52 | The whole log of that call is the single removal record of the stale file. |
| Properties.CopyFaultScenario | folder.py:56-60 | A copy that fails leaves its destination absent, and the next file is still copied. |
| Properties.CopyFaultScenarioLog | folder.py:32-34 | Both creations and the one failure are logged. |
| Properties.UnreadableReplicaScenario | folder.py:36-37 | A replica file that cannot be opened for hashing aborts the call. |

## Left out

- `main` (folder.py:62-100) is not modelled: argument parsing, logging setup, the periodic loop with `time.sleep`, and the handling of interrupts and exceptions.
- The MD5 algorithm is not modelled; `md5` is an uninterpreted parameter. Byte identity is proved only under `CollisionFree`, which real MD5 does not satisfy.
- Real I/O is not modelled. Faults come from the `Io` value, fixed for one call, and the folders do not change while the call runs.
- Errors when `os.walk` lists a directory are not modelled. `os.walk` ignores them silently.
- `os.walk`'s order is not modelled. Any order that visits every directory once, after its parent, is allowed. `Walk` picks shortest paths first, and the proofs use only that property.
- Log levels and message text are not modelled; the records are the abstract `Event` values.
- The two folders are assumed disjoint. If the replica lies inside the source, `os.walk(source_dir)` (folder.py:22) would reach the files the call itself writes; the model reads the source as a fixed tree apart from the replica.
- Concurrency, symbolic links, permissions and file metadata are not modelled.
- Paths are sequences of names with no `.` or `..`, so `relative_to` and path joining are not modelled.
- Folder.Folders.SyncFolders: when it raises, it states only these facts. The source is unchanged, no replica directory is gone, and the log is extended. It does not state how far the call got.
- Folder.Folders.MirrorSource: when it raises, it states the same facts and no more.
- Folder.Folders.SyncFolders: it does not state which exception is raised, only whether one is.
