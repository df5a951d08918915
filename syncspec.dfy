/** What one call of `sync_folders` does, stated on values: the decision it
    takes for each path, the replica it leaves behind, the condition under
    which it raises, and the log records it writes. */
module SyncSpec {
  import opened FileTree
  import opened Digest

  /** What a copy that raises inside `copy_file` leaves at the destination:
      nothing changed (the open for writing failed) or some bytes (the file
      was truncated and partly written before the error). */
  datatype CopyFault = Untouched | Clobbered(left: Bytes)

  /** How the filesystem behaves during one call, path by path: which copies
      raise inside `copy_file`, which files cannot be opened for hashing, and
      which unlinks are refused. */
  datatype Io = Io(
    copyFaults: map<Path, CopyFault>,
    unreadableSource: set<Path>,
    unreadableReplica: set<Path>,
    unlinkFails: set<Path>)

  /** The records `sync_folders` and `copy_file` send to the logger. */
  datatype Event =
    | Created(path: Path)     // "Creating file"
    | Updated(path: Path)     // "Updating file"
    | Removed(path: Path)     // "Removing file"
    | CopyFailed(path: Path)  // "Failed to copy"

  /** The per-path decision of one pass. */
  datatype Decision = CreateFile | UpdateFile | SkipFile | DeleteFile | NoAction

  function Fault(io: Io, p: Path): Option<CopyFault> {
    if p in io.copyFaults then Some(io.copyFaults[p]) else None
  }

  /** A file `os.walk` lists in tree `t`: every file but a root that is
      itself a file (os.walk lists nothing then). */
  predicate WalkFile(t: Tree, p: Path) {
    p != [] && IsFile(t, p)
  }

  /** A replica file the second walk lists whose path does not exist, as a
      file or as a directory, in the source. */
  predicate Stale(rep: Tree, src: Tree, p: Path) {
    p != [] && IsFile(rep, p) && p !in src
  }

  /** Phase 1 creates a source file missing from the replica and overwrites
      one whose digest differs; phase 2 deletes a stale replica file. */
  function Decide(src: Tree, rep: Tree, md5: Bytes -> Digest, p: Path): Decision {
    if WalkFile(src, p) then
      if p !in rep then CreateFile
      else if rep[p] == Dir then NoAction
      else if md5(rep[p].data) == md5(src[p].data) then SkipFile
      else UpdateFile
    else if Stale(rep, src, p) then DeleteFile
    else NoAction
  }

  predicate Copies(d: Decision) {
    d == CreateFile || d == UpdateFile
  }

  /** What copying `data` over `prior` leaves, when the copy succeeds or
      fails with `fault`. */
  function Written(data: Bytes, fault: Option<CopyFault>, prior: Option<Entry>): Option<Entry> {
    match fault
    case None => Some(File(data))
    case Some(Untouched) => prior
    case Some(Clobbered(left)) => Some(File(left))
  }

  /** The replica entry at source file `p` once phase 1 has handled it. */
  function FileTarget(src: Tree, rep: Tree, md5: Bytes -> Digest, io: Io, p: Path): Option<Entry>
    requires WalkFile(src, p)
  {
    if Copies(Decide(src, rep, md5, p)) then Written(src[p].data, Fault(io, p), Get(rep, p))
    else Get(rep, p)
  }

  /** The replica entry at `p` once phase 1 is through. */
  function AfterPhase1(src: Tree, rep: Tree, md5: Bytes -> Digest, io: Io, p: Path): Option<Entry> {
    if p == [] || IsDir(src, p) then Some(Dir)
    else if WalkFile(src, p) then FileTarget(src, rep, md5, io, p)
    else Get(rep, p)
  }

  function Phase1Tree(src: Tree, rep: Tree, md5: Bytes -> Digest, io: Io): Tree {
    map p | p in src.Keys + rep.Keys + {[]} && AfterPhase1(src, rep, md5, io, p).Some?
      :: AfterPhase1(src, rep, md5, io, p).value
  }

  /** Phase 2's result: the stale files gone, everything else as it was. */
  function Pruned(t: Tree, src: Tree): Tree {
    map p | p in t && !Stale(t, src, p) :: t[p]
  }

  /** The replica a call that raises nothing leaves behind. */
  function Synced(src: Tree, rep: Tree, md5: Bytes -> Digest, io: Io): Tree {
    Pruned(Phase1Tree(src, rep, md5, io), src)
  }

  /** Phase 1 raises nothing: the replica root is not a file (line 20), no
      source directory has a replica file at its path (line 26), and every
      source file already present in the replica is a file there and both
      sides can be opened for hashing (lines 36-37). */
  ghost predicate Phase1Ok(src: Tree, rep: Tree, io: Io) {
    && !IsFile(rep, [])
    && (forall d :: IsDir(src, d) ==> DirOk(rep, d))
    && (forall p :: WalkFile(src, p) ==> FileOk(rep, io, p))
  }

  /** `mkdir(exist_ok=True)` at `d` does not meet a file. */
  predicate DirOk(rep: Tree, d: Path) {
    d in rep ==> rep[d] == Dir
  }

  /** Handling source file `p` does not raise: if the replica has an entry
      there, it is a file and both sides can be opened for hashing. */
  predicate FileOk(rep: Tree, io: Io, p: Path) {
    p in rep ==> rep[p].File? && p !in io.unreadableSource && p !in io.unreadableReplica
  }

  /** Phase 2 raises nothing: every stale file can be unlinked (line 52). */
  ghost predicate Phase2Ok(rep: Tree, src: Tree, io: Io) {
    forall p :: Stale(rep, src, p) ==> p !in io.unlinkFails
  }

  ghost predicate SyncOk(src: Tree, rep: Tree, io: Io) {
    Phase1Ok(src, rep, io) && Phase2Ok(rep, src, io)
  }

  function SourceFiles(src: Tree): set<Path> {
    set p | p in src.Keys && WalkFile(src, p)
  }

  /** The files directly inside directory `d` of tree `t`. */
  function FilesIn(t: Tree, d: Path): set<Path> {
    set p | p in t.Keys && WalkFile(t, p) && Parent(p) == d
  }

  /** No record appears twice: each path is visited once per walk. */
  predicate NoRepeats(ev: seq<Event>) {
    forall i, j :: 0 <= i < j < |ev| ==> ev[i] != ev[j]
  }

  /** The phase 1 records about the source files in `scope`, each once: one
      creation or update record for each file copied, a failure record for
      each copy that raised, and no removal. */
  ghost predicate CopyLog(ev: seq<Event>, src: Tree, rep: Tree, md5: Bytes -> Digest, io: Io, scope: set<Path>) {
    && NoRepeats(ev)
    && (forall e :: e in ev ==> e.path in scope)
    && (forall p ::
          && (Created(p) in ev <==> p in scope && Decide(src, rep, md5, p) == CreateFile)
          && (Updated(p) in ev <==> p in scope && Decide(src, rep, md5, p) == UpdateFile)
          && (CopyFailed(p) in ev <==> p in scope && Copies(Decide(src, rep, md5, p)) && Fault(io, p).Some?)
          && Removed(p) !in ev)
  }

  /** The records of one full call: every decision to copy or delete is
      logged once and nothing else is, and no removal comes before a copy. */
  ghost predicate SyncLog(ev: seq<Event>, src: Tree, rep: Tree, md5: Bytes -> Digest, io: Io) {
    && NoRepeats(ev)
    && (forall p ::
          && (Created(p) in ev <==> Decide(src, rep, md5, p) == CreateFile)
          && (Updated(p) in ev <==> Decide(src, rep, md5, p) == UpdateFile)
          && (CopyFailed(p) in ev <==> Copies(Decide(src, rep, md5, p)) && Fault(io, p).Some?)
          && (Removed(p) in ev <==> Decide(src, rep, md5, p) == DeleteFile))
    && (forall i, j :: 0 <= i < j < |ev| && ev[i].Removed? ==> ev[j].Removed?)
  }

  /** The records `SyncFile` writes for one source file. */
  function FileEvents(p: Path, d: Decision, failed: bool): (ev: seq<Event>)
    ensures forall e :: e in ev ==> e.path == p && !e.Removed?
    ensures NoRepeats(ev)
    ensures Created(p) in ev <==> d == CreateFile
    ensures Updated(p) in ev <==> d == UpdateFile
    ensures CopyFailed(p) in ev <==> Copies(d) && failed
  {
    var copy := if Copies(d) && failed then [CopyFailed(p)] else [];
    match d
    case CreateFile => [Created(p)] + copy
    case UpdateFile => [Updated(p)] + copy
    case _ => []
  }

  // ---------------------------------------------------------------------------
  // Facts the pass's proof uses

  /** The decision and outcome at `p` depend only on the entries at `p`. */
  lemma DecideIsLocal(src: Tree, r1: Tree, r2: Tree, md5: Bytes -> Digest, io: Io, p: Path)
    requires Get(r1, p) == Get(r2, p)
    ensures Decide(src, r1, md5, p) == Decide(src, r2, md5, p)
    ensures WalkFile(src, p) ==> FileTarget(src, r1, md5, io, p) == FileTarget(src, r2, md5, io, p)
  {
  }

  lemma Phase1At(src: Tree, rep: Tree, md5: Bytes -> Digest, io: Io, p: Path)
    ensures Get(Phase1Tree(src, rep, md5, io), p) == AfterPhase1(src, rep, md5, io, p)
  {
    if p !in src.Keys + rep.Keys + {[]} {
      assert AfterPhase1(src, rep, md5, io, p) == None;
    }
  }

  lemma PrunedAt(t: Tree, src: Tree, p: Path)
    ensures Get(Pruned(t, src), p) == if Stale(t, src, p) then None else Get(t, p)
  {
  }

  /** Phase 1 neither creates nor removes stale files. */
  lemma {:induction false} Phase1KeepsStale(src: Tree, rep: Tree, md5: Bytes -> Digest, io: Io, p: Path)
    requires Phase1Ok(src, rep, io)
    ensures Stale(Phase1Tree(src, rep, md5, io), src, p) <==> Stale(rep, src, p)
  {
    Phase1At(src, rep, md5, io, p);
  }

  /** Whether phase 2 raises is the same question on the replica before and
      after phase 1, since phase 1 neither adds nor removes stale files. */
  lemma Phase2OkAfterPhase1(src: Tree, rep: Tree, md5: Bytes -> Digest, io: Io)
    requires Phase1Ok(src, rep, io)
    ensures Phase2Ok(Phase1Tree(src, rep, md5, io), src, io) <==> Phase2Ok(rep, src, io)
  {
    forall p ensures Stale(Phase1Tree(src, rep, md5, io), src, p) <==> Stale(rep, src, p) {
      Phase1KeepsStale(src, rep, md5, io, p);
    }
  }

  /** The phase 1 records about every source file followed by the phase 2
      removals of every stale file make the log of the whole call. */
  lemma SyncLogCompose(ev1: seq<Event>, ev2: seq<Event>, src: Tree, rep: Tree, md5: Bytes -> Digest, io: Io)
    requires CopyLog(ev1, src, rep, md5, io, SourceFiles(src))
    requires forall i :: 0 <= i < |ev2| ==> ev2[i].Removed?
    requires NoRepeats(ev2)
    requires forall q :: Removed(q) in ev2 <==> Stale(rep, src, q)
    ensures SyncLog(ev1 + ev2, src, rep, md5, io)
  {
    forall e | e in ev2 ensures e.Removed? {
      var i :| 0 <= i < |ev2| && ev2[i] == e;
    }
    forall k | 0 <= k < |ev1| ensures !ev1[k].Removed? {
      assert ev1[k] in ev1;
    }
    forall i, j | 0 <= i < j < |ev1 + ev2| && (ev1 + ev2)[i].Removed? ensures (ev1 + ev2)[j].Removed? {
      assert (ev1 + ev2)[j] == ev2[j - |ev1|];
    }
    forall i, j | 0 <= i < j < |ev1 + ev2| ensures (ev1 + ev2)[i] != (ev1 + ev2)[j] {
      if j < |ev1| {
        assert (ev1 + ev2)[i] == ev1[i] && (ev1 + ev2)[j] == ev1[j];
      } else if i < |ev1| {
        assert (ev1 + ev2)[i] == ev1[i] && (ev1 + ev2)[j] == ev2[j - |ev1|];
      } else {
        assert (ev1 + ev2)[i] == ev2[i - |ev1|] && (ev1 + ev2)[j] == ev2[j - |ev1|];
      }
    }
  }

  /** What the replica holds at `p` after a call that raised nothing. */
  lemma {:induction false} SyncedAt(src: Tree, rep: Tree, md5: Bytes -> Digest, io: Io, p: Path)
    requires Phase1Ok(src, rep, io)
    ensures Get(Synced(src, rep, md5, io), p)
         == if Stale(rep, src, p) then None else AfterPhase1(src, rep, md5, io, p)
  {
    Phase1At(src, rep, md5, io, p);
    PrunedAt(Phase1Tree(src, rep, md5, io), src, p);
    Phase1KeepsStale(src, rep, md5, io, p);
  }

  /** A phase 1 log about `scope` reads the same against any replica that
      agrees on `scope`. */
  lemma CopyLogTransfer(ev: seq<Event>, src: Tree, r1: Tree, r2: Tree, md5: Bytes -> Digest, io: Io, scope: set<Path>)
    requires forall q :: q in scope ==> Get(r1, q) == Get(r2, q)
    requires CopyLog(ev, src, r1, md5, io, scope)
    ensures CopyLog(ev, src, r2, md5, io, scope)
  {
    forall q | q in scope ensures Decide(src, r1, md5, q) == Decide(src, r2, md5, q) {
      DecideIsLocal(src, r1, r2, md5, io, q);
    }
  }

  /** The logs of two disjoint sets of files together log their union. */
  lemma CopyLogAppend(ev1: seq<Event>, ev2: seq<Event>, src: Tree, rep: Tree, md5: Bytes -> Digest, io: Io, s1: set<Path>, s2: set<Path>)
    requires CopyLog(ev1, src, rep, md5, io, s1) && CopyLog(ev2, src, rep, md5, io, s2)
    requires s1 !! s2
    ensures CopyLog(ev1 + ev2, src, rep, md5, io, s1 + s2)
  {
    var ev := ev1 + ev2;
    forall i, j | 0 <= i < j < |ev| ensures ev[i] != ev[j] {
      if j < |ev1| {
        assert ev[i] == ev1[i] && ev[j] == ev1[j];
      } else if i < |ev1| {
        assert ev[i] == ev1[i] && ev[j] == ev2[j - |ev1|];
        assert ev1[i] in ev1 && ev2[j - |ev1|] in ev2;
      } else {
        assert ev[i] == ev2[i - |ev1|] && ev[j] == ev2[j - |ev1|];
      }
    }
  }

  /** Progress of one step of the first walk over directory `d`: `d` is a
      directory, the files in `done` are handled, all else is as in `rep`. */
  ghost predicate DirProgress(cur: Tree, src: Tree, rep: Tree, md5: Bytes -> Digest, io: Io, d: Path, done: set<Path>) {
    forall q :: Get(cur, q) ==
      (if q == d then Some(Dir)
       else if q in done && WalkFile(src, q) then FileTarget(src, rep, md5, io, q)
       else Get(rep, q))
  }

  lemma DirProgressStep(cur: Tree, next: Tree, src: Tree, rep: Tree, md5: Bytes -> Digest, io: Io, d: Path, done: set<Path>, p: Path)
    requires DirProgress(cur, src, rep, md5, io, d, done)
    requires p != d && p !in done && WalkFile(src, p)
    requires next == Put(cur, p, FileTarget(src, cur, md5, io, p))
    ensures Get(cur, p) == Get(rep, p)
    ensures DirProgress(next, src, rep, md5, io, d, done + {p})
  {
    assert Get(cur, p) == Get(rep, p);
    DecideIsLocal(src, cur, rep, md5, io, p);
  }
}
