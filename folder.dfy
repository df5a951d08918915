/** `sync_folders` and `copy_file` as methods over the two folders they are
    given and the logger they write to. Every method is proved against the
    value-level description in module SyncSpec. */
module Folder {
  import opened FileTree
  import opened Digest
  import opened SyncSpec
  import opened Progress

  /** The source folder, the replica folder and the records the logger has
      received. The source is a constant: the pass never writes to it. */
  class Folders {
    const source: Tree
    var replica: Tree
    var log: seq<Event>

    ghost predicate Valid()
      reads this
    {
      WellFormed(source) && WellFormed(replica)
    }

    constructor (source: Tree, replica: Tree)
      requires WellFormed(source) && WellFormed(replica)
      ensures Valid() && this.source == source && this.replica == replica && log == []
    {
      this.source := source;
      this.replica := replica;
      log := [];
    }

    /** `copy_file(src, dst, logger)` from source path `from` to replica path
        `to`. Creating the parent directory happens outside the `try`, so its
        error escapes; every error of the copy itself is caught and logged. */
    method CopyFile(from: Path, to: Path, io: Io) returns (err: Option<Error>)
      requires Valid() && to != []
      modifies this
      ensures Valid()
      ensures MakeDirs(old(replica), Parent(to)).Err? ==>
        err == Some(MakeDirs(old(replica), Parent(to)).error) && replica == old(replica) && log == old(log)
      ensures MakeDirs(old(replica), Parent(to)).Ok? ==>
        var t := MakeDirs(old(replica), Parent(to)).value;
        var opens := IsFile(source, from) && !IsDir(t, to);
        && err == None
        && replica == (if opens then Put(t, to, Written(source[from].data, Fault(io, to), Get(t, to))) else t)
        && log == old(log) + (if !opens || Fault(io, to).Some? then [CopyFailed(to)] else [])
    {
      var made := MakeDirs(replica, Parent(to));
      if made.Err? {
        return Some(made.error);
      }
      replica := made.value;
      err := None;
      if !IsFile(source, from) || IsDir(replica, to) {
        // open(src, "rb") or open(dst, "wb") raises
        log := log + [CopyFailed(to)];
        return;
      }
      match Fault(io, to)
      case None =>
        PutFileKeepsWellFormed(replica, to, source[from].data);
        replica := replica[to := source[from]];
      case Some(Untouched) =>
        log := log + [CopyFailed(to)];
      case Some(Clobbered(left)) =>
        PutFileKeepsWellFormed(replica, to, left);
        replica := replica[to := File(left)];
        log := log + [CopyFailed(to)];
    }

    /** One iteration of `for file_name in files` in the first walk
        (lines 29-40), for source file `p`. */
    method SyncFile(p: Path, md5: Bytes -> Digest, io: Io) returns (err: Option<Error>)
      requires Valid() && WalkFile(source, p) && IsDir(replica, Parent(p))
      modifies this
      ensures Valid()
      ensures forall q :: IsDir(old(replica), q) ==> IsDir(replica, q)
      ensures err.None? <==> FileOk(old(replica), io, p)
      ensures err.None? ==> replica == Put(old(replica), p, FileTarget(source, old(replica), md5, io, p))
      ensures err.None? ==> log == old(log) + FileEvents(p, Decide(source, old(replica), md5, p), Fault(io, p).Some?)
      ensures err.Some? ==> replica == old(replica) && log == old(log)
    {
      MakeDirsOnDir(replica, Parent(p));
      if p !in replica {
        log := log + [Created(p)];
        err := CopyFile(p, p, io);
        return;
      }
      var sourceMd5 := CalculateMd5(md5, source, p, io.unreadableSource);
      if sourceMd5.Err? {
        return Some(sourceMd5.error);
      }
      var replicaMd5 := CalculateMd5(md5, replica, p, io.unreadableReplica);
      if replicaMd5.Err? {
        return Some(replicaMd5.error);
      }
      if sourceMd5.value != replicaMd5.value {
        log := log + [Updated(p)];
        err := CopyFile(p, p, io);
      } else {
        assert Put(replica, p, Get(replica, p)) == replica;
        err := None;
      }
    }
    /** One step of the first walk (lines 23-40): `mkdir(exist_ok=True)` of
        the replica counterpart of source directory `d`, then every file of
        `d`, stopping at the first error that escapes. */
    method SyncDir(d: Path, md5: Bytes -> Digest, io: Io) returns (err: Option<Error>, ghost ev: seq<Event>)
      requires Valid() && IsDir(source, d)
      requires if d == [] then IsDir(replica, []) else IsDir(replica, Parent(d))
      modifies this
      ensures Valid() && log == old(log) + ev
      ensures forall q :: IsDir(old(replica), q) ==> IsDir(replica, q)
      ensures err.None? <==> DirOk(old(replica), d) && forall q :: q in FilesIn(source, d) ==> FileOk(old(replica), io, q)
      ensures err.None? ==> DirProgress(replica, source, old(replica), md5, io, d, FilesIn(source, d))
      ensures err.None? ==> CopyLog(ev, source, old(replica), md5, io, FilesIn(source, d))
    {
      var made := MakeDir(replica, d);
      if made.Err? {
        return Some(made.error), [];
      }
      if d !in replica {
        AddDirKeepsWellFormed(replica, d);
      }
      ghost var before := replica;
      replica := made.value;
      assert forall q :: q != d ==> Get(replica, q) == Get(before, q);
      var names := ListFiles(source, d);
      err, ev := SyncFiles(d, names, before, md5, io);
    }

    /** One iteration of the inner loop `for file_name in files` of the
        first walk (lines 29-40): the `j`-th file name of source directory `d`. */
    method SyncNth(d: Path, names: seq<Name>, j: nat, ghost rep: Tree, ghost done: set<Path>, ghost ev: seq<Event>,
                   md5: Bytes -> Digest, io: Io) returns (err: Option<Error>, ghost fileEv: seq<Event>)
      requires Valid() && FilesLoop(replica, ev, source, rep, md5, io, d, names, j, done) && j < |names|
      modifies this
      ensures Valid() && log == old(log) + fileEv
      ensures forall q :: IsDir(old(replica), q) ==> IsDir(replica, q)
      ensures Child(d, names[j]) in FilesIn(source, d)
      ensures err.None? <==> FileOk(rep, io, Child(d, names[j]))
      ensures err.None? ==>
        FilesLoop(replica, ev + fileEv, source, rep, md5, io, d, names, j + 1, done + {Child(d, names[j])})
    {
      var p := Child(d, names[j]);
      FilesLoopStep(replica, ev, source, rep, md5, io, d, names, j, done);
      err := SyncFile(p, md5, io);
      fileEv := if err.None? then FileEvents(p, Decide(source, rep, md5, p), Fault(io, p).Some?) else [];
    }

    /** The inner loop `for file_name in files` of the first walk
        (lines 28-40) over the file names `names` of source directory `d`,
        just after the replica counterpart of `d` was made; `rep` is the
        replica as it was before that. */
    method SyncFiles(d: Path, names: seq<Name>, ghost rep: Tree, md5: Bytes -> Digest, io: Io)
      returns (err: Option<Error>, ghost ev: seq<Event>)
      requires Valid() && IsDir(replica, d) && DirOk(rep, d)
      requires forall q :: q != d ==> Get(replica, q) == Get(rep, q)
      requires forall i, j :: 0 <= i < j < |names| ==> names[i] != names[j]
      requires forall n :: n in names <==> IsFile(source, Child(d, n))
      modifies this
      ensures Valid() && log == old(log) + ev
      ensures forall q :: IsDir(old(replica), q) ==> IsDir(replica, q)
      ensures err.None? <==> forall q :: q in FilesIn(source, d) ==> FileOk(rep, io, q)
      ensures err.None? ==> DirProgress(replica, source, rep, md5, io, d, FilesIn(source, d))
      ensures err.None? ==> CopyLog(ev, source, rep, md5, io, FilesIn(source, d))
    {
      ev := [];
      ghost var done: set<Path> := {};
      var j := 0;
      FilesLoopStart(replica, source, rep, md5, io, d, names);
      while j < |names|
        invariant j <= |names|
        invariant Valid() && log == old(log) + ev
        invariant forall q :: IsDir(old(replica), q) ==> IsDir(replica, q)
        invariant FilesLoop(replica, ev, source, rep, md5, io, d, names, j, done)
      {
        var e, fileEv := SyncNth(d, names, j, rep, done, ev, md5, io);
        AppendAssoc(old(log), ev, fileEv);
        if e.Some? {
          return e, ev + fileEv;
        }
        ev := ev + fileEv;
        done := done + {Child(d, names[j])};
        j := j + 1;
      }
      FilesLoopEnd(replica, ev, source, rep, md5, io, d, names, done);
      err := None;
    }

    /** One step of the first walk, for the `i`-th directory of `dirs`. */
    method MirrorNth(dirs: seq<Path>, i: nat, ghost rep: Tree, ghost scope: set<Path>, ghost ev: seq<Event>,
                     md5: Bytes -> Digest, io: Io) returns (err: Option<Error>, ghost evd: seq<Event>)
      requires Valid() && WalkLoop(replica, ev, source, rep, md5, io, dirs, i, scope) && i < |dirs|
      modifies this
      ensures Valid() && log == old(log) + evd
      ensures forall q :: IsDir(old(replica), q) ==> IsDir(replica, q)
      ensures err.Some? ==> !Phase1Ok(source, rep, io)
      ensures err.None? ==> WalkLoop(replica, ev + evd, source, rep, md5, io, dirs, i + 1, scope + FilesIn(source, dirs[i]))
    {
      WalkLoopVisit(replica, ev, source, rep, md5, io, dirs, i, scope);
      ghost var cur := replica;
      err, evd := SyncDir(dirs[i], md5, io);
      if err.None? {
        WalkLoopNext(cur, replica, ev, evd, source, rep, md5, io, dirs, i, scope);
      }
    }

    /** The first half of `sync_folders` (lines 20-40): make the replica
        root, then walk the source top-down, making each directory's
        counterpart and creating or updating its files. */
    method MirrorSource(md5: Bytes -> Digest, io: Io) returns (err: Option<Error>, ghost ev: seq<Event>)
      requires Valid()
      modifies this
      ensures Valid() && log == old(log) + ev
      ensures forall q :: IsDir(old(replica), q) ==> IsDir(replica, q)
      ensures err.None? <==> Phase1Ok(source, old(replica), io)
      ensures err.None? ==> replica == Phase1Tree(source, old(replica), md5, io)
      ensures err.None? ==> CopyLog(ev, source, old(replica), md5, io, SourceFiles(source))
    {
      var made := MakeDirs(replica, []);
      if made.Err? {
        assert IsFile(replica, []);
        return Some(made.error), [];
      }
      ghost var rep := replica;
      replica := made.value;
      var dirs := Walk(source);
      err, ev := MirrorDirs(dirs, rep, md5, io);
    }

    /** The loop `for root, dirs, files in os.walk(source_dir)` (lines 22-40)
        over the source directories `dirs`, once the replica root exists;
        `rep` is the replica before the root was made. */
    method MirrorDirs(dirs: seq<Path>, ghost rep: Tree, md5: Bytes -> Digest, io: Io)
      returns (err: Option<Error>, ghost ev: seq<Event>)
      requires Valid() && IsWalk(source, dirs) && !IsFile(rep, [])
      requires Get(replica, []) == Some(Dir) && forall q :: q != [] ==> Get(replica, q) == Get(rep, q)
      modifies this
      ensures Valid() && log == old(log) + ev
      ensures forall q :: IsDir(old(replica), q) ==> IsDir(replica, q)
      ensures err.None? <==> Phase1Ok(source, rep, io)
      ensures err.None? ==> replica == Phase1Tree(source, rep, md5, io)
      ensures err.None? ==> CopyLog(ev, source, rep, md5, io, SourceFiles(source))
    {
      WalkLoopStart(replica, source, rep, md5, io, dirs);
      assert forall q :: IsDir(old(replica), q) ==> q == [] || IsDir(rep, q) by {
        forall q | IsDir(old(replica), q) && q != [] ensures IsDir(rep, q) {
          assert Get(old(replica), q) == Get(rep, q);
        }
      }
      ev := [];
      ghost var scope: set<Path> := {};
      var i := 0;
      while i < |dirs|
        invariant i <= |dirs|
        invariant Valid() && log == old(log) + ev
        invariant WalkLoop(replica, ev, source, rep, md5, io, dirs, i, scope)
      {
        WalkLoopKeepsDirs(replica, ev, source, rep, md5, io, dirs, i, scope);
        ghost var cur := replica;
        var e, evd := MirrorNth(dirs, i, rep, scope, ev, md5, io);
        if e.Some? {
          forall q | IsDir(old(replica), q) ensures IsDir(replica, q) {
            assert IsDir(cur, q);
          }
          return e, ev + evd;
        }
        ev := ev + evd;
        scope := scope + FilesIn(source, dirs[i]);
        i := i + 1;
      }
      WalkLoopKeepsDirs(replica, ev, source, rep, md5, io, dirs, i, scope);
      WalkLoopEnd(replica, ev, source, rep, md5, io, dirs, scope);
      err := None;
    }

    /** One iteration of `for file_name in files` in the second walk
        (lines 47-52), for replica file `q`: unless the path exists in the
        source, log the removal and unlink the file. A refused unlink raises
        out of `sync_folders`, after its record was logged. */
    method PruneFile(q: Path, ghost rep: Tree, ghost done: set<Path>, ghost ev: seq<Event>, io: Io)
      returns (err: Option<Error>, ghost evq: seq<Event>)
      requires Valid() && PruneState(replica, ev, source, rep, io, done) && q !in done && WalkFile(rep, q)
      modifies this
      ensures Valid() && log == old(log) + evq
      ensures err.None? ==> PruneState(replica, ev + evq, source, rep, io, done + {q})
      ensures err.Some? ==> err == Some(UnlinkFailed(q)) && PruneSafe(replica, ev + evq, source, rep) && !Phase2Ok(rep, source, io)
    {
      assert Get(replica, q) == Get(rep, q);
      if q in source {
        PruneKeep(replica, ev, source, rep, io, done, q);
        return None, [];
      }
      log := log + [Removed(q)];
      evq := [Removed(q)];
      if q in io.unlinkFails {
        PruneFail(replica, ev, source, rep, io, done, q);
        return Some(UnlinkFailed(q)), evq;
      }
      RemoveFileKeepsWellFormed(replica, q);
      PruneRemove(replica, ev, source, rep, io, done, q);
      replica := replica - {q};
      err := None;
    }

    /** One step of the second walk (lines 43-52): every file directly inside
        replica directory `d`, stopping at the first refused unlink. */
    method PruneDir(d: Path, ghost rep: Tree, ghost done: set<Path>, ghost ev: seq<Event>, io: Io)
      returns (err: Option<Error>, ghost evd: seq<Event>)
      requires Valid() && PruneState(replica, ev, source, rep, io, done)
      requires forall q :: q in FilesIn(rep, d) ==> q !in done
      modifies this
      ensures Valid() && log == old(log) + evd
      ensures err.None? ==> PruneState(replica, ev + evd, source, rep, io, done + FilesIn(rep, d))
      ensures err.Some? ==> PruneSafe(replica, ev + evd, source, rep) && !Phase2Ok(rep, source, io)
    {
      PruneListing(replica, ev, source, rep, io, done, d);
      var names := ListFiles(replica, d);
      ListStart(rep, d, names);
      evd := [];
      ghost var here: set<Path> := {};
      var j := 0;
      while j < |names|
        invariant Valid() && log == old(log) + evd
        invariant Listed(rep, d, names, j, here)
        invariant PruneState(replica, ev + evd, source, rep, io, done + here)
      {
        var q := Child(d, names[j]);
        ListStep(rep, d, names, j, here);
        var e, evq := PruneFile(q, rep, done + here, ev + evd, io);
        AppendAssoc(ev, evd, evq);
        AppendAssoc(old(log), evd, evq);
        if e.Some? {
          return e, evd + evq;
        }
        evd := evd + evq;
        here := here + {q};
        j := j + 1;
      }
      ListComplete(rep, d, names, here);
      err := None;
    }

    /** The second half of `sync_folders` (lines 42-52): walk the replica
        top-down and unlink every file whose path does not exist in the
        source. Directories are never removed. */
    method PruneReplica(io: Io) returns (err: Option<Error>, ghost ev: seq<Event>)
      requires Valid()
      modifies this
      ensures Valid() && log == old(log) + ev
      ensures PruneSafe(replica, ev, source, old(replica))
      ensures err.None? <==> Phase2Ok(old(replica), source, io)
      ensures err.None? ==> replica == Pruned(old(replica), source)
      ensures err.None? ==> forall q :: Removed(q) in ev <==> Stale(old(replica), source, q)
      ensures err.None? ==> NoRepeats(ev)
    {
      ghost var rep := replica;
      var dirs := Walk(replica);
      ev := [];
      ghost var done: set<Path> := {};
      var i := 0;
      while i < |dirs|
        invariant Valid() && log == old(log) + ev
        invariant PruneLoop(replica, ev, source, rep, io, dirs, i, done)
      {
        PruneLoopVisit(replica, ev, source, rep, io, dirs, i, done);
        var e, evd := PruneDir(dirs[i], rep, done, ev, io);
        if e.Some? {
          return e, ev + evd;
        }
        ev := ev + evd;
        done := done + FilesIn(rep, dirs[i]);
        i := i + 1;
      }
      PruneLoopEnd(replica, ev, source, rep, io, dirs, done);
      PruneStateSafe(replica, ev, source, rep, io, done);
      err := None;
    }

    /** `sync_folders(source_dir, replica_dir, logger)` (lines 16-52): the
        first walk mirrors the source into the replica, the second removes
        the replica files the source does not have. Any exception either
        walk lets escape ends the call there. */
    method SyncFolders(md5: Bytes -> Digest, io: Io) returns (err: Option<Error>, ghost ev: seq<Event>)
      requires Valid()
      modifies this
      ensures Valid() && log == old(log) + ev
      ensures forall q :: IsDir(old(replica), q) ==> IsDir(replica, q)
      ensures err.None? <==> SyncOk(source, old(replica), io)
      ensures err.None? ==> replica == Synced(source, old(replica), md5, io)
      ensures err.None? ==> SyncLog(ev, source, old(replica), md5, io)
    {
      ghost var rep := replica;
      ghost var ev1, ev2;
      err, ev1 := MirrorSource(md5, io);
      if err.Some? {
        return err, ev1;
      }
      ghost var mid := replica;
      Phase2OkAfterPhase1(source, rep, md5, io);
      err, ev2 := PruneReplica(io);
      ev := ev1 + ev2;
      PruneSafeKeepsDirs(replica, ev2, source, mid);
      if err.None? {
        forall q ensures Stale(mid, source, q) <==> Stale(rep, source, q) {
          Phase1KeepsStale(source, rep, md5, io, q);
        }
        SyncLogCompose(ev1, ev2, source, rep, md5, io);
      }
    }
  }
}
