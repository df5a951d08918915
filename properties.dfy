/** What the documented behaviour of the synchronisation pass comes to, proved
    about the replica `Synced` describes and the log `SyncLog` describes:
    mirroring, exact pruning, fault isolation, convergence and idempotence. */
module Properties {
  import opened FileTree
  import opened Digest
  import opened SyncSpec

  /** A filesystem on which nothing fails. */
  predicate NoFaults(io: Io) {
    && io.copyFaults == map[]
    && io.unreadableSource == {}
    && io.unreadableReplica == {}
    && io.unlinkFails == {}
  }

  /** Equal digests mean equal contents. MD5 does not have this property; the
      lemmas that assume it say so. */
  ghost predicate CollisionFree(md5: Bytes -> Digest) {
    forall a, b :: md5(a) == md5(b) ==> a == b
  }

  /** The two folders can be mirrored: the replica root is not a file, no
      source directory meets a replica file and no source file meets a
      replica directory. */
  ghost predicate Compatible(src: Tree, rep: Tree) {
    && !IsFile(rep, [])
    && (forall d :: IsDir(src, d) ==> !IsFile(rep, d))
    && (forall p :: WalkFile(src, p) ==> !IsDir(rep, p))
  }

  function WithCopyFault(io: Io, p: Path, f: CopyFault): Io {
    io.(copyFaults := io.copyFaults[p := f])
  }

  // ---------------------------------------------------------------------------
  // Mirroring

  /** After a call that raises nothing the replica root and every source
      directory are directories in the replica, and no replica directory is
      removed. */
  lemma DirectoriesMirrored(src: Tree, rep: Tree, md5: Bytes -> Digest, io: Io)
    requires Phase1Ok(src, rep, io)
    ensures IsDir(Synced(src, rep, md5, io), [])
    ensures forall d :: IsDir(src, d) ==> IsDir(Synced(src, rep, md5, io), d)
    ensures forall d :: IsDir(rep, d) ==> IsDir(Synced(src, rep, md5, io), d)
  {
    forall d | d == [] || IsDir(src, d) || IsDir(rep, d) ensures IsDir(Synced(src, rep, md5, io), d) {
      SyncedAt(src, rep, md5, io, d);
    }
  }

  /** A source file whose copy does not fail ends up as a file with the
      source's digest: the source's bytes when it was copied, the replica's
      own bytes when the digests already matched. */
  lemma FilesMirrored(src: Tree, rep: Tree, md5: Bytes -> Digest, io: Io, p: Path)
    requires Phase1Ok(src, rep, io) && WalkFile(src, p) && Fault(io, p).None?
    ensures IsFile(Synced(src, rep, md5, io), p)
    ensures md5(Synced(src, rep, md5, io)[p].data) == md5(src[p].data)
    ensures Copies(Decide(src, rep, md5, p)) ==> Get(Synced(src, rep, md5, io), p) == Some(src[p])
    ensures !Copies(Decide(src, rep, md5, p)) ==> Get(Synced(src, rep, md5, io), p) == Get(rep, p)
  {
    SyncedAt(src, rep, md5, io, p);
  }

  /** With a digest free of collisions, every such file is byte-identical to
      its source. */
  lemma BytesMirrored(src: Tree, rep: Tree, md5: Bytes -> Digest, io: Io, p: Path)
    requires CollisionFree(md5)
    requires Phase1Ok(src, rep, io) && WalkFile(src, p) && Fault(io, p).None?
    ensures Get(Synced(src, rep, md5, io), p) == Some(src[p])
  {
    FilesMirrored(src, rep, md5, io, p);
    var t := Synced(src, rep, md5, io);
    assert md5(t[p].data) == md5(src[p].data);
  }

  /** A replica file whose digest matches its source is skipped: it keeps its
      bytes and no record names it. */
  lemma MatchingDigestUntouched(src: Tree, rep: Tree, md5: Bytes -> Digest, io: Io, p: Path, ev: seq<Event>)
    requires Phase1Ok(src, rep, io) && WalkFile(src, p)
    requires IsFile(rep, p) && md5(rep[p].data) == md5(src[p].data)
    ensures Decide(src, rep, md5, p) == SkipFile
    ensures Get(Synced(src, rep, md5, io), p) == Get(rep, p)
    ensures SyncLog(ev, src, rep, md5, io) ==>
      Created(p) !in ev && Updated(p) !in ev && CopyFailed(p) !in ev && Removed(p) !in ev
  {
    SyncedAt(src, rep, md5, io, p);
  }

  // ---------------------------------------------------------------------------
  // Pruning

  /** A replica entry disappears exactly when it is a stale file; so nothing
      that exists in the source, and no directory, is removed; and nothing
      appears that is in neither folder, except the replica root. */
  lemma PruneExact(src: Tree, rep: Tree, md5: Bytes -> Digest, io: Io)
    requires Phase1Ok(src, rep, io)
    ensures forall q :: q in rep ==> (q !in Synced(src, rep, md5, io) <==> Stale(rep, src, q))
    ensures forall q :: q in rep && q in src ==> q in Synced(src, rep, md5, io)
    ensures forall q :: q in Synced(src, rep, md5, io) ==> q == [] || q in src || q in rep
  {
    forall q ensures Get(Synced(src, rep, md5, io), q)
                  == if Stale(rep, src, q) then None else AfterPhase1(src, rep, md5, io, q) {
      SyncedAt(src, rep, md5, io, q);
    }
  }

  /** With no source at all (`os.walk` of a missing folder yields nothing),
      a call removes every file of the replica and keeps its directories. */
  lemma MissingSource(rep: Tree, md5: Bytes -> Digest, io: Io)
    requires !IsFile(rep, [])
    ensures SyncOk(map[], rep, io) <==> forall p :: p != [] && IsFile(rep, p) ==> p !in io.unlinkFails
    ensures forall p :: !IsFile(Synced(map[], rep, md5, io), p)
    ensures forall p :: IsDir(Synced(map[], rep, md5, io), p) <==> p == [] || IsDir(rep, p)
  {
    forall p ensures Get(Synced(map[], rep, md5, io), p)
                  == if Stale(rep, map[], p) then None else AfterPhase1(map[], rep, md5, io, p) {
      SyncedAt(map[], rep, md5, io, p);
    }
  }

  // ---------------------------------------------------------------------------
  // Faults

  /** A failing copy does not stop the call: whether it raises is unchanged,
      every other path ends up as it would have, and the failing path holds
      what the interrupted copy left. */
  lemma CopyFaultIsLocal(src: Tree, rep: Tree, md5: Bytes -> Digest, io: Io, p: Path, f: CopyFault)
    requires Phase1Ok(src, rep, io)
    ensures SyncOk(src, rep, WithCopyFault(io, p, f)) <==> SyncOk(src, rep, io)
    ensures forall q :: q != p ==>
      Get(Synced(src, rep, md5, WithCopyFault(io, p, f)), q) == Get(Synced(src, rep, md5, io), q)
    ensures WalkFile(src, p) && Copies(Decide(src, rep, md5, p)) ==>
      Get(Synced(src, rep, md5, WithCopyFault(io, p, f)), p) == Written(src[p].data, Some(f), Get(rep, p))
  {
    var io' := WithCopyFault(io, p, f);
    assert Phase1Ok(src, rep, io');
    forall q ensures Get(Synced(src, rep, md5, io'), q)
                  == if Stale(rep, src, q) then None else AfterPhase1(src, rep, md5, io', q) {
      SyncedAt(src, rep, md5, io', q);
    }
    forall q ensures Get(Synced(src, rep, md5, io), q)
                  == if Stale(rep, src, q) then None else AfterPhase1(src, rep, md5, io, q) {
      SyncedAt(src, rep, md5, io, q);
    }
  }

  /** The faults outside `copy_file` abort the call: a replica root that is
      a file, a source directory that meets a replica file, a source file
      that meets a replica directory, a file that cannot be opened for
      hashing, and an unlink that is refused. */
  lemma FaultsThatAbort(src: Tree, rep: Tree, io: Io, p: Path)
    ensures IsFile(rep, []) ==> !SyncOk(src, rep, io)
    ensures IsDir(src, p) && IsFile(rep, p) ==> !SyncOk(src, rep, io)
    ensures WalkFile(src, p) && IsDir(rep, p) ==> !SyncOk(src, rep, io)
    ensures WalkFile(src, p) && p in rep && (p in io.unreadableSource || p in io.unreadableReplica) ==>
      !SyncOk(src, rep, io)
    ensures Stale(rep, src, p) && p in io.unlinkFails ==> !SyncOk(src, rep, io)
  {
    if IsDir(src, p) && IsFile(rep, p) {
      assert !DirOk(rep, p);
    }
    if WalkFile(src, p) && p in rep && (IsDir(rep, p) || p in io.unreadableSource || p in io.unreadableReplica) {
      assert !FileOk(rep, io, p);
    }
  }

  // ---------------------------------------------------------------------------
  // Convergence and idempotence

  lemma ConvergenceAt(src: Tree, rep: Tree, md5: Bytes -> Digest, io: Io, p: Path)
    requires NoFaults(io) && Compatible(src, rep)
    ensures IsFile(Synced(src, rep, md5, io), p) <==> WalkFile(src, p)
    ensures IsDir(Synced(src, rep, md5, io), p) <==> p == [] || IsDir(src, p) || IsDir(rep, p)
    ensures WalkFile(src, p) ==> md5(Synced(src, rep, md5, io)[p].data) == md5(src[p].data)
  {
    assert Phase1Ok(src, rep, io);
    SyncedAt(src, rep, md5, io, p);
  }

  /** On a filesystem where nothing fails, a call raises exactly when the
      folders cannot be mirrored; otherwise the replica's files are the
      source's files, each with the source's digest (with a digest free of
      collisions, its bytes), and its directories are the source's plus the
      ones it had. */
  lemma Convergence(src: Tree, rep: Tree, md5: Bytes -> Digest, io: Io)
    requires NoFaults(io)
    ensures SyncOk(src, rep, io) <==> Compatible(src, rep)
    ensures Compatible(src, rep) ==>
      forall p :: IsFile(Synced(src, rep, md5, io), p) <==> WalkFile(src, p)
    ensures Compatible(src, rep) ==>
      forall p :: IsDir(Synced(src, rep, md5, io), p) <==> p == [] || IsDir(src, p) || IsDir(rep, p)
    ensures Compatible(src, rep) ==>
      forall p :: WalkFile(src, p) ==> md5(Synced(src, rep, md5, io)[p].data) == md5(src[p].data)
    ensures Compatible(src, rep) && CollisionFree(md5) ==>
      forall p :: WalkFile(src, p) ==> Get(Synced(src, rep, md5, io), p) == Some(src[p])
  {
    if SyncOk(src, rep, io) {
      forall d | IsDir(src, d) ensures !IsFile(rep, d) {
        assert DirOk(rep, d);
      }
      forall p | WalkFile(src, p) ensures !IsDir(rep, p) {
        assert FileOk(rep, io, p);
      }
    }
    if Compatible(src, rep) {
      forall p ensures
        && (IsFile(Synced(src, rep, md5, io), p) <==> WalkFile(src, p))
        && (IsDir(Synced(src, rep, md5, io), p) <==> p == [] || IsDir(src, p) || IsDir(rep, p))
        && (WalkFile(src, p) ==> md5(Synced(src, rep, md5, io)[p].data) == md5(src[p].data))
      {
        ConvergenceAt(src, rep, md5, io, p);
      }
      if CollisionFree(md5) {
        forall p | WalkFile(src, p) ensures Get(Synced(src, rep, md5, io), p) == Some(src[p]) {
          BytesMirrored(src, rep, md5, io, p);
        }
      }
    }
  }

  // ---------------------------------------------------------------------------
  // Counting records

  /** In a log without repeats every record appears exactly once. */
  lemma {:induction false} OnceEach(ev: seq<Event>)
    requires NoRepeats(ev)
    ensures forall e :: e in ev ==> multiset(ev)[e] == 1
    decreases |ev|
  {
    if ev != [] {
      var rest := ev[1..];
      assert NoRepeats(rest) by {
        forall i, j | 0 <= i < j < |rest| ensures rest[i] != rest[j] {
          assert rest[i] == ev[i + 1] && rest[j] == ev[j + 1];
        }
      }
      OnceEach(rest);
      assert ev == [ev[0]] + rest;
      assert multiset(ev) == multiset{ev[0]} + multiset(rest);
      assert ev[0] !in rest by {
        forall k | 0 <= k < |rest| ensures rest[k] != ev[0] {
          assert rest[k] == ev[k + 1];
        }
      }
      forall e | e in ev && e != ev[0] ensures e in rest {
        var i :| 0 <= i < |ev| && ev[i] == e;
        assert rest[i - 1] == e;
      }
    }
  }

  /** A log without repeats that holds only the record `e` is `[e]`. */
  lemma OnlyRecord(ev: seq<Event>, e: Event)
    requires NoRepeats(ev) && forall x :: x in ev <==> x == e
    ensures ev == [e]
  {
    assert e in ev;
    assert ev[0] in ev && ev[|ev| - 1] in ev;
  }

  /** Into an empty replica, a call on a fault-free filesystem copies the
      whole source and logs exactly one creation per source file and nothing
      else. */
  lemma CopyIntoEmpty(src: Tree, md5: Bytes -> Digest, io: Io, ev: seq<Event>)
    requires NoFaults(io) && IsDir(src, [])
    ensures SyncOk(src, map[], io)
    ensures Synced(src, map[], md5, io) == src
    ensures SyncLog(ev, src, map[], md5, io) ==>
      forall e :: e in ev <==> e.Created? && WalkFile(src, e.path)
    ensures SyncLog(ev, src, map[], md5, io) ==>
      forall p :: WalkFile(src, p) ==> multiset(ev)[Created(p)] == 1
  {
    forall q ensures Get(Synced(src, map[], md5, io), q) == Get(src, q) {
      SyncedAt(src, map[], md5, io, q);
    }
    SameEntries(Synced(src, map[], md5, io), src);
    if SyncLog(ev, src, map[], md5, io) {
      forall e ensures e in ev <==> e.Created? && WalkFile(src, e.path) {
        assert e == Created(e.path) || e == Updated(e.path) || e == Removed(e.path) || e == CopyFailed(e.path);
      }
      OnceEach(ev);
    }
  }

  /** What a call that raised nothing, with no failed copy, leaves at `p`,
      seen by the next call: nothing to copy or delete, and nothing that
      changes. */
  lemma SyncedAtRest(src: Tree, rep: Tree, md5: Bytes -> Digest, io: Io, io2: Io, p: Path)
    requires SyncOk(src, rep, io) && io.copyFaults == map[]
    ensures Decide(src, Synced(src, rep, md5, io), md5, p) == if WalkFile(src, p) then SkipFile else NoAction
    ensures !Stale(Synced(src, rep, md5, io), src, p)
    ensures p == [] || IsDir(src, p) ==> IsDir(Synced(src, rep, md5, io), p)
    ensures WalkFile(src, p) ==> IsFile(Synced(src, rep, md5, io), p)
    ensures Get(Phase1Tree(src, Synced(src, rep, md5, io), md5, io2), p) == Get(Synced(src, rep, md5, io), p)
  {
    var t := Synced(src, rep, md5, io);
    SyncedAt(src, rep, md5, io, p);
    Phase1At(src, t, md5, io2, p);
  }

  /** A second call right after a successful one without failed copies finds
      nothing to copy or delete and leaves the replica as it is; it raises
      only if a source file or its replica copy cannot be opened for
      hashing. */
  lemma Idempotent(src: Tree, rep: Tree, md5: Bytes -> Digest, io: Io, io2: Io)
    requires SyncOk(src, rep, io) && io.copyFaults == map[]
    ensures forall p :: Decide(src, Synced(src, rep, md5, io), md5, p) == if WalkFile(src, p) then SkipFile else NoAction
    ensures Synced(src, Synced(src, rep, md5, io), md5, io2) == Synced(src, rep, md5, io)
    ensures SyncOk(src, Synced(src, rep, md5, io), io2) <==>
      forall p :: WalkFile(src, p) ==> p !in io2.unreadableSource && p !in io2.unreadableReplica
  {
    var t := Synced(src, rep, md5, io);
    var p1 := Phase1Tree(src, t, md5, io2);
    forall p ensures
      && Decide(src, t, md5, p) == (if WalkFile(src, p) then SkipFile else NoAction)
      && !Stale(t, src, p)
      && (p == [] || IsDir(src, p) ==> IsDir(t, p))
      && (WalkFile(src, p) ==> IsFile(t, p))
      && Get(p1, p) == Get(t, p)
    {
      SyncedAtRest(src, rep, md5, io, io2, p);
    }
    forall q ensures Get(Pruned(p1, src), q) == Get(t, q) {
      PrunedAt(p1, src, q);
      assert Get(p1, q) == Get(t, q);
    }
    SameEntries(Pruned(p1, src), t);
  }

  lemma FirstIsElement<T>(s: seq<T>)
    requires s != []
    ensures s[0] in s
  {
  }

  /** So the second call writes no record at all. */
  lemma SecondRunQuiet(src: Tree, rep: Tree, md5: Bytes -> Digest, io: Io, io2: Io, ev: seq<Event>)
    requires SyncOk(src, rep, io) && io.copyFaults == map[]
    requires SyncLog(ev, src, Synced(src, rep, md5, io), md5, io2)
    ensures ev == []
  {
    Idempotent(src, rep, md5, io, io2);
    forall e ensures e !in ev {
      assert e == Created(e.path) || e == Updated(e.path) || e == Removed(e.path) || e == CopyFailed(e.path);
    }
    if ev != [] {
      FirstIsElement(ev);
      assert false;
    }
  }

  /** For a file moved from `a` to `b` in the source, the copy to `b` is
      attempted before `a` is removed: every creation record precedes every
      removal record. Whether that copy succeeded is not checked, see
      `MovedFileLostScenario`. */
  lemma CopyBeforeRemove(ev: seq<Event>, src: Tree, rep: Tree, md5: Bytes -> Digest, io: Io, a: Path, b: Path)
    requires SyncLog(ev, src, rep, md5, io)
    requires Decide(src, rep, md5, b) == CreateFile && Decide(src, rep, md5, a) == DeleteFile
    ensures exists i, j :: 0 <= i < j < |ev| && ev[i] == Created(b) && ev[j] == Removed(a)
  {
    var i :| 0 <= i < |ev| && ev[i] == Created(b);
    var j :| 0 <= j < |ev| && ev[j] == Removed(a);
    assert i < j;
  }

  // ---------------------------------------------------------------------------
  // Scenarios

  const NoIo := Io(map[], {}, {}, {})

  /** `dir1/file1.txt` holding "x" is copied into a replica folder that does
      not exist yet, with one creation record. */
  lemma FirstRunScenario(md5: Bytes -> Digest, ev: seq<Event>)
    ensures var src := map[[] := Dir, ["dir1"] := Dir, ["dir1", "file1.txt"] := File([120])];
      && SyncOk(src, map[], NoIo)
      && Synced(src, map[], md5, NoIo) == src
      && (SyncLog(ev, src, map[], md5, NoIo) ==> ev == [Created(["dir1", "file1.txt"])])
  {
    var src := map[[] := Dir, ["dir1"] := Dir, ["dir1", "file1.txt"] := File([120])];
    CopyIntoEmpty(src, md5, NoIo, ev);
    forall p ensures WalkFile(src, p) <==> p == ["dir1", "file1.txt"] {
    }
    if SyncLog(ev, src, map[], md5, NoIo) {
      OnlyRecord(ev, Created(["dir1", "file1.txt"]));
    }
  }

  const StaleSource: Tree := map[[] := Dir, ["a.txt"] := File([1])]
  const StaleReplica: Tree := map[[] := Dir, ["a.txt"] := File([1]), ["old.txt"] := File([2]), ["sub"] := Dir]

  /** A replica file with no source counterpart is removed, a file with the
      same contents is left alone, and a replica directory with no source
      counterpart stays. */
  lemma PruneScenario(md5: Bytes -> Digest)
    ensures SyncOk(StaleSource, StaleReplica, NoIo)
    ensures Synced(StaleSource, StaleReplica, md5, NoIo) == map[[] := Dir, ["a.txt"] := File([1]), ["sub"] := Dir]
  {
    var want := map[[] := Dir, ["a.txt"] := File([1]), ["sub"] := Dir];
    assert Phase1Ok(StaleSource, StaleReplica, NoIo);
    forall q ensures Get(Synced(StaleSource, StaleReplica, md5, NoIo), q) == Get(want, q) {
      SyncedAt(StaleSource, StaleReplica, md5, NoIo, q);
    }
    SameEntries(Synced(StaleSource, StaleReplica, md5, NoIo), want);
  }

  /** The only record of that call is the removal of the stale file. */
  lemma PruneScenarioLog(md5: Bytes -> Digest, ev: seq<Event>)
    requires SyncLog(ev, StaleSource, StaleReplica, md5, NoIo)
    ensures ev == [Removed(["old.txt"])]
  {
    forall p ensures Decide(StaleSource, StaleReplica, md5, p)
                  == if p == ["old.txt"] then DeleteFile else if p == ["a.txt"] then SkipFile else NoAction {
    }
    forall e ensures e in ev <==> e == Removed(["old.txt"]) {
      assert e == Created(e.path) || e == Updated(e.path) || e == Removed(e.path) || e == CopyFailed(e.path);
    }
    OnlyRecord(ev, Removed(["old.txt"]));
  }

  const TwoFiles: Tree := map[[] := Dir, ["a"] := File([1]), ["b"] := File([2])]
  const FirstCopyFails := Io(map[["a"] := Untouched], {}, {}, {})

  /** A copy that fails leaves its destination as it was and the call goes
      on to the next file. */
  lemma CopyFaultScenario(md5: Bytes -> Digest)
    ensures SyncOk(TwoFiles, map[], FirstCopyFails)
    ensures Synced(TwoFiles, map[], md5, FirstCopyFails) == map[[] := Dir, ["b"] := File([2])]
  {
    var want := map[[] := Dir, ["b"] := File([2])];
    assert Phase1Ok(TwoFiles, map[], FirstCopyFails);
    forall q ensures Get(Synced(TwoFiles, map[], md5, FirstCopyFails), q) == Get(want, q) {
      SyncedAt(TwoFiles, map[], md5, FirstCopyFails, q);
    }
    SameEntries(Synced(TwoFiles, map[], md5, FirstCopyFails), want);
  }

  /** Both creations are logged, and the failure of the first copy. */
  lemma CopyFaultScenarioLog(md5: Bytes -> Digest, ev: seq<Event>)
    requires SyncLog(ev, TwoFiles, map[], md5, FirstCopyFails)
    ensures Created(["a"]) in ev && CopyFailed(["a"]) in ev && Created(["b"]) in ev && CopyFailed(["b"]) !in ev
  {
    assert Decide(TwoFiles, map[], md5, ["a"]) == CreateFile && Decide(TwoFiles, map[], md5, ["b"]) == CreateFile;
  }

  const MovedSource: Tree := map[[] := Dir, ["b"] := File([7])]
  const MovedReplica: Tree := map[[] := Dir, ["a"] := File([7])]
  const MoveCopyFails := Io(map[["b"] := Untouched], {}, {}, {})

  /** A file moved from `a` to `b` whose copy to `b` fails is lost: the call
      raises nothing, and the replica holds it at neither path. */
  lemma MovedFileLostScenario(md5: Bytes -> Digest)
    ensures SyncOk(MovedSource, MovedReplica, MoveCopyFails)
    ensures Synced(MovedSource, MovedReplica, md5, MoveCopyFails) == map[[] := Dir]
  {
    var want: Tree := map[[] := Dir];
    assert Phase1Ok(MovedSource, MovedReplica, MoveCopyFails);
    forall q ensures Get(Synced(MovedSource, MovedReplica, md5, MoveCopyFails), q) == Get(want, q) {
      SyncedAt(MovedSource, MovedReplica, md5, MoveCopyFails, q);
    }
    SameEntries(Synced(MovedSource, MovedReplica, md5, MoveCopyFails), want);
  }

  /** A replica file that cannot be opened for hashing aborts the call. */
  lemma UnreadableReplicaScenario()
    ensures var src := map[[] := Dir, ["b.txt"] := File([1])];
      var rep := map[[] := Dir, ["b.txt"] := File([2])];
      !SyncOk(src, rep, Io(map[], {}, {["b.txt"]}, {}))
  {
    var src := map[[] := Dir, ["b.txt"] := File([1])];
    var rep := map[[] := Dir, ["b.txt"] := File([2])];
    FaultsThatAbort(src, rep, Io(map[], {}, {["b.txt"]}, {}), ["b.txt"]);
  }
}
