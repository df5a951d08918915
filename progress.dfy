/** The states the loops of `sync_folders` pass through, as predicates on the
    replica and the log, and the step lemmas that carry them from one
    iteration to the next. */
module Progress {
  import opened FileTree
  import opened Digest
  import opened SyncSpec

  // ---------------------------------------------------------------------------
  // The loop over the files of one source directory (lines 28-40)

  /** `names` lists the files directly inside directory `d` of tree `t`,
      each once, and `done` are the paths of the first `j` of them. */
  ghost predicate Listed(t: Tree, d: Path, names: seq<Name>, j: nat, done: set<Path>) {
    && j <= |names|
    && (forall i, k :: 0 <= i < k < |names| ==> names[i] != names[k])
    && (forall n :: n in names <==> IsFile(t, Child(d, n)))
    && (forall q :: q in done <==> q in FilesIn(t, d) && BaseName(q) in names[..j])
  }

  lemma ListStart(t: Tree, d: Path, names: seq<Name>)
    requires forall i, k :: 0 <= i < k < |names| ==> names[i] != names[k]
    requires forall n :: n in names <==> IsFile(t, Child(d, n))
    ensures Listed(t, d, names, 0, {})
  {
  }

  lemma ListStep(t: Tree, d: Path, names: seq<Name>, j: nat, done: set<Path>)
    requires Listed(t, d, names, j, done) && j < |names|
    ensures Child(d, names[j]) in FilesIn(t, d) && Child(d, names[j]) !in done
    ensures Child(d, names[j]) != d && WalkFile(t, Child(d, names[j]))
    ensures Parent(Child(d, names[j])) == d
    ensures Listed(t, d, names, j + 1, done + {Child(d, names[j])})
  {
    var p := Child(d, names[j]);
    ChildParts(d, names[j]);
    assert names[j] in names;
    assert names[j] !in names[..j] by {
      forall k | 0 <= k < j ensures names[..j][k] != names[j] {
        assert names[..j][k] == names[k];
      }
    }
    assert names[..j + 1] == names[..j] + [names[j]];
    forall q ensures q in done + {p} <==> q in FilesIn(t, d) && BaseName(q) in names[..j + 1] {
      if q in FilesIn(t, d) {
        SplitPath(q);
      }
    }
  }

  lemma ListComplete(t: Tree, d: Path, names: seq<Name>, done: set<Path>)
    requires Listed(t, d, names, |names|, done)
    ensures done == FilesIn(t, d)
  {
    assert names[..|names|] == names;
    forall q | q in FilesIn(t, d) ensures q in done {
      SplitPath(q);
    }
  }

  // ---------------------------------------------------------------------------
  // The loop over the files of one source directory (lines 28-40)

  /** The records logged for one more file. */
  lemma LogStep(ev: seq<Event>, src: Tree, rep: Tree, md5: Bytes -> Digest, io: Io, done: set<Path>, p: Path)
    requires CopyLog(ev, src, rep, md5, io, done) && p !in done
    ensures CopyLog(ev + FileEvents(p, Decide(src, rep, md5, p), Fault(io, p).Some?), src, rep, md5, io, done + {p})
  {
    var fileEv := FileEvents(p, Decide(src, rep, md5, p), Fault(io, p).Some?);
    assert CopyLog(fileEv, src, rep, md5, io, {p});
    CopyLogAppend(ev, fileEv, src, rep, md5, io, done, {p});
  }

  /** The state of the loop over the files of source directory `d` after the
      first `j` names: the replica `cur` and the records `ev` are those of
      handling exactly the files `done`, starting from replica `rep`. */
  ghost predicate FilesLoop(cur: Tree, ev: seq<Event>, src: Tree, rep: Tree, md5: Bytes -> Digest, io: Io,
                            d: Path, names: seq<Name>, j: nat, done: set<Path>) {
    && Listed(src, d, names, j, done)
    && (forall q :: q in done ==> FileOk(rep, io, q))
    && DirProgress(cur, src, rep, md5, io, d, done)
    && CopyLog(ev, src, rep, md5, io, done)
  }

  lemma FilesLoopStep(cur: Tree, ev: seq<Event>, src: Tree, rep: Tree, md5: Bytes -> Digest, io: Io,
                      d: Path, names: seq<Name>, j: nat, done: set<Path>)
    requires FilesLoop(cur, ev, src, rep, md5, io, d, names, j, done) && j < |names|
    ensures var p := Child(d, names[j]);
      && WalkFile(src, p) && Parent(p) == d && p in FilesIn(src, d) && IsDir(cur, d)
      && (FileOk(cur, io, p) <==> FileOk(rep, io, p))
      && Decide(src, cur, md5, p) == Decide(src, rep, md5, p)
      && (FileOk(rep, io, p) ==>
            FilesLoop(Put(cur, p, FileTarget(src, cur, md5, io, p)),
                      ev + FileEvents(p, Decide(src, rep, md5, p), Fault(io, p).Some?),
                      src, rep, md5, io, d, names, j + 1, done + {p}))
  {
    var p := Child(d, names[j]);
    ListStep(src, d, names, j, done);
    assert Get(cur, d) == Some(Dir);
    DirProgressStep(cur, Put(cur, p, FileTarget(src, cur, md5, io, p)), src, rep, md5, io, d, done, p);
    DecideIsLocal(src, cur, rep, md5, io, p);
    LogStep(ev, src, rep, md5, io, done, p);
  }

  lemma FilesLoopStart(cur: Tree, src: Tree, rep: Tree, md5: Bytes -> Digest, io: Io, d: Path, names: seq<Name>)
    requires forall i, k :: 0 <= i < k < |names| ==> names[i] != names[k]
    requires forall n :: n in names <==> IsFile(src, Child(d, n))
    requires IsDir(cur, d) && forall q :: q != d ==> Get(cur, q) == Get(rep, q)
    ensures FilesLoop(cur, [], src, rep, md5, io, d, names, 0, {})
  {
    ListStart(src, d, names);
    assert DirProgress(cur, src, rep, md5, io, d, {});
  }

  lemma FilesLoopEnd(cur: Tree, ev: seq<Event>, src: Tree, rep: Tree, md5: Bytes -> Digest, io: Io,
                     d: Path, names: seq<Name>, done: set<Path>)
    requires FilesLoop(cur, ev, src, rep, md5, io, d, names, |names|, done)
    ensures forall q :: q in FilesIn(src, d) ==> FileOk(rep, io, q)
    ensures DirProgress(cur, src, rep, md5, io, d, FilesIn(src, d))
    ensures CopyLog(ev, src, rep, md5, io, FilesIn(src, d))
  {
    ListComplete(src, d, names, done);
  }

  // ---------------------------------------------------------------------------
  // The first walk (lines 20-40)

  /** The first walk has handled the first `i` directories of `dirs`, and
      `scope` is the set of source files inside them. Against the replica
      `rep` the call started from, `cur` has the root and those directories
      as directories, the handled files as phase 1 leaves them, and nothing
      else changed; `ev` is the log of the handled files. */
  ghost predicate WalkLoop(cur: Tree, ev: seq<Event>, src: Tree, rep: Tree, md5: Bytes -> Digest, io: Io,
                           dirs: seq<Path>, i: nat, scope: set<Path>) {
    && WellFormed(src) && IsWalk(src, dirs) && i <= |dirs|
    && !IsFile(rep, [])
    && (forall q :: q in scope <==> WalkFile(src, q) && Parent(q) in dirs[..i])
    && (forall q :: q in dirs[..i] ==> DirOk(rep, q))
    && (forall q :: q in scope ==> FileOk(rep, io, q))
    && WalkTree(cur, src, rep, md5, io, dirs[..i], scope)
    && CopyLog(ev, src, rep, md5, io, scope)
  }

  /** `cur` has the root and the directories `seen` as directories, the
      source files `scope` as phase 1 leaves them, and all else as `rep`. */
  ghost predicate WalkTree(cur: Tree, src: Tree, rep: Tree, md5: Bytes -> Digest, io: Io,
                           seen: seq<Path>, scope: set<Path>) {
    forall q :: Get(cur, q) ==
      (if q == [] || q in seen then Some(Dir)
       else if q in scope && WalkFile(src, q) then FileTarget(src, rep, md5, io, q)
       else Get(rep, q))
  }

  lemma WalkTreeNext(cur: Tree, next: Tree, src: Tree, rep: Tree, md5: Bytes -> Digest, io: Io,
                     seen: seq<Path>, scope: set<Path>, d: Path)
    requires WalkTree(cur, src, rep, md5, io, seen, scope)
    requires forall q :: q in FilesIn(src, d) ==> q != [] && q !in seen && q !in scope && Get(cur, q) == Get(rep, q)
    requires DirProgress(next, src, cur, md5, io, d, FilesIn(src, d))
    ensures WalkTree(next, src, rep, md5, io, seen + [d], scope + FilesIn(src, d))
  {
    forall q ensures Get(next, q) ==
          (if q == [] || q in seen + [d] then Some(Dir)
           else if q in scope + FilesIn(src, d) && WalkFile(src, q) then FileTarget(src, rep, md5, io, q)
           else Get(rep, q))
    {
      if q in FilesIn(src, d) {
        DecideIsLocal(src, cur, rep, md5, io, q);
      }
    }
  }

  lemma WalkLoopStart(cur: Tree, src: Tree, rep: Tree, md5: Bytes -> Digest, io: Io, dirs: seq<Path>)
    requires WellFormed(src) && IsWalk(src, dirs) && !IsFile(rep, [])
    requires Get(cur, []) == Some(Dir) && forall q :: q != [] ==> Get(cur, q) == Get(rep, q)
    ensures WalkLoop(cur, [], src, rep, md5, io, dirs, 0, {})
  {
  }

  /** What the `i`-th directory of the first walk finds: its parent in the
      replica is already a directory, and neither it nor its files have been
      touched yet. */
  lemma WalkLoopVisit(cur: Tree, ev: seq<Event>, src: Tree, rep: Tree, md5: Bytes -> Digest, io: Io,
                      dirs: seq<Path>, i: nat, scope: set<Path>)
    requires WalkLoop(cur, ev, src, rep, md5, io, dirs, i, scope) && i < |dirs|
    ensures IsDir(src, dirs[i])
    ensures if dirs[i] == [] then IsDir(cur, []) else IsDir(cur, Parent(dirs[i]))
    ensures DirOk(cur, dirs[i]) <==> DirOk(rep, dirs[i])
    ensures forall q :: q in FilesIn(src, dirs[i]) ==>
      q != [] && q !in dirs[..i] && q !in scope && Get(cur, q) == Get(rep, q)
    ensures !(DirOk(rep, dirs[i]) && forall q :: q in FilesIn(src, dirs[i]) ==> FileOk(rep, io, q)) ==>
      !Phase1Ok(src, rep, io)
  {
    var d := dirs[i];
    assert Get(cur, []) == Some(Dir);
    if d != [] {
      assert IsDir(src, Parent(d));
      var k :| 0 <= k < |dirs| && dirs[k] == Parent(d);
      assert dirs[..i][k] == dirs[k];
      assert Get(cur, Parent(d)) == Some(Dir);
    }
    assert d !in dirs[..i] by {
      forall k | 0 <= k < i ensures dirs[..i][k] != d {
        assert dirs[..i][k] == dirs[k];
      }
    }
    forall q | q in FilesIn(src, d) ensures q != [] && q !in dirs[..i] && q !in scope && Get(cur, q) == Get(rep, q) {
      assert q != [] && !IsDir(src, q);
      assert q !in dirs;
    }
  }

  /** The first walk after its `i`-th directory `d` was handled without
      error: `next` is the replica and `evd` the log of that step. */
  lemma WalkLoopNext(cur: Tree, next: Tree, ev: seq<Event>, evd: seq<Event>, src: Tree, rep: Tree,
                     md5: Bytes -> Digest, io: Io, dirs: seq<Path>, i: nat, scope: set<Path>)
    requires WalkLoop(cur, ev, src, rep, md5, io, dirs, i, scope) && i < |dirs|
    requires DirOk(rep, dirs[i]) && forall q :: q in FilesIn(src, dirs[i]) ==> FileOk(rep, io, q)
    requires DirProgress(next, src, cur, md5, io, dirs[i], FilesIn(src, dirs[i]))
    requires CopyLog(evd, src, cur, md5, io, FilesIn(src, dirs[i]))
    ensures WalkLoop(next, ev + evd, src, rep, md5, io, dirs, i + 1, scope + FilesIn(src, dirs[i]))
  {
    var d := dirs[i];
    var files := FilesIn(src, d);
    WalkLoopVisit(cur, ev, src, rep, md5, io, dirs, i, scope);
    assert dirs[..i + 1] == dirs[..i] + [d];
    WalkTreeNext(cur, next, src, rep, md5, io, dirs[..i], scope, d);
    CopyLogTransfer(evd, src, cur, rep, md5, io, files);
    CopyLogAppend(ev, evd, src, rep, md5, io, scope, files);
  }

  /** The first walk never turns a directory of the replica into anything else. */
  lemma WalkLoopKeepsDirs(cur: Tree, ev: seq<Event>, src: Tree, rep: Tree, md5: Bytes -> Digest, io: Io,
                          dirs: seq<Path>, i: nat, scope: set<Path>)
    requires WalkLoop(cur, ev, src, rep, md5, io, dirs, i, scope)
    ensures forall q :: q == [] || IsDir(rep, q) ==> IsDir(cur, q)
  {
    forall q | q == [] || IsDir(rep, q) ensures IsDir(cur, q) {
      assert Get(cur, q) == Some(Dir) by {
        if q != [] {
          assert Get(rep, q) == Some(Dir);
        }
      }
    }
  }

  /** The first walk once every directory is handled: no error was raised,
      and the replica and the log are those phase 1 describes. */
  lemma WalkLoopEnd(cur: Tree, ev: seq<Event>, src: Tree, rep: Tree, md5: Bytes -> Digest, io: Io,
                    dirs: seq<Path>, scope: set<Path>)
    requires WalkLoop(cur, ev, src, rep, md5, io, dirs, |dirs|, scope)
    ensures Phase1Ok(src, rep, io)
    ensures cur == Phase1Tree(src, rep, md5, io)
    ensures CopyLog(ev, src, rep, md5, io, SourceFiles(src))
  {
    assert dirs[..|dirs|] == dirs;
    assert forall q :: WalkFile(src, q) ==> IsDir(src, Parent(q));
    assert scope == SourceFiles(src);
    forall q ensures Get(cur, q) == Get(Phase1Tree(src, rep, md5, io), q) {
      assert Get(cur, q) == (if q == [] || q in dirs then Some(Dir)
         else if q in scope && WalkFile(src, q) then FileTarget(src, rep, md5, io, q)
         else Get(rep, q));
      Phase1At(src, rep, md5, io, q);
    }
    SameEntries(cur, Phase1Tree(src, rep, md5, io));
  }

  // ---------------------------------------------------------------------------
  // The second walk (lines 42-52)

  lemma AppendAssoc(a: seq<Event>, b: seq<Event>, c: seq<Event>)
    ensures a + b + c == a + (b + c)
  {
  }

  /** Phase 2 has looked at the replica files `done`: against the replica
      `rep` it started from, `cur` lacks exactly the stale ones among them,
      none of those was refused by unlink, and `ev` records exactly their
      removals. */
  ghost predicate PruneState(cur: Tree, ev: seq<Event>, src: Tree, rep: Tree, io: Io, done: set<Path>) {
    && (forall q :: Get(cur, q) == if q in done && Stale(rep, src, q) then None else Get(rep, q))
    && (forall q :: q in done && Stale(rep, src, q) ==> q !in io.unlinkFails)
    && (forall i :: 0 <= i < |ev| ==> ev[i].Removed?)
    && NoRepeats(ev)
    && (forall q :: Removed(q) in ev <==> q in done && Stale(rep, src, q))
  }

  /** What phase 2 may have done when it stops: some stale files are gone,
      nothing else changed, and each record is the removal of a stale file. */
  ghost predicate PruneSafe(cur: Tree, ev: seq<Event>, src: Tree, rep: Tree) {
    && (forall q :: Get(cur, q) == Get(rep, q) || (Stale(rep, src, q) && Get(cur, q) == None))
    && (forall i :: 0 <= i < |ev| ==> ev[i].Removed? && Stale(rep, src, ev[i].path))
  }

  lemma PruneStateSafe(cur: Tree, ev: seq<Event>, src: Tree, rep: Tree, io: Io, done: set<Path>)
    requires PruneState(cur, ev, src, rep, io, done)
    ensures PruneSafe(cur, ev, src, rep)
  {
    forall i | 0 <= i < |ev| ensures ev[i].Removed? && Stale(rep, src, ev[i].path) {
      assert ev[i] == Removed(ev[i].path) && ev[i] in ev;
    }
  }

  /** Phase 2 never removes a directory. */
  lemma PruneSafeKeepsDirs(cur: Tree, ev: seq<Event>, src: Tree, rep: Tree)
    requires PruneSafe(cur, ev, src, rep)
    ensures forall q :: IsDir(rep, q) ==> IsDir(cur, q)
  {
    forall q | IsDir(rep, q) ensures IsDir(cur, q) {
      assert Get(cur, q) == Get(rep, q) || (Stale(rep, src, q) && Get(cur, q) == None);
    }
  }

  /** Phase 2 leaves alone a listed file that exists in the source. */
  lemma PruneKeep(cur: Tree, ev: seq<Event>, src: Tree, rep: Tree, io: Io, done: set<Path>, q: Path)
    requires PruneState(cur, ev, src, rep, io, done) && q !in done && !Stale(rep, src, q)
    ensures PruneState(cur, ev, src, rep, io, done + {q})
  {
  }

  /** Phase 2 logs and unlinks a listed file missing from the source. */
  lemma PruneRemove(cur: Tree, ev: seq<Event>, src: Tree, rep: Tree, io: Io, done: set<Path>, q: Path)
    requires PruneState(cur, ev, src, rep, io, done) && q !in done && Stale(rep, src, q)
    requires q !in io.unlinkFails
    ensures PruneState(cur - {q}, ev + [Removed(q)], src, rep, io, done + {q})
  {
    assert forall r :: Get(cur - {q}, r) == if r == q then None else Get(cur, r);
    assert forall i :: 0 <= i < |ev| ==> (ev + [Removed(q)])[i] == ev[i];
    forall i | 0 <= i < |ev| ensures ev[i] != Removed(q) {
      assert ev[i] in ev;
    }
  }

  /** A refused unlink of a stale file ends phase 2 with its record logged. */
  lemma PruneFail(cur: Tree, ev: seq<Event>, src: Tree, rep: Tree, io: Io, done: set<Path>, q: Path)
    requires PruneState(cur, ev, src, rep, io, done) && Stale(rep, src, q) && q in io.unlinkFails
    ensures PruneSafe(cur, ev + [Removed(q)], src, rep) && !Phase2Ok(rep, src, io)
  {
    PruneStateSafe(cur, ev, src, rep, io, done);
    assert forall i :: 0 <= i < |ev| ==> (ev + [Removed(q)])[i] == ev[i];
  }

  /** A directory phase 2 has not reached yet holds the same files as in `rep`. */
  lemma PruneListing(cur: Tree, ev: seq<Event>, src: Tree, rep: Tree, io: Io, done: set<Path>, d: Path)
    requires PruneState(cur, ev, src, rep, io, done)
    requires forall q :: q in FilesIn(rep, d) ==> q !in done
    ensures forall n :: IsFile(cur, Child(d, n)) <==> IsFile(rep, Child(d, n))
  {
    forall n ensures IsFile(cur, Child(d, n)) <==> IsFile(rep, Child(d, n)) {
      var q := Child(d, n);
      ChildParts(d, n);
      assert Get(cur, q) == if q in done && Stale(rep, src, q) then None else Get(rep, q);
      if IsFile(rep, q) {
        assert q in FilesIn(rep, d);
      }
    }
  }

  /** The second walk has handled the first `i` replica directories of
      `dirs`, and `done` are the files inside them. */
  ghost predicate PruneLoop(cur: Tree, ev: seq<Event>, src: Tree, rep: Tree, io: Io,
                            dirs: seq<Path>, i: nat, done: set<Path>) {
    && WellFormed(rep) && IsWalk(rep, dirs) && i <= |dirs|
    && (forall q :: q in done <==> WalkFile(rep, q) && Parent(q) in dirs[..i])
    && PruneState(cur, ev, src, rep, io, done)
  }

  lemma PruneLoopVisit(cur: Tree, ev: seq<Event>, src: Tree, rep: Tree, io: Io,
                       dirs: seq<Path>, i: nat, done: set<Path>)
    requires PruneLoop(cur, ev, src, rep, io, dirs, i, done) && i < |dirs|
    ensures IsDir(rep, dirs[i])
    ensures forall q :: q in FilesIn(rep, dirs[i]) ==> q !in done
    ensures forall q :: q in done + FilesIn(rep, dirs[i]) <==> WalkFile(rep, q) && Parent(q) in dirs[..i + 1]
  {
    var d := dirs[i];
    assert d !in dirs[..i] by {
      forall k | 0 <= k < i ensures dirs[..i][k] != d {
        assert dirs[..i][k] == dirs[k];
      }
    }
    assert dirs[..i + 1] == dirs[..i] + [d];
  }

  /** The second walk once every directory is handled: no unlink was
      refused, and the replica and the log are those phase 2 describes. */
  lemma PruneLoopEnd(cur: Tree, ev: seq<Event>, src: Tree, rep: Tree, io: Io, dirs: seq<Path>, done: set<Path>)
    requires PruneLoop(cur, ev, src, rep, io, dirs, |dirs|, done)
    ensures Phase2Ok(rep, src, io)
    ensures cur == Pruned(rep, src)
    ensures forall q :: Removed(q) in ev <==> Stale(rep, src, q)
    ensures NoRepeats(ev)
  {
    assert dirs[..|dirs|] == dirs;
    forall q | Stale(rep, src, q) ensures q in done {
      assert IsDir(rep, Parent(q));
    }
    forall q ensures Get(cur, q) == Get(Pruned(rep, src), q) {
      PrunedAt(rep, src, q);
    }
    SameEntries(cur, Pruned(rep, src));
  }
}
