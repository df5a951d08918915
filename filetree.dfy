/** Directory trees as maps from relative paths to entries, and the three
    filesystem primitives the synchronisation pass relies on: `mkdir` with and
    without `parents=True`, and `os.walk`'s listing of directories and files. */
module FileTree {

  type Name = string

  /** A path relative to a tree root; the root itself is []. */
  type Path = seq<Name>

  newtype Byte = x: int | 0 <= x < 256

  type Bytes = seq<Byte>

  datatype Entry = Dir | File(data: Bytes)

  type Tree = map<Path, Entry>

  datatype Option<T> = None | Some(value: T)

  /** The exceptions the filesystem primitives raise. */
  datatype Error =
    | FileExists(path: Path)     // mkdir where a file is in the way
    | NoParent(path: Path)       // mkdir without parents under a missing directory
    | IsADirectory(path: Path)   // open(..., "rb") of a directory
    | ReadFailed(path: Path)     // open or read of a missing or unreadable file
    | UnlinkFailed(path: Path)   // unlink refused by the filesystem

  datatype Result<T> = Ok(value: T) | Err(error: Error)

  function Parent(p: Path): Path
    requires p != []
  {
    p[..|p| - 1]
  }

  function BaseName(p: Path): Name
    requires p != []
  {
    p[|p| - 1]
  }

  function Child(d: Path, n: Name): Path {
    d + [n]
  }

  lemma ChildParts(d: Path, n: Name)
    ensures Child(d, n) != [] && Parent(Child(d, n)) == d && BaseName(Child(d, n)) == n
  {
    assert Child(d, n)[..|d|] == d;
  }

  lemma SplitPath(p: Path)
    requires p != []
    ensures Child(Parent(p), BaseName(p)) == p
  {
  }

  /** The entry at `p`, if any. */
  function Get(t: Tree, p: Path): Option<Entry> {
    if p in t then Some(t[p]) else None
  }

  /** The tree with the entry at `p` replaced, or removed when `e` is None. */
  function Put(t: Tree, p: Path, e: Option<Entry>): (r: Tree)
    ensures forall q :: Get(r, q) == if q == p then e else Get(t, q)
  {
    match e
    case None => t - {p}
    case Some(x) => t[p := x]
  }

  predicate IsDir(t: Tree, p: Path) {
    p in t && t[p] == Dir
  }

  predicate IsFile(t: Tree, p: Path) {
    p in t && t[p].File?
  }

  /** Every entry other than the root sits inside a directory of the same tree. */
  ghost predicate WellFormed(t: Tree) {
    forall p {:trigger Parent(p)} :: p in t && p != [] ==> IsDir(t, Parent(p))
  }

  /** `q` is `d` or one of its ancestors. */
  predicate IsPrefix(q: Path, d: Path) {
    |q| <= |d| && d[..|q|] == q
  }

  /** Extensionality of trees, stated through Get. */
  lemma SameEntries(a: Tree, b: Tree)
    requires forall q :: Get(a, q) == Get(b, q)
    ensures a == b
  {
    assert forall q :: q in a <==> Get(a, q).Some?;
    assert a.Keys == b.Keys by {
      forall q ensures q in a <==> q in b {
        assert Get(a, q) == Get(b, q);
      }
    }
    forall q | q in a ensures a[q] == b[q] {
      assert Get(a, q) == Get(b, q);
    }
  }

  // ---------------------------------------------------------------------------
  // Keeping trees well formed

  lemma AddDirKeepsWellFormed(t: Tree, d: Path)
    requires WellFormed(t) && d !in t
    requires d != [] ==> IsDir(t, Parent(d))
    ensures WellFormed(t[d := Dir])
  {
  }

  lemma PutFileKeepsWellFormed(t: Tree, p: Path, data: Bytes)
    requires WellFormed(t) && p != [] && IsDir(t, Parent(p)) && !IsDir(t, p)
    ensures WellFormed(t[p := File(data)])
  {
    var t' := t[p := File(data)];
    forall q | q in t' && q != [] ensures IsDir(t', Parent(q)) {
      if q != p {
        assert IsDir(t, Parent(q));
        assert Parent(q) != p;
      }
    }
  }

  lemma RemoveFileKeepsWellFormed(t: Tree, p: Path)
    requires WellFormed(t) && IsFile(t, p)
    ensures WellFormed(t - {p})
  {
    var t' := t - {p};
    forall q | q in t' && q != [] ensures IsDir(t', Parent(q)) {
      assert IsDir(t, Parent(q));
    }
  }

  /** In a well formed tree, every ancestor of a directory is a directory. */
  lemma {:induction false} AncestorsAreDirs(t: Tree, d: Path)
    requires WellFormed(t) && IsDir(t, d)
    ensures forall k :: 0 <= k <= |d| ==> IsDir(t, d[..k])
    decreases |d|
  {
    assert d[..|d|] == d;
    if d != [] {
      AncestorsAreDirs(t, Parent(d));
      forall k | 0 <= k < |d| ensures IsDir(t, d[..k]) {
        assert Parent(d)[..k] == d[..k];
      }
    }
  }

  // ---------------------------------------------------------------------------
  // mkdir

  /** `Path.mkdir(exist_ok=True)` without `parents`: a directory already there
      is accepted, a file in the way raises, a missing parent raises. The
      replica root's own parent lies outside the tree, so it always exists. */
  function MakeDir(t: Tree, d: Path): (r: Result<Tree>)
    ensures r.Ok? <==> IsDir(t, d) || (d !in t && (d == [] || IsDir(t, Parent(d))))
    ensures r.Ok? ==> r.value.Keys == t.Keys + {d} && IsDir(r.value, d)
    ensures r.Ok? ==> forall q :: q in t ==> r.value[q] == t[q]
    ensures r.Err? ==> r.error == (if d in t then FileExists(d) else NoParent(d))
  {
    if d in t then
      if t[d] == Dir then Ok(t) else Err(FileExists(d))
    else if d == [] || IsDir(t, Parent(d)) then
      Ok(t[d := Dir])
    else
      Err(NoParent(d))
  }

  /** `Path.mkdir(parents=True, exist_ok=True)`: creates `d` and every missing
      ancestor, and raises when `d` or one of its ancestors is a file. */
  function MakeDirs(t: Tree, d: Path): (r: Result<Tree>)
    requires WellFormed(t)
    ensures r.Ok? <==> forall k :: 0 <= k <= |d| ==> !IsFile(t, d[..k])
    ensures r.Ok? ==> WellFormed(r.value)
    ensures r.Ok? ==> forall k :: 0 <= k <= |d| ==> IsDir(r.value, d[..k])
    ensures r.Ok? ==> forall q :: q in t ==> q in r.value && r.value[q] == t[q]
    ensures r.Ok? ==> forall q :: q in r.value && q !in t ==> IsPrefix(q, d)
    decreases |d|
  {
    if d in t then
      if t[d] == Dir then
        AncestorsAreDirs(t, d);
        Ok(t)
      else
        assert d[..|d|] == d;
        Err(FileExists(d))
    else if d == [] then
      Ok(t[d := Dir])
    else
      match MakeDirs(t, Parent(d))
      case Err(e) =>
        assert forall k :: 0 <= k < |d| ==> Parent(d)[..k] == d[..k];
        Err(e)
      case Ok(t') =>
        assert forall k :: 0 <= k < |d| ==> Parent(d)[..k] == d[..k];
        assert d[..|d|] == d && d[..|d| - 1] == Parent(d);
        assert IsDir(t', Parent(d));
        AddDirKeepsWellFormed(t', d);
        Ok(t'[d := Dir])
  }

  /** On an existing directory, `mkdir(parents=True, exist_ok=True)` does nothing. */
  lemma MakeDirsOnDir(t: Tree, d: Path)
    requires WellFormed(t) && IsDir(t, d)
    ensures MakeDirs(t, d) == Ok(t)
  {
  }

  // ---------------------------------------------------------------------------
  // os.walk

  /** `order` lists every directory of `t` once, each after its parent: the
      only property of `os.walk`'s top-down order the pass depends on. */
  ghost predicate IsWalk(t: Tree, order: seq<Path>) {
    && Distinct(order)
    && (forall i :: 0 <= i < |order| ==> IsDir(t, order[i]))
    && (forall d :: IsDir(t, d) ==> d in order)
    && (forall i, j {:trigger order[j], Parent(order[i])} ::
          0 <= i < |order| && 0 <= j < |order| && order[i] != [] && order[j] == Parent(order[i]) ==> j < i)
  }

  lemma ShorterOfTwo(s: set<Path>, x: Path, y: Path)
    requires x in s && y in s && forall q :: q in s && q != x ==> |y| <= |q|
    ensures exists p :: p in s && forall q :: q in s ==> |p| <= |q|
  {
    if |x| < |y| {
      assert forall q :: q in s ==> |x| <= |q|;
    } else {
      assert forall q :: q in s ==> |y| <= |q|;
    }
  }

  lemma {:induction false} ShortestExists(s: set<Path>)
    requires s != {}
    ensures exists p :: p in s && forall q :: q in s ==> |p| <= |q|
    decreases s
  {
    var x :| x in s;
    var rest := s - {x};
    assert forall q :: q in s && q != x ==> q in rest;
    if rest == {} {
      ShorterOfTwo(s, x, x);
    } else {
      ShortestExists(rest);
      var y :| y in rest && forall q :: q in rest ==> |y| <= |q|;
      ShorterOfTwo(s, x, y);
    }
  }

  predicate Distinct(order: seq<Path>) {
    forall i, j :: 0 <= i < j < |order| ==> order[i] != order[j]
  }

  predicate ShortestFirst(order: seq<Path>) {
    forall i, j :: 0 <= i < j < |order| ==> |order[i]| <= |order[j]|
  }

  lemma AppendLongest(order: seq<Path>, d: Path)
    requires Distinct(order) && ShortestFirst(order)
    requires d !in order && forall e :: e in order ==> |e| <= |d|
    ensures Distinct(order + [d]) && ShortestFirst(order + [d])
  {
    var o := order + [d];
    forall i, j | 0 <= i < j < |o| ensures o[i] != o[j] && |o[i]| <= |o[j]| {
      if j == |order| {
        assert o[i] == order[i] && order[i] in order;
      } else {
        assert o[i] == order[i] && o[j] == order[j];
      }
    }
  }

  /** Listing the directories of a well formed tree shortest first puts every
      directory after its parent. */
  lemma ShortestFirstIsWalk(t: Tree, order: seq<Path>)
    requires WellFormed(t) && Distinct(order) && ShortestFirst(order)
    requires forall d :: d in order <==> IsDir(t, d)
    ensures IsWalk(t, order)
  {
    forall i | 0 <= i < |order| ensures IsDir(t, order[i]) {
      assert order[i] in order;
    }
    forall i, j | 0 <= i < |order| && 0 <= j < |order| && order[i] != [] && order[j] == Parent(order[i])
      ensures j < i
    {
      assert |order[j]| < |order[i]|;
    }
  }

  /** The directories `os.walk` visits, in an order that puts every directory
      after its parent (here: shortest paths first). */
  method Walk(t: Tree) returns (order: seq<Path>)
    requires WellFormed(t)
    ensures IsWalk(t, order)
  {
    var rest := set d | d in t.Keys && t[d] == Dir;
    order := [];
    ghost var len := 0;
    while rest != {}
      invariant forall d :: d in order || d in rest <==> IsDir(t, d)
      invariant forall d :: d in order ==> d !in rest
      invariant Distinct(order) && ShortestFirst(order)
      invariant forall d :: d in order ==> |d| <= len
      invariant forall q :: q in rest ==> len <= |q|
      decreases |rest|
    {
      ShortestExists(rest);
      var d :| d in rest && forall q :: q in rest ==> |d| <= |q|;
      AppendLongest(order, d);
      order := order + [d];
      rest := rest - {d};
      len := |d|;
    }
    ShortestFirstIsWalk(t, order);
  }

  /** The names of the files (not directories) directly inside `d`: the
      `files` list `os.walk` yields for `d`. */
  method ListFiles(t: Tree, d: Path) returns (names: seq<Name>)
    ensures forall i, j :: 0 <= i < j < |names| ==> names[i] != names[j]
    ensures forall n :: n in names <==> IsFile(t, Child(d, n))
  {
    var rest := set q | q in t.Keys && q != [] && Parent(q) == d && t[q].File? :: BaseName(q);
    forall n ensures n in rest <==> IsFile(t, Child(d, n)) {
      ChildParts(d, n);
      if n in rest {
        var q :| q in t.Keys && q != [] && Parent(q) == d && t[q].File? && BaseName(q) == n;
        SplitPath(q);
      }
    }
    names := [];
    while rest != {}
      invariant forall n :: n in names || n in rest <==> IsFile(t, Child(d, n))
      invariant forall n :: n in names ==> n !in rest
      invariant forall i, j :: 0 <= i < j < |names| ==> names[i] != names[j]
      decreases |rest|
    {
      var n :| n in rest;
      names := names + [n];
      rest := rest - {n};
    }
  }
}
