/** `calculate_md5`: a file read in fixed-size chunks, each chunk folded into a
    running MD5 state. MD5 itself is not modelled: it is a parameter
    `md5: Bytes -> Digest`, about which nothing is assumed. */
module Digest {
  import opened FileTree

  /** The hexadecimal digest string `hexdigest()` returns. */
  type Digest = string

  /** The read size `calculate_md5` uses. */
  const CHUNK_SIZE: nat := 4096

  function Min(a: nat, b: nat): nat {
    if a <= b then a else b
  }

  function Concat(cs: seq<Bytes>): Bytes {
    if cs == [] then [] else cs[0] + Concat(cs[1..])
  }

  lemma {:induction false} ConcatAppend(cs: seq<Bytes>, c: Bytes)
    ensures Concat(cs + [c]) == Concat(cs) + c
  {
    if cs != [] {
      assert (cs + [c])[1..] == cs[1..] + [c];
      ConcatAppend(cs[1..], c);
    } else {
      assert [c][1..] == [];
    }
  }

  /** The successive results of `read(n)` on a file holding `data`, up to and
      excluding the first empty read. */
  function Chunks(data: Bytes, n: nat): seq<Bytes>
    requires n > 0
    decreases |data|
  {
    if data == [] then [] else [data[..Min(n, |data|)]] + Chunks(data[Min(n, |data|)..], n)
  }

  /** The chunks are non-empty, exactly `n` bytes each but the last, which
      has at most `n`, and together they are the whole content. */
  lemma {:induction false} ChunksPartition(data: Bytes, n: nat)
    requires n > 0
    ensures forall i :: 0 <= i < |Chunks(data, n)| ==> 0 < |Chunks(data, n)[i]| <= n
    ensures forall i :: 0 <= i < |Chunks(data, n)| - 1 ==> |Chunks(data, n)[i]| == n
    ensures Concat(Chunks(data, n)) == data
    decreases |data|
  {
    if data != [] {
      var k := Min(n, |data|);
      ChunksPartition(data[k..], n);
      var cs := Chunks(data, n);
      assert cs[1..] == Chunks(data[k..], n);
      assert data[..k] + data[k..] == data;
    }
  }

  /** One more read of `n` bytes at offset `start`: the chunks read so far
      plus the chunks still to come are all the chunks, and the bytes read
      so far are a prefix of the content. */
  lemma ChunksStep(data: Bytes, start: nat, n: nat, chunks: seq<Bytes>)
    requires n > 0 && start < |data|
    requires chunks + Chunks(data[start..], n) == Chunks(data, n)
    ensures var next := Min(start + n, |data|);
      && (chunks + [data[start..next]]) + Chunks(data[next..], n) == Chunks(data, n)
      && data[..start] + data[start..next] == data[..next]
  {
    var k := Min(n, |data| - start);
    assert data[start..][..k] == data[start..start + k];
    assert data[start..][k..] == data[start + k..];
    assert Chunks(data[start..], n) == [data[start..start + k]] + Chunks(data[start + k..], n);
  }

  /** A `hashlib.md5()` object: `update` absorbs bytes, `hexdigest` is the
      digest of everything absorbed so far. */
  class Md5 {
    const md5: Bytes -> Digest
    var absorbed: Bytes

    constructor (md5: Bytes -> Digest)
      ensures this.md5 == md5 && absorbed == []
    {
      this.md5 := md5;
      absorbed := [];
    }

    method Update(chunk: Bytes)
      modifies this
      ensures absorbed == old(absorbed) + chunk
    {
      absorbed := absorbed + chunk;
    }

    function HexDigest(): Digest
      reads this
    {
      md5(absorbed)
    }
  }

  /** A file opened with `open(path, "rb")`: its content and the read position. */
  class Reader {
    const data: Bytes
    var pos: nat

    ghost predicate Valid()
      reads this
    {
      pos <= |data|
    }

    constructor (data: Bytes)
      ensures Valid() && this.data == data && pos == 0
    {
      this.data := data;
      pos := 0;
    }

    /** `f.read(n)`: at most `n` bytes from the current position; empty at the end. */
    method Read(n: nat) returns (chunk: Bytes)
      requires Valid()
      modifies this
      ensures Valid()
      ensures chunk == data[old(pos)..Min(old(pos) + n, |data|)]
      ensures pos == old(pos) + |chunk|
    {
      chunk := data[pos..Min(pos + n, |data|)];
      pos := pos + |chunk|;
    }
  }

  /** The loop of `calculate_md5` with the read size as a parameter: reads
      until the first empty chunk, feeding each chunk to the hash. Whatever the
      read size, the chunks partition the content, so the digest is that of
      the whole content. */
  method HashStream(md5: Bytes -> Digest, data: Bytes, size: nat) returns (digest: Digest, ghost chunks: seq<Bytes>)
    requires size > 0
    ensures digest == md5(data)
    ensures chunks == Chunks(data, size)
    ensures forall i :: 0 <= i < |chunks| ==> 0 < |chunks[i]| <= size
    ensures forall i :: 0 <= i < |chunks| - 1 ==> |chunks[i]| == size
    ensures Concat(chunks) == data
  {
    var hash := new Md5(md5);
    var f := new Reader(data);
    chunks := [];
    ghost var start := 0;
    var chunk := f.Read(size);
    while chunk != []
      invariant f.Valid() && f.data == data && hash.md5 == md5
      invariant start <= f.pos && chunk == data[start..f.pos]
      invariant f.pos == Min(start + size, |data|)
      invariant hash.absorbed == data[..start]
      invariant chunks + Chunks(data[start..], size) == Chunks(data, size)
      decreases |data| - start
    {
      ChunksStep(data, start, size, chunks);
      hash.Update(chunk);
      chunks := chunks + [chunk];
      start := f.pos;
      chunk := f.Read(size);
    }
    assert data[..start] == data;
    assert data[start..] == [];
    ChunksPartition(data, size);
    digest := hash.HexDigest();
  }

  /** `calculate_md5(file_path)` for the entry at `p` of tree `t`. Opening a
      missing path or a path in `unreadable` raises a read error, opening a
      directory raises IsADirectoryError; neither is caught here. */
  method CalculateMd5(md5: Bytes -> Digest, t: Tree, p: Path, unreadable: set<Path>) returns (r: Result<Digest>)
    ensures p !in t ==> r == Err(ReadFailed(p))
    ensures IsDir(t, p) ==> r == Err(IsADirectory(p))
    ensures IsFile(t, p) && p in unreadable ==> r == Err(ReadFailed(p))
    ensures IsFile(t, p) && p !in unreadable ==> r == Ok(md5(t[p].data))
  {
    if p !in t || (t[p].File? && p in unreadable) {
      return Err(ReadFailed(p));
    }
    if t[p] == Dir {
      return Err(IsADirectory(p));
    }
    var digest, _ := HashStream(md5, t[p].data, CHUNK_SIZE);
    r := Ok(digest);
  }
}
