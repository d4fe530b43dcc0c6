/** Files of a FAT image: writing, reading and deleting through cluster chains (tools/edimg/edimg.c). */
module FatImage {
  import opened Options
  import opened Arithmetic
  import opened Fat

  const SIZ_FILEBUF: nat := 2 * 1024 * 1024 + 1024

  /** Start cluster and length of a file. */
  datatype DirEntry = DirEntry(first: nat, len: nat)

  // ---------------------------------------------------------------- cluster arithmetic

  /** First byte of cluster j in the data area. */
  function Base(j: nat, size: nat): nat
    requires j >= 2
  {
    (j - 2) * size
  }

  lemma BaseIs(j: nat, size: nat)
    requires j >= 2
    ensures Base(j, size) == (j - 2) * size
  {
  }

  lemma BaseInside(j: nat, limit: nat, size: nat)
    requires 2 <= j < limit
    ensures Base(j, size) + size <= (limit - 2) * size
  {
    RowsApart(j, limit, size);
  }

  /** Clusters do not overlap. */
  lemma {:induction false} RowsApart(j: nat, k: nat, size: nat)
    requires 2 <= j < k
    ensures Base(j, size) + size <= Base(k, size)
    decreases k
  {
    assert (k - 3) * size + size == (k - 2) * size;
    if j + 1 < k { RowsApart(j, k - 1, size); }
  }

  /** Byte i of a file of at most n clusters is in one of them. */
  lemma DivBound(i: nat, n: nat, size: nat)
    requires size > 0 && i < n * size
    ensures i / size < n && i % size < size && i == i / size * size + i % size
  {
    if i / size >= n {
      MulMonotone(n, i / size, size);
    }
  }

  // ---------------------------------------------------------------- file contents

  /** The bytes of cluster j. */
  function Cluster(data: seq<bv8>, size: nat, j: nat): (r: seq<bv8>)
    requires j >= 2 && Base(j, size) + size <= |data|
    ensures |r| == size
  {
    data[Base(j, size)..Base(j, size) + size]
  }

  /** The chain is long enough for the length, and its clusters are inside the data area. */
  ghost predicate Holds(data: seq<bv8>, size: nat, c: seq<nat>, len: nat) {
    && size > 0 && len <= |c| * size
    && forall i :: 0 <= i < |c| ==> c[i] >= 2 && Base(c[i], size) + size <= |data|
  }

  /** Byte i of a file is byte i % size of cluster number i / size of its chain. */
  ghost function ByteAt(data: seq<bv8>, size: nat, c: seq<nat>, len: nat, i: nat): bv8
    requires Holds(data, size, c, len) && i < len
  {
    DivBound(i, |c|, size);
    Cluster(data, size, c[i / size])[i % size]
  }

  /** The bytes of a file, read off its clusters. */
  ghost function FileBytes(data: seq<bv8>, size: nat, c: seq<nat>, len: nat): (r: seq<bv8>)
    requires Holds(data, size, c, len)
    ensures |r| == len
  {
    seq(len, i requires 0 <= i < len => ByteAt(data, size, c, len, i))
  }

  /** Byte i of s is in the data area at byte i % size of cluster number i / size of the chain; cluster 2 is
      the first one. */
  ghost predicate StoredAt(data: seq<bv8>, size: nat, c: seq<nat>, s: seq<bv8>) {
    && size > 0
    && forall i :: 0 <= i < |s| ==>
         && i / size < |c| && c[i / size] >= 2
         && 0 <= (c[i / size] - 2) * size + i % size < |data|
         && data[(c[i / size] - 2) * size + i % size] == s[i]
  }

  lemma Stored(data: seq<bv8>, size: nat, c: seq<nat>, len: nat)
    requires Holds(data, size, c, len)
    ensures StoredAt(data, size, c, FileBytes(data, size, c, len))
  {
    hide Base, Cluster;
    var s := FileBytes(data, size, c, len);
    forall i | 0 <= i < |s|
      ensures i / size < |c| && c[i / size] >= 2
      ensures 0 <= (c[i / size] - 2) * size + i % size < |data|
      ensures data[(c[i / size] - 2) * size + i % size] == s[i]
    {
      DivBound(i, |c|, size);
      BaseIs(c[i / size], size);
      ClusterByte(data, size, c[i / size], i % size);
    }
  }

  lemma ClusterByte(data: seq<bv8>, size: nat, j: nat, k: nat)
    requires j >= 2 && Base(j, size) + size <= |data| && k < size
    ensures Cluster(data, size, j)[k] == data[Base(j, size) + k]
  {
    hide Base;
  }

  /** Cluster number n of the chain holds its part of s. */
  ghost predicate PartOf(data: seq<bv8>, size: nat, c: seq<nat>, s: seq<bv8>, len: nat, n: nat)
    requires Holds(data, size, c, len) && len <= |s| && n < |c|
  {
    Agrees(s, len, n * size, Cluster(data, size, c[n]))
  }

  /** A sequence is the contents of a file if every cluster holds its part. */
  lemma FileBytesAre(data: seq<bv8>, size: nat, c: seq<nat>, len: nat, s: seq<bv8>)
    requires Holds(data, size, c, len) && len <= |s|
    requires forall n :: 0 <= n < |c| ==> PartOf(data, size, c, s, len, n)
    ensures FileBytes(data, size, c, len) == s[..len]
  {
    hide Base, Cluster, PartOf, ByteAt;
    forall i | 0 <= i < len ensures FileBytes(data, size, c, len)[i] == s[i] {
      ByteAgrees(data, size, c, len, s, i);
    }
  }

  lemma ByteAgrees(data: seq<bv8>, size: nat, c: seq<nat>, len: nat, s: seq<bv8>, i: nat)
    requires Holds(data, size, c, len) && len <= |s| && i < len
    requires forall n :: 0 <= n < |c| ==> PartOf(data, size, c, s, len, n)
    ensures ByteAt(data, size, c, len, i) == s[i]
  {
    hide Base, Cluster, Agrees;
    DivBound(i, |c|, size);
    var q, r := i / size, i % size;
    assert PartOf(data, size, c, s, len, q);
    AgreesAt(s, len, q * size, Cluster(data, size, c[q]), r);
  }

  /** The bytes of t are those of s from `from` on, as far as s goes up to len. */
  predicate Agrees(s: seq<bv8>, len: nat, from: nat, t: seq<bv8>)
    requires len <= |s|
  {
    forall k :: from <= k < from + |t| && k < len ==> s[k] == t[k - from]
  }

  lemma AgreesAt(s: seq<bv8>, len: nat, from: nat, t: seq<bv8>, k: nat)
    requires len <= |s| && Agrees(s, len, from, t) && k < |t| && from + k < len
    ensures s[from + k] == t[k]
  {
  }

  /** A file reads the same if its clusters are the same. */
  lemma FileBytesSame(data: seq<bv8>, other: seq<bv8>, size: nat, c: seq<nat>, len: nat)
    requires Holds(data, size, c, len) && |other| == |data|
    requires forall i :: 0 <= i < |c| ==> Cluster(other, size, c[i]) == Cluster(data, size, c[i])
    ensures Holds(other, size, c, len) && FileBytes(other, size, c, len) == FileBytes(data, size, c, len)
  {
    hide Base, Cluster;
    forall i | 0 <= i < len ensures FileBytes(other, size, c, len)[i] == FileBytes(data, size, c, len)[i] {
      DivBound(i, |c|, size);
    }
  }

  // ---------------------------------------------------------------- writing a cluster

  /** What is written to cluster number n of a file: its part of the buffer, padded with zeros. */
  function Chunk(buf: seq<bv8>, size: nat, from: nat): (r: seq<bv8>)
    requires from <= |buf|
    ensures |r| == size && Agrees(buf, |buf|, from, r)
  {
    if from + size <= |buf| then buf[from..from + size]
    else buf[from..] + seq(size - (|buf| - from), _ => 0)
  }

  /** The body of the write loop: copy a full cluster, or what is left and zeros. */
  method WriteCluster(data: array<bv8>, size: nat, j: nat, buf: seq<bv8>, from: nat)
    requires j >= 2 && Base(j, size) + size <= data.Length && from <= |buf|
    modifies data
    ensures Cluster(data[..], size, j) == Chunk(buf, size, from)
    ensures 0 <= (j - 2) * size && (j - 2) * size + size <= data.Length
    ensures forall x :: (j - 2) * size <= x < (j - 2) * size + size ==>
              data[x] == var i := from + x - (j - 2) * size; if i < |buf| then buf[i] else 0
    ensures forall x :: 0 <= x < data.Length && !(Base(j, size) <= x < Base(j, size) + size) ==> data[x] == old(data[x])
  {
    hide Base;
    BaseIs(j, size);
    var q, left := Base(j, size), |buf| - from;
    ghost var chunk := Chunk(buf, size, from);
    var k := 0;
    if left >= size {
      while k < size
        invariant 0 <= k <= size
        invariant forall x :: q <= x < q + k ==> data[x] == chunk[x - q]
        invariant forall x :: 0 <= x < data.Length && !(q <= x < q + size) ==> data[x] == old(data[x])
      {
        data[q + k] := buf[from + k];
        k := k + 1;
      }
    } else {
      while k < left
        invariant 0 <= k <= left
        invariant forall x :: q <= x < q + k ==> data[x] == chunk[x - q]
        invariant forall x :: 0 <= x < data.Length && !(q <= x < q + size) ==> data[x] == old(data[x])
      {
        data[q + k] := buf[from + k];
        k := k + 1;
      }
      while k < size
        invariant left <= k <= size
        invariant forall x :: q <= x < q + k ==> data[x] == chunk[x - q]
        invariant forall x :: 0 <= x < data.Length && !(q <= x < q + size) ==> data[x] == old(data[x])
      {
        data[q + k] := 0;
        k := k + 1;
      }
    }
  }

  lemma OtherCluster(before: seq<bv8>, after: seq<bv8>, size: nat, j: nat, k: nat)
    requires j >= 2 && k >= 2 && k != j && |before| == |after|
    requires Base(j, size) + size <= |before| && Base(k, size) + size <= |before|
    requires forall x :: 0 <= x < |before| && !(Base(j, size) <= x < Base(j, size) + size) ==> after[x] == before[x]
    ensures Cluster(after, size, k) == Cluster(before, size, k)
  {
    hide Base;
    if j < k { RowsApart(j, k, size); } else { RowsApart(k, j, size); }
  }

  // ---------------------------------------------------------------- walking a chain

  /** The data area has room for every cluster below the limit. */
  predicate Area(data: seq<bv8>, limit: nat, size: nat) {
    size > 0 && limit >= 2 && |data| == (limit - 2) * size
  }

  lemma InArea(data: seq<bv8>, limit: nat, size: nat, j: nat)
    requires Area(data, limit, size) && 2 <= j < limit
    ensures Base(j, size) + size <= |data|
  {
    BaseInside(j, limit, size);
  }

  lemma ChainHolds(f: seq<nat>, data: seq<bv8>, limit: nat, size: nat, c: seq<nat>, len: nat)
    requires Area(data, limit, size) && Chain(f, limit, c) && len <= |c| * size
    ensures Holds(data, size, c, len)
  {
    hide Base, Links;
    forall i | 0 <= i < |c| ensures c[i] >= 2 && Base(c[i], size) + size <= |data| {
      InArea(data, limit, size, c[i]);
    }
  }

  /** Where the walk along chain c stands after n clusters: j is the next cluster, or no cluster. */
  predicate AtCluster(c: seq<nat>, n: nat, j: nat) {
    n <= |c| && if n < |c| then j == c[n] else j < 2 || j >= BAD
  }

  lemma NextCluster(f: seq<nat>, limit: nat, c: seq<nat>, n: nat)
    requires Sized(f, limit) && Chain(f, limit, c) && n < |c|
    ensures 2 <= c[n] < limit <= BAD && c[n] < |f| && AtCluster(c, n + 1, f[c[n]])
  {
    LinkHere(f, limit, c, n);
  }

  /** Clusters of chain c up to n hold their chunks of buf. */
  ghost predicate Written(data: seq<bv8>, size: nat, c: seq<nat>, buf: seq<bv8>, m: nat)
    requires Holds(data, size, c, 0) && m < |c|
  {
    m * size <= |buf| && Cluster(data, size, c[m]) == Chunk(buf, size, m * size)
  }

  lemma WrittenKept(before: seq<bv8>, after: seq<bv8>, size: nat, c: seq<nat>, buf: seq<bv8>, n: nat)
    requires Holds(before, size, c, 0) && |after| == |before| && Distinct(c) && n < |c|
    requires forall m :: 0 <= m < n ==> Written(before, size, c, buf, m)
    requires forall x :: 0 <= x < |before| && !(Base(c[n], size) <= x < Base(c[n], size) + size) ==> after[x] == before[x]
    ensures forall m :: 0 <= m < n ==> Written(after, size, c, buf, m)
  {
    hide Base;
    forall m | 0 <= m < n ensures Written(after, size, c, buf, m) {
      assert Written(before, size, c, buf, m);
      OtherCluster(before, after, size, c[n], c[m]);
    }
  }

  lemma AllWritten(data: seq<bv8>, size: nat, c: seq<nat>, buf: seq<bv8>, n: nat)
    requires Holds(data, size, c, 0) && n <= |c| && |buf| <= n * size
    requires forall m :: 0 <= m < n ==> Written(data, size, c, buf, m)
    ensures |buf| <= |c| * size
    ensures Holds(data, size, c, |buf|) && FileBytes(data, size, c, |buf|) == buf
  {
    hide Base, Cluster, Chunk, FileBytes;
    MulMonotone(n, |c|, size);
    forall m | 0 <= m < |c| ensures PartOf(data, size, c, buf, |buf|, m) {
      if m < n {
        assert Written(data, size, c, buf, m);
      } else {
        MulMonotone(n, m, size);
      }
    }
    FileBytesAre(data, size, c, |buf|, buf);
    assert buf[..|buf|] == buf;
  }

  /** Clusters outside chain c are as they were. */
  ghost predicate OthersSame(before: seq<bv8>, after: seq<bv8>, limit: nat, size: nat, c: seq<nat>)
    requires Area(before, limit, size) && |after| == |before|
  {
    forall k :: 2 <= k < limit && k !in c ==> SameCluster(before, after, limit, size, k)
  }

  ghost predicate SameCluster(before: seq<bv8>, after: seq<bv8>, limit: nat, size: nat, k: nat)
    requires Area(before, limit, size) && |after| == |before| && 2 <= k < limit
  {
    InArea(before, limit, size, k);
    Cluster(after, size, k) == Cluster(before, size, k)
  }

  lemma OthersStep(first: seq<bv8>, before: seq<bv8>, after: seq<bv8>, limit: nat, size: nat, c: seq<nat>, j: nat)
    requires Area(first, limit, size) && |after| == |before| == |first| && j in c && 2 <= j < limit
    requires OthersSame(first, before, limit, size, c)
    requires forall x :: 0 <= x < |before| && !(Base(j, size) <= x < Base(j, size) + size) ==> after[x] == before[x]
    ensures OthersSame(first, after, limit, size, c)
  {
    hide Base, Area;
    forall k | 2 <= k < limit && k !in c ensures SameCluster(first, after, limit, size, k) {
      assert SameCluster(first, before, limit, size, k);
      InArea(first, limit, size, k);
      InArea(first, limit, size, j);
      OtherCluster(before, after, size, j, k);
    }
  }

  /** The write loop of writefile. False is its error exit: the chain ends before the buffer does, or is
      empty. */
  method WriteChain(fat: array<nat>, data: array<bv8>, limit: nat, size: nat, first: nat, buf: seq<bv8>,
                    ghost c: seq<nat>) returns (ok: bool)
    requires fat as object != data as object
    requires Sized(fat[..], limit) && Chain(fat[..], limit, c) && first == First(c) && Area(data[..], limit, size)
    modifies data
    ensures ok <==> c != [] && |buf| <= |c| * size
    ensures ok ==> Holds(data[..], size, c, |buf|) && FileBytes(data[..], size, c, |buf|) == buf
    ensures OthersSame(old(data[..]), data[..], limit, size, c)
  {
    hide Base, Cluster, Chunk, Holds, FileBytes, Links, Written, SameCluster;
    ghost var before, n := data[..], 0;
    ChainHolds(fat[..], data[..], limit, size, c, 0);
    StillSame(before, limit, size, c);
    var j: nat, left := first, |buf|;
    while true
      invariant Area(data[..], limit, size) && Holds(data[..], size, c, 0)
      invariant AtCluster(c, n, j) && left == |buf| - n * size && (n > 0 ==> left > 0)
      invariant forall m :: 0 <= m < n ==> Written(data[..], size, c, buf, m)
      invariant OthersSame(before, data[..], limit, size, c)
      decreases |c| - n
    {
      if j < 2 || j >= BAD {
        return false;
      }
      NextCluster(fat[..], limit, c, n);
      OneMore(n, size);
      InArea(data[..], limit, size, j);
      ghost var was := data[..];
      WriteCluster(data, size, j, buf, |buf| - left);
      WrittenKept(was, data[..], size, c, buf, n);
      WrittenNow(was, data[..], size, c, buf, n);
      OthersStep(before, was, data[..], limit, size, c, j);
      j := fat[j];
      left := left - size;
      n := n + 1;
      if !(left > 0) {
        break;
      }
    }
    AllWritten(data[..], size, c, buf, n);
    return true;
  }

  lemma OneMore(n: nat, size: nat)
    ensures (n + 1) * size == n * size + size
  {
  }

  lemma StillSame(data: seq<bv8>, limit: nat, size: nat, c: seq<nat>)
    requires Area(data, limit, size)
    ensures OthersSame(data, data, limit, size, c)
  {
  }

  lemma WrittenNow(before: seq<bv8>, after: seq<bv8>, size: nat, c: seq<nat>, buf: seq<bv8>, n: nat)
    requires Holds(before, size, c, 0) && |after| == |before| && n < |c| && n * size <= |buf|
    requires Cluster(after, size, c[n]) == Chunk(buf, size, n * size)
    ensures Holds(after, size, c, 0) && Written(after, size, c, buf, n)
  {
    hide Base, Cluster, Chunk;
  }

  /** Part m of the buffer is cluster number m of the chain. */
  ghost predicate Copied(data: seq<bv8>, size: nat, c: seq<nat>, buf: seq<bv8>, m: nat)
    requires Holds(data, size, c, 0) && m < |c|
  {
    m * size + size <= |buf| && buf[m * size..m * size + size] == Cluster(data, size, c[m])
  }

  lemma CopiedMore(data: seq<bv8>, size: nat, c: seq<nat>, buf: seq<bv8>, n: nat)
    requires Holds(data, size, c, 0) && n < |c| && |buf| == n * size
    requires forall m :: 0 <= m < n ==> Copied(data, size, c, buf, m)
    ensures forall m :: 0 <= m < n + 1 ==> Copied(data, size, c, buf + Cluster(data, size, c[n]), m)
  {
    hide Base, Cluster;
    var more := buf + Cluster(data, size, c[n]);
    forall m | 0 <= m < n + 1 ensures Copied(data, size, c, more, m) {
      if m < n {
        assert Copied(data, size, c, buf, m);
        assert more[m * size..m * size + size] == buf[m * size..m * size + size];
      }
    }
  }

  lemma AllCopied(data: seq<bv8>, size: nat, c: seq<nat>, buf: seq<bv8>, n: nat, len: nat)
    requires Holds(data, size, c, 0) && n <= |c| && |buf| == n * size && len <= |buf|
    requires forall m :: 0 <= m < n ==> Copied(data, size, c, buf, m)
    ensures Holds(data, size, c, len) && FileBytes(data, size, c, len) == buf[..len]
  {
    hide Base, Cluster, FileBytes;
    MulMonotone(n, |c|, size);
    forall m | 0 <= m < |c| ensures PartOf(data, size, c, buf, len, m) {
      if m < n {
        assert Copied(data, size, c, buf, m);
      } else {
        MulMonotone(n, m, size);
      }
    }
    FileBytesAre(data, size, c, len, buf);
  }

  /** The read loop of readfile. None is its error exit. */
  method ReadChain(fat: array<nat>, data: array<bv8>, limit: nat, size: nat, first: nat, len: nat, ghost c: seq<nat>)
    returns (r: Option<seq<bv8>>)
    requires Sized(fat[..], limit) && Chain(fat[..], limit, c) && first == First(c) && Area(data[..], limit, size)
    requires Holds(data[..], size, c, len)
    ensures r == if c == [] then None else Some(FileBytes(data[..], size, c, len))
  {
    hide Base, Cluster, FileBytes, Links, Copied;
    ghost var n := 0;
    ChainHolds(fat[..], data[..], limit, size, c, 0);
    var buf: seq<bv8>, j: nat, left := [], first, len;
    while true
      invariant AtCluster(c, n, j) && left == len - n * size && (n > 0 ==> left > 0) && |buf| == n * size
      invariant forall m :: 0 <= m < n ==> Copied(data[..], size, c, buf, m)
      decreases |c| - n
    {
      if j < 2 || j >= BAD {
        return None;
      }
      NextCluster(fat[..], limit, c, n);
      OneMore(n, size);
      InArea(data[..], limit, size, j);
      CopiedMore(data[..], size, c, buf, n);
      buf := buf + Cluster(data[..], size, j);
      j := fat[j];
      left := left - size;
      n := n + 1;
      if !(left > 0) {
        break;
      }
    }
    AllCopied(data[..], size, c, buf, n, len);
    return Some(buf[..len]);
  }

  // ---------------------------------------------------------------- images

  type Name = string

  ghost predicate FilesOk(f: seq<nat>, limit: nat, size: nat, dir: map<Name, DirEntry>, chains: map<Name, seq<nat>>) {
    && dir.Keys == chains.Keys
    && (forall x :: x in dir ==> FileOk(f, limit, size, dir[x], chains[x]))
    && (forall x, y :: x in chains && y in chains && x != y ==> Apart(chains[x], chains[y]))
  }

  ghost predicate FileOk(f: seq<nat>, limit: nat, size: nat, e: DirEntry, c: seq<nat>) {
    Chain(f, limit, c) && e.first == First(c) && e.len <= |c| * size
  }

  /** No cluster is in both chains. */
  ghost predicate Apart(c: seq<nat>, d: seq<nat>) {
    forall k :: k in c ==> k !in d
  }

  /** A cluster that resizing adds to a chain was free. */
  lemma AddedFree(f: seq<nat>, limit: nat, c: seq<nat>, clusters: nat, alloc0: nat, k: nat)
    requires limit <= |f| && clusters <= |c| + |FreeFrom(f, alloc0, limit)|
    requires k in ResizedChain(f, limit, c, clusters, alloc0) && k !in c
    ensures k < |f| && f[k] == 0
  {
    hide FreeFrom;
    FreeFromFree(f, alloc0, limit);
    if clusters > |c| {
      var free := FreeFrom(f, alloc0, limit);
      assert k in free[..clusters - |c|];
      assert k in free;
    }
  }

  /** Resizing one file leaves the chain of every other one alone, and apart. */
  lemma OtherChain(f: seq<nat>, g: seq<nat>, limit: nat, c: seq<nat>, clusters: nat, alloc0: nat, e: seq<nat>)
    requires Sized(f, limit) && clusters <= |c| + |FreeFrom(f, alloc0, limit)|
    requires Replaced(f, g, limit, c, ResizedChain(f, limit, c, clusters, alloc0))
    requires Chain(f, limit, e) && Apart(c, e)
    ensures Chain(g, limit, e) && Apart(ResizedChain(f, limit, c, clusters, alloc0), e)
  {
    hide FreeFrom, ResizedChain, Links;
    var d := ResizedChain(f, limit, c, clusters, alloc0);
    forall k | k in e ensures k !in d {
      NotFree(f, limit, e, k);
      if k in d && k !in c { AddedFree(f, limit, c, clusters, alloc0, k); }
    }
    forall k | 0 <= k < |f| && k in e ensures g[k] == f[k] {
      assert k !in c && k !in d;
    }
    ChainKept(f, g, limit, e);
  }

  /** The files of an image, by name. */
  ghost function FilesOf(f: seq<nat>, data: seq<bv8>, limit: nat, size: nat,
                         dir: map<Name, DirEntry>, chains: map<Name, seq<nat>>): (r: map<Name, seq<bv8>>)
    requires Area(data, limit, size) && FilesOk(f, limit, size, dir, chains)
  {
    map x | x in dir :: ContentsOf(f, data, limit, size, dir[x], chains[x])
  }

  ghost function ContentsOf(f: seq<nat>, data: seq<bv8>, limit: nat, size: nat, e: DirEntry, c: seq<nat>): (r: seq<bv8>)
    requires Area(data, limit, size) && FileOk(f, limit, size, e, c)
    ensures |r| == e.len
  {
    ChainHolds(f, data, limit, size, c, e.len);
    FileBytes(data, size, c, e.len)
  }

  /** The table after one file got another chain: every file is in order. */
  lemma FilesAfter(f: seq<nat>, g: seq<nat>, limit: nat, size: nat, dir: map<Name, DirEntry>, chains: map<Name, seq<nat>>,
                   x: Name, c: seq<nat>, clusters: nat, alloc0: nat, len: nat)
    requires Sized(f, limit) && FilesOk(f, limit, size, dir, chains)
    requires c == (if x in chains then chains[x] else [])
    requires clusters <= |c| + |FreeFrom(f, alloc0, limit)| && len <= clusters * size
    requires Replaced(f, g, limit, c, ResizedChain(f, limit, c, clusters, alloc0))
    ensures var d := ResizedChain(f, limit, c, clusters, alloc0);
            FilesOk(g, limit, size, dir[x := DirEntry(First(d), len)], chains[x := d])
  {
    hide FreeFrom, ResizedChain, Chain;
    var d := ResizedChain(f, limit, c, clusters, alloc0);
    ResizedLength(f, limit, c, clusters, alloc0);
    var dir', chains' := dir[x := DirEntry(First(d), len)], chains[x := d];
    forall y | y in dir && y != x ensures FileOk(g, limit, size, dir[y], chains[y]) && Apart(d, chains[y]) {
      assert FileOk(f, limit, size, dir[y], chains[y]);
      OtherChain(f, g, limit, c, clusters, alloc0, chains[y]);
    }
    forall y, z | y in chains' && z in chains' && y != z ensures Apart(chains'[y], chains'[z]) {
      if z == x { assert Apart(d, chains[y]); }
    }
  }

  lemma ResizedLength(f: seq<nat>, limit: nat, c: seq<nat>, clusters: nat, alloc0: nat)
    requires limit <= |f| && clusters <= |c| + |FreeFrom(f, alloc0, limit)|
    ensures |ResizedChain(f, limit, c, clusters, alloc0)| == clusters
  {
    hide FreeFrom;
  }

  /** A file whose clusters were not written reads as before. */
  lemma OtherFile(f: seq<nat>, g: seq<nat>, before: seq<bv8>, after: seq<bv8>, limit: nat, size: nat,
                  e: DirEntry, c: seq<nat>, d: seq<nat>)
    requires Area(before, limit, size) && |after| == |before|
    requires FileOk(f, limit, size, e, c) && FileOk(g, limit, size, e, c)
    requires OthersSame(before, after, limit, size, d) && Apart(d, c)
    ensures ContentsOf(g, after, limit, size, e, c) == ContentsOf(f, before, limit, size, e, c)
  {
    hide Base, FileBytes, Cluster, Links;
    ChainHolds(f, before, limit, size, c, e.len);
    forall i | 0 <= i < |c| ensures Cluster(after, size, c[i]) == Cluster(before, size, c[i]) {
      assert c[i] in c;
      assert SameCluster(before, after, limit, size, c[i]);
    }
    FileBytesSame(before, after, size, c, e.len);
  }

  class Image {
    const limit: nat      // limit_fat
    const size: nat       // len_clu, bytes per cluster
    const dirSlots: nat   // entries of the root directory
    const fat: array<nat>
    const data: array<bv8>
    var dir: map<Name, DirEntry>
    ghost var chains: map<Name, seq<nat>>

    /** The table is well formed: its two reserved entries are set, and the files have chains of their own
        that hold them. */
    ghost predicate Valid()
      reads this, fat, data
    {
      && fat as object != data as object
      && Sized(fat[..], limit) && fat[0] != 0 && fat[1] != 0
      && Area(data[..], limit, size)
      && FilesOk(fat[..], limit, size, dir, chains)
    }

    ghost function Files(): map<Name, seq<bv8>>
      requires Valid()
      reads this, fat, data
    {
      FilesOf(fat[..], data[..], limit, size, dir, chains)
    }

    ghost function ChainOf(x: Name): seq<nat>
      reads this
    {
      if x in chains then chains[x] else []
    }

    /** readfile. It fails exactly if there is no such file, the file does not fit the buffer, or it has no
        cluster (an empty file). */
    method ReadFile(x: Name) returns (r: Option<seq<bv8>>)
      requires Valid()
      ensures r == if x in dir && dir[x].len + size <= 2 * 1024 * 1024 + 1024 && ChainOf(x) != [] then Some(Files()[x]) else None
      ensures r.Some? ==> |r.value| == dir[x].len && x in chains && StoredAt(data[..], size, chains[x], r.value)
    {
      hide Base, FileBytes, Links, Chain, StoredAt;
      if x !in dir {
        return None;
      }
      var p := dir[x];
      if p.len + size > SIZ_FILEBUF {
        return None;
      }
      assert FileOk(fat[..], limit, size, p, chains[x]);
      ChainHolds(fat[..], data[..], limit, size, chains[x], p.len);
      Stored(data[..], size, chains[x], p.len);
      r := ReadChain(fat, data, limit, size, p.first, p.len, chains[x]);
    }

    /** Clusters a write asks for: as many as the buffer needs, unless the caller says. */
    function Wanted(len: nat, asiz: int): nat
      requires size > 0 && asiz >= -1
    {
      if asiz == -1 then CeilDiv(len, size) else asiz
    }

    /** The directory has the name or room for it. */
    predicate HasRoom(x: Name)
      reads this
    {
      x in dir || |dir| < dirSlots
    }

    /** The clusters a file may have: its own and the free ones from alloc0 on. */
    ghost function Available(x: Name, alloc0: nat): nat
      requires limit <= fat.Length
      reads this, fat
    {
      |ChainOf(x)| + |FreeFrom(fat[..], alloc0, limit)|
    }

    /** writefile, with asiz clusters or, for -1, as many as the buffer needs. It succeeds exactly if the
        directory has room, the clusters hold the buffer and are not none, and there are enough; then the
        file holds the buffer, byte for byte on its chain, and every other file is as before. */
    method WriteFile(x: Name, buf: seq<bv8>, alloc0: nat, asiz: int) returns (ok: bool)
      requires Valid() && asiz >= -1
      modifies this`dir, this`chains, fat, data
      ensures asiz == -1 ==> (ok <==> old(HasRoom(x)) && 0 < |buf| <= old(Available(x, alloc0)) * size)
      ensures asiz >= 0 ==> (ok <==> old(HasRoom(x)) && 0 < asiz <= old(Available(x, alloc0)) && |buf| <= asiz * size)
      ensures ok ==> Valid() && Files() == old(Files())[x := buf]
      ensures ok ==> x in chains && StoredAt(data[..], size, chains[x], buf)
      ensures ok && asiz == -1 ==> (|chains[x]| - 1) * size < |buf| <= |chains[x]| * size
      ensures ok && asiz >= 0 ==> |chains[x]| == asiz
      ensures ok ==>
                && |chains[x]| <= old(Available(x, alloc0))
                && chains == old(chains)[x := ResizedChain(old(fat[..]), limit, old(ChainOf(x)), |chains[x]|, alloc0)]
    {
      hide Base, FileBytes, Chain, FreeFrom, ResizedChain, Replaced, FilesOk, CeilDiv, StoredAt;
      var clusters := Wanted(|buf|, asiz);
      NeededClusters(|buf|, size, Available(x, alloc0));
      if x !in dir {
        if |dir| >= dirSlots {
          return false;
        }
      }
      var entry := if x in dir then dir[x] else DirEntry(0, 0);
      ghost var f: seq<nat>, before, c, dir0, chains0 := fat[..], data[..], ChainOf(x), dir, chains;
      EntryChain(f, limit, size, dir, chains, x);
      var first: nat;
      ok, first := ResizeFile(fat, limit, entry.first, clusters, alloc0, c);
      if !ok {
        return false;
      }
      ghost var d := ResizedChain(f, limit, c, clusters, alloc0);
      ResizedLength(f, limit, c, clusters, alloc0);
      NewChain(f, fat[..], limit, c, d);
      dir := dir[x := DirEntry(first, |buf|)];
      ok := WriteChain(fat, data, limit, size, first, buf, d);
      if ok {
        chains := chains[x := d];
        FilesAfter(f, fat[..], limit, size, dir0, chains0, x, c, clusters, alloc0, |buf|);
        Reserved(f, fat[..], limit, c, clusters, alloc0);
        FilesWritten(f, fat[..], before, data[..], limit, size, dir0, chains0, x, d, buf);
        Stored(data[..], size, d, |buf|);
      }
    }

    /** deletefile. A name that is not there is skipped with a warning. */
    method DeleteFile(x: Name)
      requires Valid()
      modifies this`dir, this`chains, fat
      ensures Valid() && Files() == old(Files()) - {x} && dir == old(dir) - {x}
      ensures forall k :: k in old(ChainOf(x)) ==> k < fat.Length && fat[k] == 0
      ensures forall k :: 0 <= k < fat.Length && k !in old(ChainOf(x)) ==> fat[k] == old(fat[k])
    {
      hide Base, FileBytes, Chain, FreeFrom, ResizedChain, FilesOk, CeilDiv;
      ghost var f: seq<nat>, c, dir0, chains0 := fat[..], ChainOf(x), dir, chains;
      EntryChain(f, limit, size, dir, chains, x);
      if x in dir {
        var ok, first := ResizeFile(fat, limit, dir[x].first, 0, 0, c);
        ResizedLength(f, limit, c, 0, 0);
        FilesAfter(f, fat[..], limit, size, dir0, chains0, x, c, 0, 0, 0);
        Reserved(f, fat[..], limit, c, 0, 0);
        dir := dir - {x};
        chains := chains - {x};
        ghost var d := ResizedChain(f, limit, c, 0, 0);
        FilesRemoved(f, fat[..], data[..], limit, size, dir0, chains0, x, DirEntry(First(d), 0), d);
        ChainInTable(f, limit, c);
      } else {
        NoSuchFile(f, limit, size, dir, chains, x);
      }
    }
  }

  // ---------------------------------------------------------------- facts the methods use

  lemma EntryChain(f: seq<nat>, limit: nat, size: nat, dir: map<Name, DirEntry>, chains: map<Name, seq<nat>>, x: Name)
    requires FilesOk(f, limit, size, dir, chains)
    ensures dir.Keys == chains.Keys
    ensures x in dir ==> FileOk(f, limit, size, dir[x], chains[x])
    ensures x !in dir ==> Chain(f, limit, [])
  {
  }

  lemma NoSuchFile(f: seq<nat>, limit: nat, size: nat, dir: map<Name, DirEntry>, chains: map<Name, seq<nat>>, x: Name)
    requires FilesOk(f, limit, size, dir, chains) && x !in dir
    ensures dir - {x} == dir && x !in chains
  {
  }

  lemma NewChain(f: seq<nat>, g: seq<nat>, limit: nat, c: seq<nat>, d: seq<nat>)
    requires Sized(f, limit) && Replaced(f, g, limit, c, d)
    ensures Sized(g, limit) && Chain(g, limit, d)
  {
  }

  lemma ChainInTable(f: seq<nat>, limit: nat, c: seq<nat>)
    requires Sized(f, limit) && Chain(f, limit, c)
    ensures forall k :: k in c ==> k < |f|
  {
  }

  /** The reserved entries are in no chain and stay. */
  lemma Reserved(f: seq<nat>, g: seq<nat>, limit: nat, c: seq<nat>, clusters: nat, alloc0: nat)
    requires Sized(f, limit) && f[0] != 0 && f[1] != 0 && Chain(f, limit, c)
    requires clusters <= |c| + |FreeFrom(f, alloc0, limit)|
    requires Replaced(f, g, limit, c, ResizedChain(f, limit, c, clusters, alloc0))
    ensures |g| == |f| && g[0] == f[0] && g[1] == f[1]
  {
    hide FreeFrom, ResizedChain, Links;
    var d := ResizedChain(f, limit, c, clusters, alloc0);
    assert 0 !in c && 1 !in c && 0 !in d && 1 !in d;
  }

  /** As many clusters as hold the length, and no more. */
  lemma NeededClusters(len: nat, size: nat, available: nat)
    requires size > 0
    ensures var n := CeilDiv(len, size);
            && (n - 1) * size < len <= n * size
            && (0 < n <==> 0 < len)
            && (n <= available <==> len <= available * size)
  {
    var n := CeilDiv(len, size);
    DivBound(len + size - 1, n + 1, size);
    assert n * size == len + size - 1 - (len + size - 1) % size;
    assert (n - 1) * size == n * size - size;
    if n <= available {
      MulMonotone(n, available, size);
    } else {
      MulMonotone(available, n - 1, size);
    }
  }

  lemma ChainsApart(f: seq<nat>, limit: nat, size: nat, dir: map<Name, DirEntry>, chains: map<Name, seq<nat>>, x: Name, y: Name)
    requires FilesOk(f, limit, size, dir, chains) && x in chains && y in chains && x != y
    ensures Apart(chains[x], chains[y])
  {
  }

  lemma ContentsAre(f: seq<nat>, data: seq<bv8>, limit: nat, size: nat, e: DirEntry, c: seq<nat>)
    requires Area(data, limit, size) && FileOk(f, limit, size, e, c) && Holds(data, size, c, e.len)
    ensures ContentsOf(f, data, limit, size, e, c) == FileBytes(data, size, c, e.len)
  {
  }

  /** The files after file x was written to chain d. */
  lemma FilesWritten(f: seq<nat>, g: seq<nat>, before: seq<bv8>, after: seq<bv8>, limit: nat, size: nat,
                     dir: map<Name, DirEntry>, chains: map<Name, seq<nat>>, x: Name, d: seq<nat>, buf: seq<bv8>)
    requires Area(before, limit, size) && |after| == |before| && Area(after, limit, size)
    requires FilesOk(f, limit, size, dir, chains)
    requires FilesOk(g, limit, size, dir[x := DirEntry(First(d), |buf|)], chains[x := d])
    requires OthersSame(before, after, limit, size, d)
    requires Holds(after, size, d, |buf|) && FileBytes(after, size, d, |buf|) == buf
    ensures FilesOf(g, after, limit, size, dir[x := DirEntry(First(d), |buf|)], chains[x := d]) ==
            FilesOf(f, before, limit, size, dir, chains)[x := buf]
  {
    hide Base, FileBytes, FilesOk, FileOk, Area, OthersSame, Holds, ContentsOf, Apart, First;
    var dir', chains' := dir[x := DirEntry(First(d), |buf|)], chains[x := d];
    EntryChain(f, limit, size, dir, chains, x);
    EntryChain(g, limit, size, dir', chains', x);
    ContentsAre(g, after, limit, size, dir'[x], d);
    forall y | y in dir && y != x
      ensures FileOk(f, limit, size, dir[y], chains[y]) && FileOk(g, limit, size, dir'[y], chains'[y])
      ensures ContentsOf(g, after, limit, size, dir'[y], chains'[y]) == ContentsOf(f, before, limit, size, dir[y], chains[y])
    {
      EntryChain(f, limit, size, dir, chains, y);
      EntryChain(g, limit, size, dir', chains', y);
      assert Apart(d, chains[y]) by { ChainsApart(g, limit, size, dir', chains', x, y); }
      OtherFile(f, g, before, after, limit, size, dir[y], chains[y], d);
    }
  }

  lemma FilesRemoved(f: seq<nat>, g: seq<nat>, data: seq<bv8>, limit: nat, size: nat,
                     dir: map<Name, DirEntry>, chains: map<Name, seq<nat>>, x: Name, e: DirEntry, d: seq<nat>)
    requires Area(data, limit, size) && FilesOk(f, limit, size, dir, chains) && x in dir
    requires FilesOk(g, limit, size, dir[x := e], chains[x := d])
    ensures FilesOk(g, limit, size, dir - {x}, chains - {x})
    ensures FilesOf(g, data, limit, size, dir - {x}, chains - {x}) == FilesOf(f, data, limit, size, dir, chains) - {x}
  {
    hide Base, FileBytes, Chain;
    var dir', chains' := dir - {x}, chains - {x};
    forall y | y in dir' ensures FileOk(g, limit, size, dir'[y], chains'[y]) {
      assert FileOk(g, limit, size, dir[x := e][y], chains[x := d][y]);
    }
    forall y, z | y in chains' && z in chains' && y != z ensures Apart(chains'[y], chains'[z]) {
      assert Apart(chains[x := d][y], chains[x := d][z]);
    }
  }
}
