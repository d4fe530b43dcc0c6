/** Cluster chains in the file allocation table (tools/edimg/edimg.c). */
module Fat {
  import opened Options
  import opened Arithmetic

  const FAT_ENTRIES: nat := 65536
  const BAD: nat := 0xfff7
  const END: nat := 0xffff

  /** Link i of chain c: to the next cluster, or to an end mark. */
  predicate LinkAt(f: seq<nat>, c: seq<nat>, i: nat)
    requires i < |c|
  {
    c[i] < |f| && if i + 1 < |c| then f[c[i]] == c[i + 1] else f[c[i]] >= 0xfff8
  }

  predicate Links(f: seq<nat>, c: seq<nat>) {
    forall i :: 0 <= i < |c| ==> LinkAt(f, c, i)
  }

  predicate InRange(c: seq<nat>, limit: nat) {
    forall i :: 0 <= i < |c| ==> 2 <= c[i] < limit
  }

  /** c is a chain of the table: clusters in range, none twice, each linked to the next. */
  predicate Chain(f: seq<nat>, limit: nat, c: seq<nat>) {
    Distinct(c) && InRange(c, limit) && Links(f, c)
  }

  /** The table has 65536 entries and its clusters are below the bad-cluster mark. */
  predicate Sized(f: seq<nat>, limit: nat) {
    |f| == 65536 && 2 <= limit <= 0xfff7
  }

  function First(c: seq<nat>): nat { if c == [] then 0 else c[0] }

  /** The free clusters from i on, in order. */
  function FreeFrom(f: seq<nat>, i: nat, limit: nat): seq<nat>
    requires limit <= |f|
    decreases limit - i
  {
    if i >= limit then [] else if f[i] == 0 then [i] + FreeFrom(f, i + 1, limit) else FreeFrom(f, i + 1, limit)
  }

  /** What the chain of a file becomes: its beginning, or itself and the free clusters that come first
      from alloc0 on. */
  function ResizedChain(f: seq<nat>, limit: nat, c: seq<nat>, clusters: nat, alloc0: nat): seq<nat>
    requires limit <= |f|
    requires clusters <= |c| + |FreeFrom(f, alloc0, limit)|
  {
    if clusters <= |c| then c[..clusters] else c + FreeFrom(f, alloc0, limit)[..clusters - |c|]
  }

  /** Table g is table f with chain c replaced by chain d: d is a chain, what left it is free, and no
      other entry changed. */
  predicate Replaced(f: seq<nat>, g: seq<nat>, limit: nat, c: seq<nat>, d: seq<nat>) {
    && |f| == |g|
    && Chain(g, limit, d)
    && (forall k :: 0 <= k < |f| && k !in c && k !in d ==> g[k] == f[k])
    && (forall k :: 0 <= k < |f| && k in c && k !in d ==> g[k] == 0)
  }

  // ---------------------------------------------------------------- chains

  /** A cluster of a chain is not free. */
  lemma NotFree(f: seq<nat>, limit: nat, c: seq<nat>, k: nat)
    requires Sized(f, limit) && Chain(f, limit, c) && k in c
    ensures k < |f| && f[k] != 0 && (f[k] < BAD || f[k] >= 0xfff8)
  {
    var i :| 0 <= i < |c| && c[i] == k;
    assert LinkAt(f, c, i);
  }

  /** A chain survives changes elsewhere. */
  lemma ChainKept(f: seq<nat>, g: seq<nat>, limit: nat, c: seq<nat>)
    requires Chain(f, limit, c) && |g| == |f|
    requires forall k :: 0 <= k < |f| && k in c ==> g[k] == f[k]
    ensures Chain(g, limit, c)
  {
    forall i | 0 <= i < |c| ensures LinkAt(g, c, i) {
      assert LinkAt(f, c, i);
    }
  }

  /** Putting a free cluster behind the last one of a chain. */
  lemma ChainExtended(f: seq<nat>, limit: nat, c: seq<nat>, k: nat)
    requires Sized(f, limit) && Chain(f, limit, c) && 2 <= k < limit && f[k] == 0
    ensures k !in c
    ensures c != [] ==> c[|c| - 1] < |f| && Chain(f[c[|c| - 1] := k][k := END], limit, c + [k])
    ensures c == [] ==> Chain(f[k := END], limit, [k])
  {
    if k in c { NotFree(f, limit, c, k); }
    if c == [] {
      assert LinkAt(f[k := END], [k], 0);
    } else {
      var last := c[|c| - 1];
      assert LinkAt(f, c, |c| - 1);
      var g, d := f[last := k][k := END], c + [k];
      forall i | 0 <= i < |d| ensures LinkAt(g, d, i) {
        if i < |c| {
          assert LinkAt(f, c, i);
        }
      }
    }
  }

  /** Ending a chain behind its element p: the front is a chain, the rest is still linked. */
  lemma ChainCut(f: seq<nat>, limit: nat, c: seq<nat>, p: nat)
    requires Sized(f, limit) && Chain(f, limit, c) && p < |c|
    ensures c[p] < |f|
    ensures var g := f[c[p] := END];
            Chain(g, limit, c[..p + 1]) && Chain(g, limit, c[p + 1..])
  {
    assert LinkAt(f, c, p);
    var g, front, back := f[c[p] := END], c[..p + 1], c[p + 1..];
    forall i | 0 <= i < |front| ensures LinkAt(g, front, i) {
      assert LinkAt(f, c, i);
    }
    forall i | 0 <= i < |back| ensures LinkAt(g, back, i) {
      assert LinkAt(f, c, i + p + 1);
    }
  }

  // ---------------------------------------------------------------- free clusters

  lemma {:induction false} FreeFromSkip(f: seq<nat>, i: nat, k: nat, limit: nat)
    requires limit <= |f| && i <= k <= limit
    requires forall j :: i <= j < k ==> f[j] != 0
    ensures FreeFrom(f, i, limit) == FreeFrom(f, k, limit)
    decreases k - i
  {
    if i < k { FreeFromSkip(f, i + 1, k, limit); }
  }

  /** Only the entries from i on matter, and of them only whether they are free. */
  lemma {:induction false} FreeFromSame(f: seq<nat>, g: seq<nat>, i: nat, limit: nat)
    requires limit <= |f| == |g|
    requires forall j :: i <= j < limit ==> (f[j] == 0 <==> g[j] == 0)
    ensures FreeFrom(f, i, limit) == FreeFrom(g, i, limit)
    decreases limit - i
  {
    if i < limit { FreeFromSame(f, g, i + 1, limit); }
  }

  /** free_cluster; None is the disk-image-full error. */
  method FreeCluster(fat: array<nat>, i: nat, limit: nat) returns (r: Option<nat>)
    requires limit <= fat.Length
    ensures match r
            case None => FreeFrom(fat[..], i, limit) == []
            case Some(k) => i <= k < limit && fat[k] == 0 &&
                            FreeFrom(fat[..], i, limit) == [k] + FreeFrom(fat[..], k + 1, limit)
    ensures forall j :: i <= j < (if r == None then limit else r.value) ==> fat[j] != 0
  {
    var k := i;
    while k < limit
      invariant i <= k && (i <= limit ==> k <= limit)
      invariant forall j :: i <= j < k && j < limit ==> fat[j] != 0
    {
      if fat[k] == 0 {
        FreeFromSkip(fat[..], i, k, limit);
        return Some(k);
      }
      k := k + 1;
    }
    if i <= limit {
      FreeFromSkip(fat[..], i, limit, limit);
    }
    return None;
  }

  // ---------------------------------------------------------------- resizefile

  /** The loop at freeloop: free the clusters of chain t. */
  method FreeChain(fat: array<nat>, start: nat, limit: nat, ghost t: seq<nat>)
    requires Sized(fat[..], limit) && Chain(fat[..], limit, t) && t != [] && start == t[0]
    modifies fat
    ensures forall k :: 0 <= k < fat.Length ==> fat[k] == if k in t then 0 else old(fat[k])
  {
    ghost var f: seq<nat> := fat[..];
    var i := start;
    ghost var n := 0;
    assert t[..0] == [];
    while true
      invariant 0 <= n < |t| && i == t[n]
      invariant forall k :: 0 <= k < fat.Length ==> fat[k] == if k in t[..n] then 0 else f[k]
      decreases |t| - n
    {
      assert LinkAt(f, t, n);
      assert i !in t[..n];
      var j := fat[i];
      fat[i] := 0;
      assert t[..n + 1] == t[..n] + [t[n]];
      i := j;
      if !(j < BAD) {
        assert n + 1 == |t|;
        assert t[..n + 1] == t;
        break;
      }
      n := n + 1;
    }
  }

  /** Part way through growing: table f holds chain d, which is c and the first free clusters from alloc0
      on; the free clusters from `from` on are those not used yet; nothing else changed. */
  ghost predicate Growing(f0: seq<nat>, f: seq<nat>, limit: nat, c: seq<nat>, d: seq<nat>, alloc0: nat, from: nat) {
    && Sized(f0, limit) && Sized(f, limit) && Chain(f, limit, d)
    && |c| <= |d| <= |c| + |FreeFrom(f0, alloc0, limit)|
    && d == c + FreeFrom(f0, alloc0, limit)[..|d| - |c|]
    && FreeFrom(f, from, limit) == FreeFrom(f0, alloc0, limit)[|d| - |c|..]
    && (forall k :: 0 <= k < |f| && k !in d ==> f[k] == f0[k])
    && (|d| > |c| ==> EndsIn(f, d, 0xffff))
  }

  /** The last cluster of the chain has the end mark v. */
  predicate EndsIn(f: seq<nat>, c: seq<nat>, v: nat) {
    c != [] ==> c[|c| - 1] < |f| && f[c[|c| - 1]] == v
  }

  /** From i on, neither of the two reserved entries looks free. */
  predicate NoReserved(f: seq<nat>, i: nat) {
    forall k :: i <= k < 2 && k < |f| ==> f[k] != 0
  }

  lemma EndsExtended(f: seq<nat>, c: seq<nat>, k: nat)
    requires k < |f|
    ensures c != [] && c[|c| - 1] < |f| ==> EndsIn(f[c[|c| - 1] := k][k := END], c + [k], 0xffff)
    ensures EndsIn(f[k := END], [k], 0xffff)
  {
  }

  /** Taking the next free cluster. */
  lemma GrowStep(f0: seq<nat>, f: seq<nat>, limit: nat, c: seq<nat>, d: seq<nat>, alloc0: nat, from: nat, k: nat)
    requires Growing(f0, f, limit, c, d, alloc0, from) && NoReserved(f, from)
    requires from <= k < limit && f[k] == 0 && FreeFrom(f, from, limit) == [k] + FreeFrom(f, k + 1, limit)
    ensures k >= 2
    ensures d != [] ==>
              && d[|d| - 1] < |f|
              && var g := f[d[|d| - 1] := k][k := END];
                Growing(f0, g, limit, c, d + [k], alloc0, k + 1) && NoReserved(g, k + 1)
    ensures d == [] ==> Growing(f0, f[k := END], limit, c, [k], alloc0, k + 1) && NoReserved(f[k := END], k + 1)
  {
    hide FreeFrom, Chain, EndsIn;
    ChainExtended(f, limit, d, k);
    EndsExtended(f, d, k);
    var free, n := FreeFrom(f0, alloc0, limit), |d| - |c|;
    assert free[n..][0] == k && free[n..][1..] == free[n + 1..];
    assert free[..n + 1] == free[..n] + [k];
    assert [k] + FreeFrom(f, k + 1, limit) == free[n..];
    assert ([k] + FreeFrom(f, k + 1, limit))[1..] == FreeFrom(f, k + 1, limit);
    if d == [] {
      FreeFromSame(f, f[k := END], k + 1, limit);
    } else {
      var last := d[|d| - 1];
      NotFree(f, limit, d, last);
      FreeFromSame(f, f[last := k][k := END], k + 1, limit);
    }
  }

  /** The loop of resizefile, from the first cluster of chain d on. */
  method Walk(fat: array<nat>, limit: nat, first: nat, clusters: nat, alloc0: nat, from: nat,
              ghost f0: seq<nat>, ghost c: seq<nat>, ghost chain: seq<nat>) returns (ok: bool)
    requires clusters > 0 && chain != [] && first == chain[0] && (|chain| == |c| || |chain| == 1)
    requires Growing(f0, fat[..], limit, c, chain, alloc0, from) && Chain(f0, limit, c)
    requires clusters > |c| ==> NoReserved(fat[..], from)
    modifies fat
    ensures ok <==> clusters <= |c| + |FreeFrom(f0, alloc0, limit)|
    ensures ok ==> Replaced(f0, fat[..], limit, c, ResizedChain(f0, limit, c, clusters, alloc0))
    ensures ok && clusters != |c| ==> EndsIn(fat[..], ResizedChain(f0, limit, c, clusters, alloc0), 0xffff)
  {
    hide FreeFrom, Chain, Replaced, ResizedChain, NoReserved, Growing;
    GrowingSizes(f0, fat[..], limit, c, chain, alloc0, from);
    var i: nat, left: nat, next: nat := first, clusters, from;
    ghost var d, pos := chain, 0;
    while true
      invariant 0 <= pos < |d| && i == d[pos] && left == clusters - pos > 0
      invariant |d| == |c| || |d| == pos + 1
      invariant Growing(f0, fat[..], limit, c, d, alloc0, next)
      invariant clusters > |c| ==> NoReserved(fat[..], next)
      decreases left
    {
      left := left - 1;
      GrowingSizes(f0, fat[..], limit, c, d, alloc0, next);
      LinkHere(fat[..], limit, d, pos);
      var j: nat := fat[i];
      if left == 0 {
        if j >= 0xfff8 {
          Grown(f0, fat[..], limit, c, d, alloc0, next);
          return true;
        }
        Ungrown(f0, fat[..], limit, c, d, alloc0, next);
        ChainCut(fat[..], limit, d, pos);
        ghost var f: seq<nat> := fat[..];
        fat[i] := END;
        assert fat[..] == f[i := END];
        i := j;
        assert j < BAD;
        FreeChain(fat, i, limit, d[pos + 1..]);
        CutDone(f0, f, fat[..], limit, c, pos);
        Shrunk(f0, limit, c, clusters, alloc0);
        return true;
      }
      if j >= 0xfff8 {
        var k := FreeCluster(fat, next, limit);
        if k == None {
          return false;
        }
        j := k.value;
        GrowStep(f0, fat[..], limit, c, d, alloc0, next, j);
        ghost var f: seq<nat> := fat[..];
        fat[i] := j;
        fat[j] := END;
        assert fat[..] == f[i := j][j := END];
        d := d + [j];
        next := j + 1;
      }
      i := j;
      pos := pos + 1;
    }
  }

  /** resizefile on a file whose chain is c; `first` is its start cluster, 0 for none. It succeeds exactly
      if there are enough free clusters from alloc0 on. A file is not made to grow into the reserved
      entries, with which it would not be a chain. */
  method ResizeFile(fat: array<nat>, limit: nat, first: nat, clusters: nat, alloc0: nat, ghost c: seq<nat>)
    returns (ok: bool, newFirst: nat)
    requires Sized(fat[..], limit) && Chain(fat[..], limit, c) && first == First(c)
    requires clusters > |c| ==> NoReserved(fat[..], alloc0)
    modifies fat
    ensures ok <==> clusters <= |c| + |FreeFrom(old(fat[..]), alloc0, limit)|
    ensures ok ==> var d := ResizedChain(old(fat[..]), limit, c, clusters, alloc0);
                   && newFirst == First(d) && Replaced(old(fat[..]), fat[..], limit, c, d)
                   && (clusters != |c| ==> EndsIn(fat[..], d, 0xffff))
  {
    hide FreeFrom, Chain, Replaced, ResizedChain, Growing;
    ghost var f: seq<nat> := fat[..];
    newFirst := first;
    Shrunk(f, limit, c, clusters, alloc0);
    FirstCluster(f, limit, c);
    if clusters == 0 {
      if first == 0 {
        NothingToFree(f, limit, c);
        return true, first;
      }
      newFirst := 0;
      FreeChain(fat, first, limit, c);
      AllFreed(f, fat[..], limit, c);
      return true, newFirst;
    }
    NotGrown(f, limit, c, alloc0);
    var i, from := first, alloc0;
    ghost var d := c;
    if i == 0 {
      var k := FreeCluster(fat, from, limit);
      if k == None {
        return false, newFirst;
      }
      GrowStep(f, f, limit, c, d, alloc0, from, k.value);
      i := k.value;
      newFirst := i;
      fat[i] := END;
      assert fat[..] == f[i := END];
      d := [i];
      from := i + 1;
      FirstFree(f, limit, clusters, alloc0);
    }
    ok := Walk(fat, limit, i, clusters, alloc0, from, f, c, d);
  }

  /** What a file becomes stays among the data clusters if and only if it does not grow or no reserved
      entry from alloc0 on looks free. */
  lemma GrowsIntoData(f: seq<nat>, limit: nat, c: seq<nat>, clusters: nat, alloc0: nat)
    requires Sized(f, limit) && Chain(f, limit, c) && clusters <= |c| + |FreeFrom(f, alloc0, limit)|
    ensures InRange(ResizedChain(f, limit, c, clusters, alloc0), limit) <==> clusters <= |c| || NoReserved(f, alloc0)
  {
    hide FreeFrom, Links, Distinct;
    var free, d := FreeFrom(f, alloc0, limit), ResizedChain(f, limit, c, clusters, alloc0);
    FreeFromFree(f, alloc0, limit);
    if clusters > |c| {
      assert d[|c|] == free[0];
      if NoReserved(f, alloc0) {
        forall i | 0 <= i < |d| ensures 2 <= d[i] < limit {
          if i < |c| {
            assert d[i] == c[i];
          } else {
            assert d[i] == free[i - |c|];
            assert free[i - |c|] in free;
          }
        }
      } else {
        var k :| alloc0 <= k < 2 && f[k] == 0;
        FirstIsLeast(f, alloc0, limit, k);
      }
    }
  }

  /** The free clusters are free and in range. */
  lemma {:induction false} FreeFromFree(f: seq<nat>, i: nat, limit: nat)
    requires limit <= |f|
    ensures forall k :: k in FreeFrom(f, i, limit) ==> i <= k < limit && f[k] == 0
    decreases limit - i
  {
    if i < limit {
      FreeFromFree(f, i + 1, limit);
    }
  }

  /** The free clusters from i on are all there, in increasing order. */
  lemma {:induction false} FreeFromExact(f: seq<nat>, i: nat, limit: nat)
    requires limit <= |f|
    ensures forall k :: k in FreeFrom(f, i, limit) <==> i <= k < limit && f[k] == 0
    ensures forall p, q :: 0 <= p < q < |FreeFrom(f, i, limit)| ==> FreeFrom(f, i, limit)[p] < FreeFrom(f, i, limit)[q]
    decreases limit - i
  {
    if i < limit {
      FreeFromExact(f, i + 1, limit);
      var rest := FreeFrom(f, i + 1, limit);
      forall k ensures k in FreeFrom(f, i, limit) <==> i <= k < limit && f[k] == 0 {
        assert k in [i] + rest <==> k == i || k in rest;
      }
      forall p, q | 0 <= p < q < |FreeFrom(f, i, limit)| ensures FreeFrom(f, i, limit)[p] < FreeFrom(f, i, limit)[q] {
        if f[i] == 0 {
          assert rest[q - 1] in rest;
        }
      }
    }
  }

  lemma {:induction false} FirstIsLeast(f: seq<nat>, i: nat, limit: nat, k: nat)
    requires i <= k < limit <= |f| && f[k] == 0
    ensures FreeFrom(f, i, limit) != [] && FreeFrom(f, i, limit)[0] <= k
    decreases k - i
  {
    if i < k && f[i] != 0 {
      FirstIsLeast(f, i + 1, limit, k);
    }
  }

  // ---------------------------------------------------------------- facts the methods use

  lemma LinkHere(f: seq<nat>, limit: nat, d: seq<nat>, pos: nat)
    requires Sized(f, limit) && Chain(f, limit, d) && pos < |d|
    ensures d[pos] < |f| && d[pos] < limit <= |f|
    ensures if pos + 1 < |d| then f[d[pos]] == d[pos + 1] && d[pos + 1] < BAD else f[d[pos]] >= 0xfff8
  {
    assert LinkAt(f, d, pos);
  }

  /** The chain has the length asked for. */
  lemma Grown(f0: seq<nat>, f: seq<nat>, limit: nat, c: seq<nat>, d: seq<nat>, alloc0: nat, from: nat)
    requires Growing(f0, f, limit, c, d, alloc0, from)
    ensures |d| <= |c| + |FreeFrom(f0, alloc0, limit)|
    ensures ResizedChain(f0, limit, c, |d|, alloc0) == d && Replaced(f0, f, limit, c, d)
    ensures |d| > |c| ==> EndsIn(f, d, 0xffff)
  {
    hide FreeFrom, Chain;
    assert |d| == |c| ==> d == c;
    assert c == d[..|c|];
  }

  lemma GrowingSizes(f0: seq<nat>, f: seq<nat>, limit: nat, c: seq<nat>, d: seq<nat>, alloc0: nat, from: nat)
    requires Growing(f0, f, limit, c, d, alloc0, from)
    ensures Sized(f0, limit) && Sized(f, limit) && Chain(f, limit, d)
    ensures |c| <= |d| && |d| + |FreeFrom(f, from, limit)| == |c| + |FreeFrom(f0, alloc0, limit)|
  {
    hide FreeFrom, Chain;
  }

  /** As long as nothing was taken, the table is the old one on the chain too. */
  lemma Ungrown(f0: seq<nat>, f: seq<nat>, limit: nat, c: seq<nat>, d: seq<nat>, alloc0: nat, from: nat)
    requires Growing(f0, f, limit, c, d, alloc0, from)
    ensures |d| == |c| ==> d == c && forall k :: 0 <= k < |f| && k !in c ==> f[k] == f0[k]
    ensures |f| == |f0| && Distinct(d)
  {
    hide FreeFrom;
  }

  lemma CutDone(f0: seq<nat>, f: seq<nat>, g: seq<nat>, limit: nat, c: seq<nat>, pos: nat)
    requires Sized(f, limit) && |g| == |f| == |f0| && pos < |c| && c[pos] < |f|
    requires forall k :: 0 <= k < |f| && k !in c ==> f[k] == f0[k]
    requires Chain(f[c[pos] := END], limit, c[..pos + 1]) && Distinct(c)
    requires forall k :: 0 <= k < |g| ==> g[k] == if k in c[pos + 1..] then 0 else f[c[pos] := END][k]
    ensures Replaced(f0, g, limit, c, c[..pos + 1]) && EndsIn(g, c[..pos + 1], 0xffff)
  {
    hide Chain;
    var h, front, back := f[c[pos] := END], c[..pos + 1], c[pos + 1..];
    assert c == front + back;
    forall k | 0 <= k < |h| && k in front ensures g[k] == h[k] {
      assert k !in back;
    }
    ChainKept(h, g, limit, front);
  }

  lemma Shrunk(f: seq<nat>, limit: nat, c: seq<nat>, clusters: nat, alloc0: nat)
    requires limit <= |f|
    ensures clusters <= |c| ==> ResizedChain(f, limit, c, clusters, alloc0) == c[..clusters]
    ensures |c| < clusters <= |c| + |FreeFrom(f, alloc0, limit)| ==> |c| > 0 ==>
              ResizedChain(f, limit, c, clusters, alloc0) != [] && ResizedChain(f, limit, c, clusters, alloc0)[0] == c[0]
  {
    hide FreeFrom;
  }

  lemma FirstCluster(f: seq<nat>, limit: nat, c: seq<nat>)
    requires Sized(f, limit) && Chain(f, limit, c)
    ensures First(c) == 0 <==> c == []
  {
  }

  lemma NothingToFree(f: seq<nat>, limit: nat, c: seq<nat>)
    requires c == []
    ensures Replaced(f, f, limit, c, c[..0])
  {
  }

  lemma AllFreed(f: seq<nat>, g: seq<nat>, limit: nat, c: seq<nat>)
    requires |f| == |g| && forall k :: 0 <= k < |g| ==> g[k] == if k in c then 0 else f[k]
    ensures Replaced(f, g, limit, c, c[..0])
  {
  }

  lemma NotGrown(f: seq<nat>, limit: nat, c: seq<nat>, alloc0: nat)
    requires Sized(f, limit) && Chain(f, limit, c)
    ensures Growing(f, f, limit, c, c, alloc0, alloc0)
  {
    hide FreeFrom, Chain;
    var free := FreeFrom(f, alloc0, limit);
    assert free[..0] == [] && free[0..] == free && c + [] == c;
  }

  lemma FirstFree(f: seq<nat>, limit: nat, clusters: nat, alloc0: nat)
    requires limit <= |f| && 0 < clusters
    ensures clusters <= |FreeFrom(f, alloc0, limit)| ==>
              ResizedChain(f, limit, [], clusters, alloc0) != [] &&
              ResizedChain(f, limit, [], clusters, alloc0)[0] == FreeFrom(f, alloc0, limit)[0]
  {
    hide FreeFrom;
  }
}
