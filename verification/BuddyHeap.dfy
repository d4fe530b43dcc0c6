/** The heap the buddy allocator manages, as its callers see it: which runs of pages are live.

A live allocation is keyed by its first page and holds its length in pages; it occupies the whole
block of the smallest level that fits it.  All the allocator decides is a function of the live
allocations, because its bitmaps are (`Canonical`).
 */
module BuddyHeap {
  import opened Options
  import opened BuddyTree

  type Live = map<nat, nat>

  /** The smallest level whose blocks hold n pages. */
  function Fit(n: nat): (k: nat)
    ensures Shl(1, k) >= n
    ensures k > 0 ==> Shl(1, k - 1) < n
  {
    if n <= 1 then 0 else
    var h := Fit((n + 1) / 2);
    assert h > 0 ==> Shl(1, h) == 2 * Shl(1, h - 1);
    1 + h
  }

  /** The pages of the block that an allocation of n pages at page s occupies. */
  function Span(units: nat, s: nat, n: nat): set<nat> {
    BlockUnits(units, Fit(n), Shr(s, Fit(n)))
  }

  /** Page s starts a block of the heap that fits n pages. */
  predicate Fits(units: nat, s: nat, n: nat) {
    var k := Fit(n);
    n > 0 && k < Levels(units) && Exists(units, k, Shr(s, k)) && Shl(Shr(s, k), k) == s
  }

  ghost predicate Disjoint(units: nat, live: Live) {
    forall s, t :: s in live && t in live && s != t ==> Span(units, s, live[s]) !! Span(units, t, live[t])
  }

  ghost predicate LiveOk(units: nat, live: Live) {
    && (forall s :: s in live ==> Fits(units, s, live[s]))
    && Disjoint(units, live)
  }

  /** The pages of all live blocks. */
  ghost function Occupied(units: nat, live: Live): set<nat> {
    set s, u | s in live && u in Span(units, s, live[s]) :: u
  }

  lemma OccupiedAdd(units: nat, live: Live, s: nat, n: nat)
    requires s !in live
    ensures Occupied(units, live[s := n]) == Occupied(units, live) + Span(units, s, n)
  {
    var more := live[s := n];
    forall u | u in Occupied(units, live) ensures u in Occupied(units, more) {
      var t :| t in live && u in Span(units, t, live[t]);
      assert t in more && u in Span(units, t, more[t]);
    }
    forall u | u in Span(units, s, n) ensures u in Occupied(units, more) {
      assert s in more && u in Span(units, s, more[s]);
    }
    forall u | u in Occupied(units, more) ensures u in Occupied(units, live) + Span(units, s, n) {
      var t :| t in more && u in Span(units, t, more[t]);
      assert t == s || (t in live && u in Span(units, t, live[t]));
    }
  }

  /** Freeing an allocation leaves a consistent heap in which exactly its block became free. */
  lemma Freeing(units: nat, live: Live, s: nat)
    requires LiveOk(units, live) && s in live
    ensures LiveOk(units, live - {s})
    ensures Occupied(units, live) == Occupied(units, live - {s}) + Span(units, s, live[s])
    ensures WhollyFree(Occupied(units, live - {s}), Fit(live[s]), Shr(s, Fit(live[s])))
  {
    hide Occupied, Fits, Disjoint, Shr, Fit;
    var rest := live - {s};
    OccupiedAdd(units, rest, s, live[s]);
    assert rest[s := live[s]] == live;
    forall u | u in Occupied(units, rest) ensures Shr(u, Fit(live[s])) != Shr(s, Fit(live[s])) {
      NotInFreed(units, live, s, u);
    }
    LiveOkWithout(units, live, s);
  }

  lemma LiveOkWithout(units: nat, live: Live, s: nat)
    requires LiveOk(units, live)
    ensures LiveOk(units, live - {s})
  {
    var rest := live - {s};
    forall t | t in rest ensures Fits(units, t, rest[t]) {
      assert t in live;
    }
    forall t, u | t in rest && u in rest && t != u ensures Span(units, t, rest[t]) !! Span(units, u, rest[u]) {
      assert t in live && u in live;
    }
  }

  lemma NotInFreed(units: nat, live: Live, s: nat, u: nat)
    requires Disjoint(units, live) && s in live
    requires u in Occupied(units, live - {s})
    ensures Shr(u, Fit(live[s])) != Shr(s, Fit(live[s]))
  {
    var rest := live - {s};
    var t :| t in rest && u in Span(units, t, rest[t]);
    assert Span(units, s, live[s]) !! Span(units, t, live[t]);
    assert u !in Span(units, s, live[s]);
  }

  /** Taking a wholly free block of the right level leaves a consistent heap. */
  lemma Taking(units: nat, live: Live, s: nat, n: nat)
    requires LiveOk(units, live) && Fits(units, s, n)
    requires WhollyFree(Occupied(units, live), Fit(n), Shr(s, Fit(n)))
    ensures s !in live
    ensures LiveOk(units, live[s := n])
    ensures Occupied(units, live[s := n]) == Occupied(units, live) + Span(units, s, n)
  {
    var occ := Occupied(units, live);
    forall t | t in live ensures t != s && Span(units, t, live[t]) !! Span(units, s, n) {
      assert Fits(units, t, live[t]);
      FirstUnit(units, Fit(live[t]), Shr(t, Fit(live[t])));
      assert t in Span(units, t, live[t]) && t in occ;
      forall u | u in Span(units, t, live[t]) ensures u !in Span(units, s, n) {
        assert u in occ;
      }
    }
    OccupiedAdd(units, live, s, n);
  }

  // ---------------------------------------------------------------- choosing a block

  /** The first level from k on that has a free block, or the number of levels. */
  ghost function FirstLevel(f: Bitmaps, k: nat): (j: nat)
    ensures forall l :: k <= l < j && l < |f| ==> f[l] == {}
    ensures j < |f| ==> k <= j && f[j] != {}
    decreases |f| - k
  {
    if k >= |f| then |f| else if f[k] != {} then k else FirstLevel(f, k + 1)
  }

  ghost predicate IsLeast(s: set<nat>, x: nat) {
    x in s && forall y :: y in s ==> x <= y
  }

  lemma {:induction false} HasLeast(s: set<nat>)
    requires s != {}
    ensures exists x :: IsLeast(s, x)
  {
    var x :| x in s;
    if s == {x} {
      assert IsLeast(s, x);
    } else {
      assert s - {x} != {};
      HasLeast(s - {x});
      var y :| IsLeast(s - {x}, y);
      var z := if x < y then x else y;
      assert forall w :: w in s ==> w == x || w in s - {x};
      assert IsLeast(s, z);
    }
  }

  ghost function Least(s: set<nat>): (x: nat)
    requires s != {}
    ensures IsLeast(s, x)
  {
    HasLeast(s);
    var x :| IsLeast(s, x);
    x
  }

  /** The page an allocation of n pages gets: the leftmost page of the leftmost free block of the
      smallest sufficient level. */
  ghost function Chosen(units: nat, live: Live, n: nat): Option<nat> {
    var f := Canonical(units, Occupied(units, live));
    var j := FirstLevel(f, Fit(n));
    if j >= |f| then None else Some(Shl(Least(f[j]), j))
  }

  /** Every wholly free block lies in a maximal free one. */
  lemma {:induction false} Climb(units: nat, occ: set<nat>, k: nat, i: nat) returns (j: nat)
    requires Exists(units, k, i) && WhollyFree(occ, k, i)
    ensures k <= j < Levels(units) && MaximalFree(units, occ, j, Shr(i, j - k))
    decreases Levels(units) - k
  {
    if Exists(units, k + 1, i / 2) && WhollyFree(occ, k + 1, i / 2) {
      j := Climb(units, occ, k + 1, i / 2);
      ShrShr(i, 1, j - k - 1);
      assert Shr(i, 1) == Shr(i, 0) / 2;
    } else {
      j := k;
      assert Shr(units, k) > 0;
    }
  }

  /** The leftmost block of level k in a free block of level j >= k. */
  lemma LeftmostPart(units: nat, occ: set<nat>, j: nat, m: nat, k: nat)
    requires k <= j && Exists(units, j, m) && WhollyFree(occ, j, m)
    ensures Exists(units, k, Shl(m, j - k)) && WhollyFree(occ, k, Shl(m, j - k))
    ensures Shr(Shl(m, j), k) == Shl(m, j - k)
    ensures Shl(Shl(m, j - k), k) == Shl(m, j)
    ensures Shr(Shl(m, j), j) == m
  {
    ShrOfShl(m, j - k);
    ExistsUnder(units, k, Shl(m, j - k), j, m);
    WhollyFreeUnder(occ, k, Shl(m, j - k), j, m);
    ShlShl(m, j - k, k);
    ShrOfShl(Shl(m, j - k), k);
    ShrOfShl(m, j);
  }

  /** Allocation fails exactly if no block of the fitting level is wholly free. */
  lemma Completeness(units: nat, live: Live, n: nat)
    requires n > 0
    ensures Chosen(units, live, n) == None <==>
            forall i: nat :: Exists(units, Fit(n), i) ==> !WhollyFree(Occupied(units, live), Fit(n), i)
  {
    var occ := Occupied(units, live);
    var f := Canonical(units, occ);
    var j := FirstLevel(f, Fit(n));
    if j < |f| {
      var m := Least(f[j]);
      LeftmostPart(units, occ, j, m, Fit(n));
    } else {
      forall i: nat | Exists(units, Fit(n), i) ensures !WhollyFree(occ, Fit(n), i) {
        if WhollyFree(occ, Fit(n), i) {
          var l := Climb(units, occ, Fit(n), i);
        }
      }
    }
  }

  /** A successful allocation gets a fresh block, and it is the best fit: the leftmost part of a
      maximal free block, of the smallest level that has one, of smallest index in that level. */
  lemma BestFit(units: nat, live: Live, n: nat)
    requires LiveOk(units, live) && n > 0 && Chosen(units, live, n).Some?
    ensures var s := Chosen(units, live, n).value; var occ := Occupied(units, live);
            && s !in live
            && LiveOk(units, live[s := n])
            && Span(units, s, n) !! occ
            && Occupied(units, live[s := n]) == occ + Span(units, s, n)
            && exists j: nat :: Fit(n) <= j && MaximalFree(units, occ, j, Shr(s, j)) && s == Shl(Shr(s, j), j)
                 && (forall l: nat, i: nat :: Fit(n) <= l && MaximalFree(units, occ, l, i) ==> j <= l)
                 && (forall i: nat :: MaximalFree(units, occ, j, i) ==> Shr(s, j) <= i)
  {
    var occ := Occupied(units, live);
    var f := Canonical(units, occ);
    var k := Fit(n);
    var j := FirstLevel(f, k);
    var m := Least(f[j]);
    var s := Shl(m, j);
    LeftmostPart(units, occ, j, m, k);
    assert Shr(units, k) > 0;
    Taking(units, live, s, n);
    forall l: nat, i: nat | k <= l && MaximalFree(units, occ, l, i) ensures j <= l {
      assert Shr(units, l) > 0;
      assert i in f[l];
    }
    forall i: nat | MaximalFree(units, occ, j, i) ensures m <= i {
      assert i in f[j];
    }
  }

  // ---------------------------------------------------------------- partition

  /** Each page of the heap lies in exactly one live block or exactly one maximal free block. */
  lemma Partition(units: nat, live: Live, u: nat)
    requires LiveOk(units, live) && u < units
    ensures var occ := Occupied(units, live);
            if u in occ then
              && (exists s :: s in live && u in Span(units, s, live[s])
                    && forall t :: t in live && u in Span(units, t, live[t]) ==> t == s)
              && forall k: nat :: !MaximalFree(units, occ, k, Shr(u, k))
            else
              && (forall s :: s in live ==> u !in Span(units, s, live[s]))
              && exists k: nat :: MaximalFree(units, occ, k, Shr(u, k))
                    && forall j: nat :: MaximalFree(units, occ, j, Shr(u, j)) ==> j == k
  {
    var occ := Occupied(units, live);
    if u in occ {
      var s :| s in live && u in Span(units, s, live[s]);
      forall t | t in live && u in Span(units, t, live[t]) ensures t == s {
      }
    } else {
      assert WhollyFree(occ, 0, u);
      var k := Climb(units, occ, 0, u);
      assert MaximalFree(units, occ, k, Shr(u, k));
      forall j: nat | MaximalFree(units, occ, j, Shr(u, j)) ensures j == k {
        OneMaximal(units, occ, u, j, k);
        OneMaximal(units, occ, u, k, j);
      }
    }
  }

  lemma OneMaximal(units: nat, occ: set<nat>, u: nat, j: nat, k: nat)
    requires MaximalFree(units, occ, j, Shr(u, j)) && MaximalFree(units, occ, k, Shr(u, k))
    ensures j >= k
  {
    if j < k {
      ShrShr(u, j, k - j);
      NothingFreeAbove(units, occ, j, Shr(u, j), k, Shr(u, k));
    }
  }

  // ---------------------------------------------------------------- accounting

  /** Total length of the live allocations, in pages. */
  ghost function Total(live: Live): nat {
    if live == map[] then 0 else
    var s :| s in live;
    live[s] + Total(live - {s})
  }

  lemma {:induction false} TotalWithout(live: Live, s: nat)
    requires s in live
    ensures Total(live) == live[s] + Total(live - {s})
    decreases |live|
  {
    var t :| t in live && Total(live) == live[t] + Total(live - {t});
    if t != s {
      TotalWithout(live - {t}, s);
      TotalWithout(live - {s}, t);
      assert live - {t} - {s} == live - {s} - {t};
    }
  }

  lemma TotalWith(live: Live, s: nat, n: nat)
    requires s !in live
    ensures Total(live[s := n]) == Total(live) + n
  {
    TotalWithout(live[s := n], s);
    assert live[s := n] - {s} == live;
  }

  /** The pages s, ..., s + n - 1. */
  function Run(s: nat, n: nat): (r: set<nat>)
    ensures |r| == n
    ensures forall u :: u in r <==> s <= u < s + n
  {
    if n == 0 then {} else Run(s, n - 1) + {s + n - 1}
  }

  /** The pages an allocation asked for are pages of its block. */
  lemma RunInSpan(units: nat, s: nat, n: nat)
    requires Fits(units, s, n)
    ensures Run(s, n) <= Span(units, s, n)
  {
    var k := Fit(n);
    var i := Shr(s, k);
    forall u | u in Run(s, n) ensures u in Span(units, s, n) {
      InBlock(s, i, k, u);
      if u >= units { ShrMonotone(units, u, k); }
    }
  }

  lemma InBlock(s: nat, i: nat, k: nat, u: nat)
    requires s == Shl(i, k) && s <= u < s + Shl(1, k)
    ensures Shr(u, k) == i
  {
    ShlAdd(i, 1, k);
    ShlOfShr(u, k);
    if Shr(u, k) < i { ShlMonotone(Shr(u, k) + 1, i, k); }
    if Shr(u, k) > i { ShlMonotone(i + 1, Shr(u, k), k); }
  }

  lemma {:induction false} ShlAdd(x: nat, y: nat, k: nat)
    ensures Shl(x + y, k) == Shl(x, k) + Shl(y, k)
  {
    if k > 0 { ShlAdd(x, y, k - 1); }
  }

  /** The pages two live allocations asked for do not overlap and lie inside the heap. */
  lemma RangesDisjoint(units: nat, live: Live, s: nat, t: nat)
    requires LiveOk(units, live) && s in live && t in live && s != t
    ensures s + live[s] <= t || t + live[t] <= s
    ensures s + live[s] <= units
  {
    assert Fits(units, s, live[s]) && Fits(units, t, live[t]);
    RunInSpan(units, s, live[s]);
    RunInSpan(units, t, live[t]);
    assert s + live[s] - 1 in Run(s, live[s]);
    var u := if s < t then t else s;
    assert !(u in Run(s, live[s]) && u in Run(t, live[t]));
  }

  /** Live allocations never ask for more than there is. */
  lemma {:induction false} TotalBounded(units: nat, live: Live)
    requires LiveOk(units, live)
    ensures Total(live) <= |Occupied(units, live)| <= units
    decreases |live|
  {
    if live == map[] {
    } else {
      var s :| s in live && Total(live) == live[s] + Total(live - {s});
      Freeing(units, live, s);
      TotalBounded(units, live - {s});
      RunInSpan(units, s, live[s]);
      var rest := Occupied(units, live - {s});
      var span := Span(units, s, live[s]);
      assert rest !! span;
      SubsetSize(Run(s, live[s]), span);
    }
    SubsetSize(Occupied(units, live), Run(0, units));
  }

  lemma {:induction false} SubsetSize(a: set<nat>, b: set<nat>)
    requires a <= b
    ensures |a| <= |b|
  {
    assert b == a + (b - a);
  }

  // ---------------------------------------------------------------- runs

  datatype Request = Alloc(n: nat) | Free(s: nat)

  /** One request against the heap; a free names a live allocation. */
  ghost predicate Step(units: nat, live: Live, r: Request, next: Live) {
    match r
    case Alloc(n) =>
      n > 0 && next == (match Chosen(units, live, n) case None => live case Some(s) => live[s := n])
    case Free(s) =>
      s in live && next == live - {s}
  }

  ghost predicate IsRun(units: nat, requests: seq<Request>, states: seq<Live>) {
    && |states| == |requests| + 1
    && states[0] == map[]
    && forall i :: 0 <= i < |requests| ==> Step(units, states[i], requests[i], states[i + 1])
  }

  /** Any number of pages above 0 may be asked for at any time and any live allocation freed. */
  lemma StepPossible(units: nat, live: Live, n: nat, s: nat)
    ensures (exists next :: Step(units, live, Alloc(n), next)) <==> n > 0
    ensures (exists next :: Step(units, live, Free(s), next)) <==> s in live
  {
    if n > 0 {
      assert Step(units, live, Alloc(n), match Chosen(units, live, n) case None => live case Some(t) => live[t := n]);
    }
    if s in live {
      assert Step(units, live, Free(s), live - {s});
    }
  }

  lemma StepKeeps(units: nat, live: Live, r: Request, next: Live)
    requires LiveOk(units, live) && Step(units, live, r, next)
    ensures LiveOk(units, next)
  {
    match r
    case Alloc(n) =>
      if Chosen(units, live, n).Some? { BestFit(units, live, n); }
    case Free(s) =>
      Freeing(units, live, s);
  }

  /** In every state of every run the live blocks are disjoint and inside the heap and ask for no
      more pages than there are. */
  lemma {:induction false} RunSafe(units: nat, requests: seq<Request>, states: seq<Live>, i: nat)
    requires IsRun(units, requests, states) && i < |states|
    ensures LiveOk(units, states[i])
    ensures Total(states[i]) <= units
  {
    if i > 0 {
      RunSafe(units, requests, states, i - 1);
      StepKeeps(units, states[i - 1], requests[i - 1], states[i]);
    }
    TotalBounded(units, states[i]);
  }

  /** The bitmaps of a heap with nothing live: the unpaired last block of each level. */
  lemma EmptyHeap(units: nat)
    ensures Occupied(units, map[]) == {}
    ensures forall k, i: nat :: 0 <= k < Levels(units) ==>
              (i in Canonical(units, {})[k] <==> Shr(units, k) % 2 == 1 && i == Shr(units, k) - 1)
  {
    forall k, i: nat | 0 <= k < Levels(units)
      ensures i in Canonical(units, {})[k] <==> Shr(units, k) % 2 == 1 && i == Shr(units, k) - 1
    {
      assert Shr(units, k + 1) == Shr(units, k) / 2;
    }
  }

  // ---------------------------------------------------------------- the walks of alloc and dealloc

  /** Splitting a held block of level `top` down to level `fit`, always holding the left half. */
  ghost function SplitBits(f: Bitmaps, top: nat, i: nat, fit: nat): (g: Bitmaps)
    requires fit <= top < |f|
    ensures |g| == |f|
    decreases top
  {
    if top == fit then f else SplitBits(f[top - 1 := f[top - 1] + {2 * i + 1}], top - 1, 2 * i, fit)
  }

  /** Giving back a held block: while its buddy is free, clear the buddy and hold the parent. */
  ghost function MergeBits(f: Bitmaps, k: nat, i: nat): (g: Bitmaps)
    requires k < |f|
    ensures |g| == |f|
    decreases |f| - k
  {
    if Buddy(i) in f[k] && k + 1 < |f| then MergeBits(f[k := f[k] - {Buddy(i)}], k + 1, i / 2)
    else f[k := f[k] + {i}]
  }

  /** Along that walk every block held exists and has its bit clear, and the top level is never
      left with a merge pending. */
  ghost predicate MergePath(units: nat, f: Bitmaps, k: nat, i: nat)
    requires k < |f|
    decreases |f| - k
  {
    && Exists(units, k, i) && i !in f[k]
    && (Buddy(i) in f[k] ==> k + 1 < |f| && MergePath(units, f[k := f[k] - {Buddy(i)}], k + 1, i / 2))
  }

  lemma SplitStep(f: Bitmaps, top: nat, i: nat, fit: nat)
    requires fit < top < |f|
    ensures SplitBits(f, top, i, fit) == SplitBits(f[top - 1 := f[top - 1] + {2 * i + 1}], top - 1, 2 * i, fit)
  {
  }

  lemma MergeStep(units: nat, f: Bitmaps, k: nat, i: nat)
    requires k < |f| && MergePath(units, f, k, i) && Buddy(i) in f[k]
    ensures k + 1 < |f| && MergePath(units, f[k := f[k] - {Buddy(i)}], k + 1, i / 2)
    ensures MergeBits(f, k, i) == MergeBits(f[k := f[k] - {Buddy(i)}], k + 1, i / 2)
  {
  }

  lemma {:induction false} SplitKeepsCanonical(units: nat, occ: set<nat>, top: nat, i: nat, fit: nat)
    requires fit <= top < Levels(units)
    requires Exists(units, top, i) && WhollyFree(occ, top, i)
    ensures SplitBits(Canonical(units, occ + BlockUnits(units, top, i)), top, i, fit) ==
            Canonical(units, occ + BlockUnits(units, fit, Shl(i, top - fit)))
    decreases top
  {
    if top > fit {
      Split(units, occ, top - 1, i);
      SplitKeepsCanonical(units, occ, top - 1, 2 * i, fit);
      ShlDouble(i, top - fit);
    }
  }

  lemma {:induction false} MergeKeepsCanonical(units: nat, occ: set<nat>, k: nat, i: nat)
    requires k < Levels(units)
    requires Exists(units, k, i) && WhollyFree(occ, k, i)
    ensures var f := Canonical(units, occ + BlockUnits(units, k, i));
            MergePath(units, f, k, i) && MergeBits(f, k, i) == Canonical(units, occ)
    decreases Levels(units) - k
  {
    BuddyBit(units, occ, k, i);
    if Buddy(i) in Canonical(units, occ + BlockUnits(units, k, i))[k] {
      Merge(units, occ, k, i);
      MergeKeepsCanonical(units, occ, k + 1, i / 2);
    } else {
      Give(units, occ, k, i);
    }
  }

  /** What alloc does to the bitmaps once it has found block i of level j: they become the
      canonical ones of the heap with the new allocation. */
  lemma AllocBits(units: nat, live: Live, n: nat, f: Bitmaps, j: nat, i: nat)
    requires LiveOk(units, live) && n > 0
    requires f == Canonical(units, Occupied(units, live))
    requires j < |f| && j == FirstLevel(f, Fit(n)) && IsLeast(f[j], i)
    ensures Fit(n) <= j && Exists(units, j, i)
    ensures var s := Shl(i, j);
            && Chosen(units, live, n) == Some(s)
            && s !in live
            && LiveOk(units, live[s := n])
            && SplitBits(f[j := f[j] - {i}], j, i, Fit(n)) == Canonical(units, Occupied(units, live[s := n]))
  {
    var occ, k := Occupied(units, live), Fit(n);
    assert Least(f[j]) == i;
    BestFit(units, live, n);
    LeftmostPart(units, occ, j, i, k);
    Take(units, occ, j, i);
    SplitKeepsCanonical(units, occ, j, i, k);
  }

  /** What dealloc does to the bitmaps: they become the canonical ones without the allocation. */
  lemma DeallocBits(units: nat, live: Live, s: nat)
    requires LiveOk(units, live) && s in live
    ensures LiveOk(units, live - {s})
    ensures var f := Canonical(units, Occupied(units, live));
            var k := Fit(live[s]);
            && k < |f|
            && MergePath(units, f, k, Shr(s, k))
            && MergeBits(f, k, Shr(s, k)) == Canonical(units, Occupied(units, live - {s}))
  {
    Freeing(units, live, s);
    assert Fits(units, s, live[s]);
    MergeKeepsCanonical(units, Occupied(units, live - {s}), Fit(live[s]), Shr(s, Fit(live[s])));
  }
}
