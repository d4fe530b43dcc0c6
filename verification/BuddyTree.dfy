/** The block tree of the buddy allocator and the canonical bitmaps of a heap.

Level k divides the `units` data pages into `units >> k` blocks of 2^k pages each; block i of
level k has the blocks 2i and 2i+1 of level k-1 as its halves.  `units` need not be a power of
two, so a level may end in a block that has no buddy, and such a block has no parent.

`Canonical` is the reference the allocator is proved against: a function of the occupied pages
alone, which knows nothing of splitting and merging.
 */
module BuddyTree {

  type Bitmaps = seq<set<nat>>

  /** x >> k */
  function Shr(x: nat, k: nat): nat {
    if k == 0 then x else Shr(x, k - 1) / 2
  }

  /** x << k */
  function Shl(x: nat, k: nat): nat {
    if k == 0 then x else 2 * Shl(x, k - 1)
  }

  lemma {:induction false} ShrShr(x: nat, a: nat, b: nat)
    ensures Shr(Shr(x, a), b) == Shr(x, a + b)
  {
    if b > 0 {
      ShrShr(x, a, b - 1);
    }
  }

  lemma {:induction false} ShrMonotone(x: nat, y: nat, k: nat)
    requires x <= y
    ensures Shr(x, k) <= Shr(y, k)
  {
    if k > 0 {
      ShrMonotone(x, y, k - 1);
    }
  }

  lemma {:induction false} ShlShl(x: nat, a: nat, b: nat)
    ensures Shl(Shl(x, a), b) == Shl(x, a + b)
  {
    if b > 0 {
      ShlShl(x, a, b - 1);
    }
  }

  lemma {:induction false} ShrOfShl(x: nat, k: nat)
    ensures Shr(Shl(x, k), k) == x
    decreases k
  {
    if k > 0 {
      ShrOfShl(2 * x, k - 1);
      ShlShl(x, 1, k - 1);
      assert Shl(x, 1) == 2 * Shl(x, 0) == 2 * x;
    }
  }

  /** Shifting down and back up drops less than one block. */
  lemma {:induction false} ShlOfShr(x: nat, k: nat)
    ensures Shl(Shr(x, k), k) <= x < Shl(Shr(x, k) + 1, k)
  {
    if k > 0 {
      ShlOfShr(x, k - 1);
      var h := Shr(x, k - 1);
      ShlDouble(h / 2, k);
      ShlDouble(h / 2 + 1, k);
      ShlMonotone(2 * (h / 2), h, k - 1);
      ShlMonotone(h + 1, 2 * (h / 2 + 1), k - 1);
    }
  }

  lemma {:induction false} ShlDouble(x: nat, k: nat)
    requires k > 0
    ensures Shl(x, k) == Shl(2 * x, k - 1)
  {
    ShlShl(x, 1, k - 1);
    assert Shl(x, 1) == 2 * Shl(x, 0) == 2 * x;
  }

  lemma {:induction false} ShlMonotone(x: nat, y: nat, k: nat)
    requires x <= y
    ensures Shl(x, k) <= Shl(y, k)
  {
    if k > 0 {
      ShlMonotone(x, y, k - 1);
    }
  }

  /** Number of levels: one more than the number of halvings that leave a block. */
  function Levels(units: nat): (n: nat)
    ensures forall k: nat :: k < n <==> Shr(units, k) > 0
  {
    if units == 0 then
      ShrZero();
      0
    else
      LevelsStep(units);
      1 + Levels(units / 2)
  }

  lemma {:induction false} ShrZero()
    ensures forall k: nat :: Shr(0, k) == 0
  {
    forall k: nat ensures Shr(0, k) == 0 { ShrZeroAt(k); }
  }

  lemma {:induction false} ShrZeroAt(k: nat)
    ensures Shr(0, k) == 0
  {
    if k > 0 { ShrZeroAt(k - 1); }
  }

  lemma {:induction false} LevelsStep(x: nat)
    ensures forall k: nat {:trigger Shr(x, k)} :: k > 0 ==> Shr(x, k) == Shr(x / 2, k - 1)
  {
    forall k: nat {:trigger Shr(x, k)} | k > 0 ensures Shr(x, k) == Shr(x / 2, k - 1) {
      ShrShr(x, 1, k - 1);
      assert Shr(x, 1) == Shr(x, 0) / 2;
    }
  }

  /** Block i of level k is one of the `units >> k` blocks of its level. */
  predicate Exists(units: nat, k: nat, i: nat) {
    i < Shr(units, k)
  }

  /** The pages of block i of level k. */
  function BlockUnits(units: nat, k: nat, i: nat): set<nat> {
    set u | 0 <= u < units && Shr(u, k) == i
  }

  /** No page of block i of level k is occupied. */
  ghost predicate WhollyFree(occ: set<nat>, k: nat, i: nat) {
    forall u :: u in occ ==> Shr(u, k) != i
  }

  /** The block is there, is wholly free, and is not part of a larger wholly free block. */
  ghost predicate MaximalFree(units: nat, occ: set<nat>, k: nat, i: nat) {
    && Exists(units, k, i)
    && WhollyFree(occ, k, i)
    && !(Exists(units, k + 1, i / 2) && WhollyFree(occ, k + 1, i / 2))
  }

  /** The bitmaps of a heap whose occupied pages are `occ`: the maximal free blocks. */
  ghost function Canonical(units: nat, occ: set<nat>): (f: Bitmaps)
    ensures |f| == Levels(units)
    ensures forall k, i :: 0 <= k < |f| ==> (i in f[k] <==> MaximalFree(units, occ, k, i))
  {
    seq(Levels(units), k requires k >= 0 => set i | 0 <= i < Shr(units, k) && MaximalFree(units, occ, k, i))
  }

  /** Block m of level j lies inside block i of level k. */
  predicate Under(j: nat, m: nat, k: nat, i: nat) {
    j <= k && Shr(m, k - j) == i
  }

  /** The leftmost page of an existing block is one of its pages. */
  lemma FirstUnit(units: nat, k: nat, i: nat)
    requires Exists(units, k, i)
    ensures Shl(i, k) in BlockUnits(units, k, i)
  {
    ShrOfShl(i, k);
    if Shl(i, k) >= units {
      ShrMonotone(units, Shl(i, k), k);
    }
  }

  /** Everything under an existing block exists. */
  lemma {:induction false} ExistsUnder(units: nat, j: nat, m: nat, k: nat, i: nat)
    requires Exists(units, k, i) && Under(j, m, k, i)
    ensures Exists(units, j, m)
  {
    if m >= Shr(units, j) {
      ShrMonotone(Shr(units, j), m, k - j);
      ShrShr(units, j, k - j);
    }
  }

  lemma WhollyFreeUnder(occ: set<nat>, j: nat, m: nat, k: nat, i: nat)
    requires WhollyFree(occ, k, i) && Under(j, m, k, i)
    ensures WhollyFree(occ, j, m)
  {
    forall u | u in occ ensures Shr(u, j) != m {
      ShrShr(u, j, k - j);
    }
  }

  /** Two blocks share a page exactly if one lies inside the other. */
  lemma BlocksNest(units: nat, j: nat, m: nat, k: nat, i: nat)
    requires Exists(units, j, m) && Exists(units, k, i)
    ensures BlockUnits(units, j, m) !! BlockUnits(units, k, i) <==> !Under(j, m, k, i) && !Under(k, i, j, m)
  {
    if j <= k {
      ShareUnit(units, j, m, k, i);
    } else {
      ShareUnit(units, k, i, j, m);
    }
  }

  lemma ShareUnit(units: nat, j: nat, m: nat, k: nat, i: nat)
    requires j <= k && Exists(units, j, m)
    ensures Under(j, m, k, i) <==> exists u :: u in BlockUnits(units, j, m) && u in BlockUnits(units, k, i)
    ensures Under(k, i, j, m) ==> Under(j, m, k, i)
  {
    var u := Shl(m, j);
    FirstUnit(units, j, m);
    ShrShr(u, j, k - j);
    forall v | v in BlockUnits(units, j, m) && v in BlockUnits(units, k, i) ensures Under(j, m, k, i) {
      ShrShr(v, j, k - j);
    }
  }

  /** What occupying one more block does to the freedom of every block. */
  lemma FreeAfterOccupying(units: nat, occ: set<nat>, k: nat, i: nat, j: nat, m: nat)
    requires Exists(units, k, i) && Exists(units, j, m)
    ensures WhollyFree(occ + BlockUnits(units, k, i), j, m) <==>
            WhollyFree(occ, j, m) && !Under(j, m, k, i) && !Under(k, i, j, m)
  {
    var b := BlockUnits(units, k, i);
    BlocksNest(units, j, m, k, i);
    if !(b !! BlockUnits(units, j, m)) {
      var u :| u in b && u in BlockUnits(units, j, m);
      assert u in occ + b && Shr(u, j) == m;
    }
  }

  /** No ancestor of a maximal free block is free. */
  lemma NothingFreeAbove(units: nat, occ: set<nat>, k: nat, i: nat, j: nat, m: nat)
    requires MaximalFree(units, occ, k, i)
    requires k < j && Under(k, i, j, m) && Exists(units, j, m)
    ensures !WhollyFree(occ, j, m)
  {
    if WhollyFree(occ, j, m) {
      UnderStep(k, i, j, m);
      ExistsUnder(units, k + 1, i / 2, j, m);
      WhollyFreeUnder(occ, k + 1, i / 2, j, m);
    }
  }

  lemma UnderStep(k: nat, i: nat, j: nat, m: nat)
    requires k < j
    ensures Under(k, i, j, m) <==> Under(k + 1, i / 2, j, m)
  {
    ShrShr(i, 1, j - k - 1);
    assert Shr(i, 1) == Shr(i, 0) / 2;
  }

  /** Occupying a maximal free block takes just that block out of the bitmaps. */
  lemma Take(units: nat, occ: set<nat>, k: nat, i: nat)
    requires MaximalFree(units, occ, k, i)
    requires k < Levels(units)
    ensures Canonical(units, occ + BlockUnits(units, k, i)) ==
            Canonical(units, occ)[k := Canonical(units, occ)[k] - {i}]
  {
    var f := Canonical(units, occ);
    var g := Canonical(units, occ + BlockUnits(units, k, i));
    forall j | 0 <= j < |f| ensures g[j] == f[k := f[k] - {i}][j] {
      forall m: nat ensures m in g[j] <==> m in f[j] && !(j == k && m == i) {
        if Exists(units, j, m) {
          TakeAt(units, occ, k, i, j, m);
        }
      }
    }
  }

  lemma TakeAt(units: nat, occ: set<nat>, k: nat, i: nat, j: nat, m: nat)
    requires MaximalFree(units, occ, k, i)
    requires Exists(units, j, m)
    ensures MaximalFree(units, occ + BlockUnits(units, k, i), j, m) <==>
            MaximalFree(units, occ, j, m) && !(j == k && m == i)
  {
    FreeAfterOccupying(units, occ, k, i, j, m);
    if Under(j, m, k, i) {
      if j < k {
        UnderStep(j, m, k, i);
        ExistsUnder(units, j + 1, m / 2, k, i);
        WhollyFreeUnder(occ, j + 1, m / 2, k, i);
      }
    } else if Under(k, i, j, m) {
      NothingFreeAbove(units, occ, k, i, j, m);
    } else if Exists(units, j + 1, m / 2) {
      FreeAfterOccupying(units, occ, k, i, j + 1, m / 2);
      if j < k {
        UnderStep(j, m, k, i);
      }
      if Under(k, i, j + 1, m / 2) {
        NothingFreeAbove(units, occ, k, i, j + 1, m / 2);
      }
    }
  }

  /** The other half of the parent: `i ^ 1`. */
  function Buddy(i: nat): (b: nat)
    ensures b != i && b / 2 == i / 2 && (b == i + 1 || i == b + 1)
  {
    if i % 2 == 0 then i + 1 else i - 1
  }

  /** A block is its two halves. */
  lemma TwoHalves(units: nat, k: nat, i: nat)
    ensures BlockUnits(units, k + 1, i / 2) == BlockUnits(units, k, i) + BlockUnits(units, k, Buddy(i))
  {
    forall u: nat ensures Shr(u, k + 1) == i / 2 <==> Shr(u, k) == i || Shr(u, k) == Buddy(i) {
      assert Shr(u, k + 1) == Shr(u, k) / 2;
    }
  }

  /** While a free block is held out of the bitmaps, the bit of its buddy says whether the buddy
      is there and wholly free. */
  lemma BuddyBit(units: nat, occ: set<nat>, k: nat, i: nat)
    requires Exists(units, k, i) && k < Levels(units)
    requires WhollyFree(occ, k, i)
    ensures var f := Canonical(units, occ + BlockUnits(units, k, i));
            && i !in f[k]
            && (Buddy(i) in f[k] <==> Exists(units, k, Buddy(i)) && WhollyFree(occ, k, Buddy(i)))
  {
    var b := Buddy(i);
    FreeAfterOccupying(units, occ, k, i, k, i);
    if Exists(units, k, b) {
      FreeAfterOccupying(units, occ, k, i, k, b);
      if Exists(units, k + 1, b / 2) {
        FreeAfterOccupying(units, occ, k, i, k + 1, b / 2);
        assert Shr(i, 1) == Shr(i, 0) / 2;
        assert Under(k, i, k + 1, b / 2);
      }
    }
  }

  /** Giving back a held block whose buddy is not free adds just that block to the bitmaps. */
  lemma Give(units: nat, occ: set<nat>, k: nat, i: nat)
    requires Exists(units, k, i) && k < Levels(units)
    requires WhollyFree(occ, k, i)
    requires Buddy(i) !in Canonical(units, occ + BlockUnits(units, k, i))[k]
    ensures var f := Canonical(units, occ + BlockUnits(units, k, i));
            Canonical(units, occ) == f[k := f[k] + {i}]
  {
    BuddyBit(units, occ, k, i);
    ParentFree(units, occ, k, i);
    Take(units, occ, k, i);
    var c := Canonical(units, occ);
    assert c[k] - {i} + {i} == c[k];
    assert c[k := c[k] - {i}][k := c[k]] == c;
  }

  lemma ParentFree(units: nat, occ: set<nat>, k: nat, i: nat)
    requires Exists(units, k, i)
    ensures Exists(units, k + 1, i / 2) && WhollyFree(occ, k + 1, i / 2) <==>
            Exists(units, k, Buddy(i)) && WhollyFree(occ, k, i) && WhollyFree(occ, k, Buddy(i))
  {
    assert Shr(units, k + 1) == Shr(units, k) / 2;
    forall u | u in occ ensures Shr(u, k + 1) == i / 2 <==> Shr(u, k) == i || Shr(u, k) == Buddy(i) {
      assert Shr(u, k + 1) == Shr(u, k) / 2;
    }
    if Exists(units, k + 1, i / 2) && WhollyFree(occ, k + 1, i / 2) {
      assert Exists(units, k, Buddy(i));
    }
    if WhollyFree(occ, k, i) && WhollyFree(occ, k, Buddy(i)) {
      assert WhollyFree(occ, k + 1, i / 2);
    }
  }

  /** Giving back a held block whose buddy is free: hold the parent instead, and clear the buddy. */
  lemma Merge(units: nat, occ: set<nat>, k: nat, i: nat)
    requires Exists(units, k, i) && k < Levels(units)
    requires WhollyFree(occ, k, i)
    requires Buddy(i) in Canonical(units, occ + BlockUnits(units, k, i))[k]
    ensures k + 1 < Levels(units) && Exists(units, k + 1, i / 2) && WhollyFree(occ, k + 1, i / 2)
    ensures var f := Canonical(units, occ + BlockUnits(units, k, i));
            Canonical(units, occ + BlockUnits(units, k + 1, i / 2)) == f[k := f[k] - {Buddy(i)}]
  {
    BuddyBit(units, occ, k, i);
    ParentFree(units, occ, k, i);
    TwoHalves(units, k, i);
    Take(units, occ + BlockUnits(units, k, i), k, Buddy(i));
    assert occ + BlockUnits(units, k, i) + BlockUnits(units, k, Buddy(i)) ==
           occ + BlockUnits(units, k + 1, i / 2);
  }

  /** Splitting a held block: hold its left half, and set the bit of its right half. */
  lemma Split(units: nat, occ: set<nat>, k: nat, i: nat)
    requires Exists(units, k + 1, i) && k + 1 < Levels(units)
    requires WhollyFree(occ, k + 1, i)
    ensures Exists(units, k, 2 * i) && WhollyFree(occ, k, 2 * i)
    ensures var f := Canonical(units, occ + BlockUnits(units, k + 1, i));
            Canonical(units, occ + BlockUnits(units, k, 2 * i)) == f[k := f[k] + {2 * i + 1}]
  {
    var b := 2 * i + 1;
    var held := occ + BlockUnits(units, k, 2 * i);
    assert Shr(units, k + 1) == Shr(units, k) / 2;
    assert Buddy(2 * i) == b && Buddy(b) == 2 * i;
    ParentFree(units, occ, k, 2 * i);
    TwoHalves(units, k, 2 * i);
    FreeAfterOccupying(units, occ, k, 2 * i, k, b);
    assert held + BlockUnits(units, k, b) == occ + BlockUnits(units, k + 1, i);
    BuddyBit(units, held, k, b);
    FreeAfterOccupying(units, occ, k, 2 * i, k, 2 * i);
    Give(units, held, k, b);
  }
}
