/** The buddy allocator over its packed bitmaps (buddyblock/src/lib.rs). */
module BuddyAllocator {
  import opened Options
  import opened Arithmetic
  import opened BuddyTree
  import opened BuddyHeap
  import opened BuddyInfo
  import opened BitBytes

  const MAX_LEN: nat := 0x8000_0000_0000_0000

  // ---------------------------------------------------------------- layout of the bitmap area

  /** First byte of the bitmap of level k in the bitmap area. */
  function Off(units: nat, k: nat): nat {
    if k == 0 then 0 else Off(units, k - 1) + ByteLen(Shr(units, k - 1))
  }

  lemma {:induction false} OffRest(units: nat, k: nat)
    ensures Off(units, k) + BitsLen(Shr(units, k)) == BitsLen(units)
  {
    hide ByteLen;
    NoBytes();
    if k > 0 {
      OffRest(units, k - 1);
      assert Shr(units, k) == Shr(units, k - 1) / 2;
    }
  }

  lemma NoBytes()
    ensures ByteLen(0) == 0
  {
  }

  lemma {:induction false} OffDisjoint(units: nat, j: nat, k: nat)
    requires j < k
    ensures Off(units, j) + ByteLen(Shr(units, j)) <= Off(units, k)
  {
    if j + 1 < k {
      OffDisjoint(units, j, k - 1);
    }
  }

  lemma BitsRest(n: nat)
    ensures ByteLen(n) <= BitsLen(n)
  {
  }

  /** The bits of level k, as a set. */
  ghost function LevelBits(bytes: seq<bv8>, units: nat, k: nat): set<nat>
    requires |bytes| == BitsLen(units)
  {
    OffRest(units, k);
    Bits(bytes, Off(units, k), ByteLen(Shr(units, k)))
  }

  ghost function Unpack(bytes: seq<bv8>, units: nat): (f: Bitmaps)
    requires |bytes| == BitsLen(units)
    ensures |f| == Levels(units)
  {
    seq(Levels(units), k requires k >= 0 => LevelBits(bytes, units, k))
  }

  /** Writing a byte of level k changes the bits of no other level. */
  lemma UnpackWrite(bytes: seq<bv8>, units: nat, k: nat, j: nat, v: bv8)
    requires |bytes| == BitsLen(units) && k < Levels(units)
    requires Off(units, k) <= j < Off(units, k) + ByteLen(Shr(units, k)) && j < |bytes|
    ensures var after := bytes[j := v];
            Unpack(after, units) == Unpack(bytes, units)[k := LevelBits(after, units, k)]
  {
    var after := bytes[j := v];
    forall l | 0 <= l < Levels(units) && l != k ensures LevelBits(after, units, l) == LevelBits(bytes, units, l) {
      OffRest(units, l);
      if l < k { OffDisjoint(units, l, k); } else { OffDisjoint(units, k, l); }
      OtherBytes(bytes, after, Off(units, l), ByteLen(Shr(units, l)));
    }
  }

  /** Where bit i of level k is. */
  lemma BitAt(bytes: seq<bv8>, units: nat, k: nat, i: nat)
    requires |bytes| == BitsLen(units) && k < Levels(units)
    requires i < 8 * ByteLen(Shr(units, k))
    ensures var j := Off(units, k) + i / 8;
            && j < Off(units, k) + ByteLen(Shr(units, k)) <= |bytes|
            && (i in Unpack(bytes, units)[k] <==> bytes[j] & Mask(i % 8) != 0)
  {
    hide Shr, ByteLen, Levels, Off, Mask;
    OffRest(units, k);
    BitsRest(Shr(units, k));
    assert Unpack(bytes, units)[k] == LevelBits(bytes, units, k);
    assert i in LevelBits(bytes, units, k) <==> Test(bytes, Off(units, k), i);
  }

  lemma SetBitAt(bytes: seq<bv8>, units: nat, k: nat, i: nat, j: nat)
    requires |bytes| == BitsLen(units) && k < Levels(units)
    requires i < 8 * ByteLen(Shr(units, k)) && j == Off(units, k) + i / 8 < |bytes|
    ensures var f := Unpack(bytes, units);
            Unpack(bytes[j := WithBit(bytes[j], i % 8)], units) == f[k := f[k] + {i}]
  {
    hide WithBit, Bits, Mask, Shr, ByteLen, BitsLen, Levels, Off;
    OffRest(units, k);
    BitsRest(Shr(units, k));
    UnpackWrite(bytes, units, k, j, WithBit(bytes[j], i % 8));
    SetBit(bytes, Off(units, k), ByteLen(Shr(units, k)), i);
  }

  lemma ClearBitAt(bytes: seq<bv8>, units: nat, k: nat, i: nat, j: nat)
    requires |bytes| == BitsLen(units) && k < Levels(units)
    requires i < 8 * ByteLen(Shr(units, k)) && j == Off(units, k) + i / 8 < |bytes|
    ensures var f := Unpack(bytes, units);
            Unpack(bytes[j := WithoutBit(bytes[j], i % 8)], units) == f[k := f[k] - {i}]
  {
    hide WithoutBit, Bits, Mask, Shr, ByteLen, BitsLen, Levels, Off;
    OffRest(units, k);
    BitsRest(Shr(units, k));
    UnpackWrite(bytes, units, k, j, WithoutBit(bytes[j], i % 8));
    ClearBit(bytes, Off(units, k), ByteLen(Shr(units, k)), i);
  }

  /** Every byte of the bitmap area belongs to a level. */
  lemma {:induction false} LevelOfByte(units: nat, j: nat, top: nat) returns (k: nat)
    requires j < Off(units, top)
    ensures k < top && Off(units, k) <= j < Off(units, k) + ByteLen(Shr(units, k))
    decreases top
  {
    if j < Off(units, top - 1) {
      k := LevelOfByte(units, j, top - 1);
    } else {
      k := top - 1;
    }
  }

  /** The bitmap area is determined, to the byte, by the bits it says are set. */
  lemma SameBits(a: seq<bv8>, b: seq<bv8>, units: nat)
    requires |a| == |b| == BitsLen(units)
    requires Unpack(a, units) == Unpack(b, units)
    ensures a == b
  {
    OffRest(units, Levels(units));
    LevelExists(units);
    forall j | 0 <= j < |a| ensures a[j] == b[j] {
      hide Shr, BitsLen, Mask, Bit;
      var k := LevelOfByte(units, j, Levels(units));
      SameByteOf(a, b, units, k, j);
    }
  }

  lemma LevelExists(units: nat)
    ensures Shr(units, Levels(units)) == 0
  {
    assert Levels(units) < Levels(units) <==> Shr(units, Levels(units)) > 0;
  }

  lemma SameByteOf(a: seq<bv8>, b: seq<bv8>, units: nat, k: nat, j: nat)
    requires |a| == |b| == BitsLen(units) && k < Levels(units)
    requires Unpack(a, units) == Unpack(b, units)
    requires Off(units, k) <= j < Off(units, k) + ByteLen(Shr(units, k)) && j < |a|
    ensures a[j] == b[j]
  {
    hide Shr, BitsLen, ByteLen, Mask, Off, Unpack;
    forall p: nat | p < 8 ensures Bit(a[j], p) <==> Bit(b[j], p) {
      var i := 8 * (j - Off(units, k)) + p;
      assert i / 8 == j - Off(units, k) && i % 8 == p;
      BitAt(a, units, k, i);
      BitAt(b, units, k, i);
    }
    SameByte(a[j], b[j]);
  }

  // ---------------------------------------------------------------- sizes and addresses

  lemma {:induction false} ShlMul(x: nat, k: nat)
    ensures Shl(x, k) == x * Shl(1, k)
  {
    if k > 0 { ShlMul(x, k - 1); }
  }

  lemma {:induction false} ShlStrict(j: nat, k: nat)
    requires j < k
    ensures Shl(1, j) < Shl(1, k)
  {
    ShlPositive(k - 1);
    if j < k - 1 { ShlStrict(j, k - 1); }
  }

  lemma {:induction false} ShlPositive(k: nat)
    ensures Shl(1, k) > 0
  {
    if k > 0 { ShlPositive(k - 1); }
  }

  lemma FitUnique(n: nat, k: nat)
    requires Shl(1, k) >= n && (k > 0 ==> Shl(1, k - 1) < n)
    ensures k == Fit(n)
  {
    var f := Fit(n);
    if k < f - 1 { ShlStrict(k, f - 1); }
    if f < k - 1 { ShlStrict(f, k - 1); }
  }

  /** bitmap_index_for_size: the fitting level of a whole number of pages. The shifted unit never
      outgrows 64 bits, because sizes are at most 2^63. */
  method BitmapIndexForSize(size: nat) returns (idx: nat)
    requires 0 < size <= MAX_LEN && size % UNIT_SIZE == 0
    ensures idx == Fit(size / UNIT_SIZE) <= 51
  {
    idx := 0;
    TopLevelSize();
    while UNIT_SIZE * Shl(1, idx) < size
      invariant idx <= 51
      invariant idx > 0 ==> UNIT_SIZE * Shl(1, idx - 1) < size
      decreases 51 - idx
    {
      idx := idx + 1;
    }
    FitUnique(size / UNIT_SIZE, idx);
  }

  lemma TopLevelSize()
    ensures UNIT_SIZE * Shl(1, 51) == MAX_LEN
  {
    assert Shl(1, 17) == 0x2_0000 by {
      assert Shl(1, 6) == 64;
      assert Shl(1, 12) == 4096;
    }
    ShlShl(1, 17, 17);
    ShlShl(1, 34, 17);
    ShlMul(Shl(1, 17), 17);
    ShlMul(Shl(1, 34), 17);
  }

  /** The page borders around an address and length, and the number of pages they touch. */
  function FloorAddr(addr: nat): nat { addr / UNIT_SIZE * UNIT_SIZE }

  function CeilAddr(addr: nat): nat { CeilDiv(addr, UNIT_SIZE) * UNIT_SIZE }

  function Touched(addr: nat, len: nat): nat
    requires len > 0
  {
    CeilDiv(addr + len, UNIT_SIZE) - addr / UNIT_SIZE
  }

  /** What `used` should be. */
  ghost function Used(live: Live): nat { UNIT_SIZE * Total(live) }

  lemma UsedWith(live: Live, s: nat, n: nat)
    requires s !in live
    ensures Used(live[s := n]) == Used(live) + n * UNIT_SIZE
  {
    TotalWith(live, s, n);
  }

  lemma UsedWithout(live: Live, s: nat)
    requires s in live
    ensures Used(live) == live[s] * UNIT_SIZE + Used(live - {s})
  {
    TotalWithout(live, s);
  }

  /** The data area starts a number of pages behind the chunk, past the metadata, and the pages cover it. */
  predicate Placed(i: Info) {
    && i.dataOffset % UNIT_SIZE == 0 && i.metadataLen < i.dataOffset < i.totalLen <= MAX_LEN
    && i.units == CeilDiv(i.totalLen - i.dataOffset, UNIT_SIZE)
  }

  /** Two byte ranges do not meet. */
  predicate BytesApart(a: nat, len: nat, b: nat, len': nat) {
    a + len <= b || b + len' <= a
  }

  /** Bytes of a block of level k. */
  function BlockBytes(k: nat): (b: nat)
    ensures b > 0
  {
    ShlPositive(k);
    UNIT_SIZE * Shl(1, k)
  }

  // ---------------------------------------------------------------- the initial bitmaps

  /** What `new` sets in a level of n blocks: the last block, if it has no buddy. */
  function Unpaired(n: nat): set<nat> {
    if n % 2 == 1 then {n - 1} else {}
  }

  lemma UnpackZeros(bytes: seq<bv8>, units: nat)
    requires |bytes| == BitsLen(units)
    requires forall j :: 0 <= j < |bytes| ==> bytes[j] == 0
    ensures forall k :: 0 <= k < Levels(units) ==> Unpack(bytes, units)[k] == {}
  {
    forall k | 0 <= k < Levels(units) ensures Unpack(bytes, units)[k] == {} {
      hide Shr, ByteLen, BitsLen, Levels, Off;
      OffRest(units, k);
      BitsRest(Shr(units, k));
      assert LevelBits(bytes, units, k) == {} by {
        forall i: nat | i < 8 * ByteLen(Shr(units, k)) ensures !Test(bytes, Off(units, k), i) {
          ZeroByte(bytes[Off(units, k) + i / 8]);
        }
      }
    }
  }

  /** The byte `new` writes is the one with the bit of the unpaired block set. */
  lemma LastByte(n: nat)
    requires n % 2 == 1
    ensures (n - 1) / 8 == ByteLen(n) - 1 && (n - 1) % 8 == n % 8 - 1
    ensures Mask(n % 8 - 1) == WithBit(0, (n - 1) % 8)
    ensures n - 1 < 8 * ByteLen(n)
  {
    hide Mask;
    LastByteAt(n, n / 8, n % 8, n / 2);
    OrZero(Mask(n % 8 - 1));
  }

  lemma LastByteAt(n: nat, q: nat, r: nat, h: nat)
    requires n == 8 * q + r && r < 8 && n == 2 * h + 1
    ensures r > 0 && (n - 1) / 8 == q == ByteLen(n) - 1 && (n - 1) % 8 == r - 1
  {
    assert 2 * (h - 4 * q) == r - 1;
    Eighths(n - 1, q, r - 1);
    Eighths(n + 7, q + 1, r - 1);
  }

  lemma Eighths(x: int, q: int, r: int)
    requires x == 8 * q + r && 0 <= r < 8
    ensures x / 8 == q && x % 8 == r
  {
  }

  /** The loop of `new` that lays the levels out in the bitmap area. */
  method LayOut(units: nat, bitsLen: nat, levels: nat)
    returns (bits: array<bv8>, starts: seq<nat>, counts: array<nat>)
    requires units > 0 && bitsLen == BitsLen(units) && levels == Levels(units)
    ensures fresh(bits) && fresh(counts) && bits as object != counts as object
    ensures bits.Length == BitsLen(units) && |starts| == counts.Length == Levels(units)
    ensures forall k :: 0 <= k < |starts| ==> starts[k] == Off(units, k)
    ensures forall k :: 0 <= k < |starts| ==> Unpack(bits[..], units)[k] == Unpaired(Shr(units, k))
    ensures forall k :: 0 <= k < |starts| ==> counts[k] == |Unpack(bits[..], units)[k]|
  {
    hide Shr, ByteLen, BitsLen, Levels, Off, Unpack, Mask, WithBit;
    bits := new bv8[bitsLen](_ => 0);
    counts := new nat[levels];
    starts := [];
    var blockCount, bitsIdx, idx := units, 0, 0;
    LayOutStart(units);
    UnpackZeros(bits[..], units);
    ghost var f := Unpack(bits[..], units);
    while true
      invariant 0 <= idx < levels == counts.Length && |starts| == idx
      invariant blockCount == Shr(units, idx) > 0
      invariant bitsIdx == Off(units, idx)
      invariant bits.Length == BitsLen(units)
      invariant forall j :: bitsIdx <= j < bits.Length ==> bits[j] == 0
      invariant forall k :: 0 <= k < idx ==> starts[k] == Off(units, k)
      invariant f == Unpack(bits[..], units)
      invariant forall k :: 0 <= k < idx ==> f[k] == Unpaired(Shr(units, k)) && counts[k] == |f[k]|
      invariant forall k :: idx <= k < levels ==> f[k] == {}
      decreases blockCount
    {
      LayOutStep(units, idx);
      var bitsLen := ByteLenOf(blockCount);
      var count := MarkUnpaired(bits, units, idx, blockCount, bitsIdx, bitsLen);
      f := f[idx := Unpaired(blockCount)];
      starts := starts + [bitsIdx];
      counts[idx] := count;
      bitsIdx := bitsIdx + bitsLen;
      idx := idx + 1;
      blockCount := blockCount / 2;
      if blockCount == 0 {
        break;
      }
    }
    assert bitsIdx == bits.Length;
    assert idx == levels;
  }

  /** Set the bit of the last block of level k if it has no buddy; return the number of bits set. */
  method MarkUnpaired(bits: array<bv8>, units: nat, k: nat, blockCount: nat, bitsIdx: nat, bitsLen: nat)
    returns (count: nat)
    requires bits.Length == BitsLen(units) && k < Levels(units)
    requires blockCount == Shr(units, k) > 0 && bitsIdx == Off(units, k) && bitsLen == ByteLen(blockCount) > 0
    requires bitsIdx + bitsLen <= bits.Length
    requires forall j :: bitsIdx <= j < bits.Length ==> bits[j] == 0
    requires Unpack(bits[..], units)[k] == {}
    modifies bits
    ensures Unpack(bits[..], units) == old(Unpack(bits[..], units))[k := Unpaired(blockCount)]
    ensures count == |Unpaired(blockCount)|
    ensures forall j :: bitsIdx + bitsLen <= j < bits.Length ==> bits[j] == 0
  {
    hide Shr, ByteLen, BitsLen, Levels, Off, Unpack, Mask, WithBit;
    ghost var bytes := bits[..];
    ghost var f := Unpack(bytes, units);
    if blockCount % 2 != 0 {
      LastByte(blockCount);
      bits[bitsIdx + bitsLen - 1] := Mask(blockCount % 8 - 1);
      ghost var j := bitsIdx + bitsLen - 1;
      assert bits[..] == bytes[j := WithBit(bytes[j], (blockCount - 1) % 8)];
      SetBitAt(bytes, units, k, blockCount - 1, j);
      assert f[k] + {blockCount - 1} == {blockCount - 1};
      count := 1;
    } else {
      assert f[k := {}] == f;
      count := 0;
    }
  }

  method ByteLenOf(blockCount: nat) returns (n: nat)
    requires blockCount > 0
    ensures n == ByteLen(blockCount) > 0
  {
    n := (blockCount - 1) / 8 + 1;
  }

  lemma LayOutStart(units: nat)
    requires units > 0
    ensures Off(units, 0) == 0 && Shr(units, 0) == units && 0 < Levels(units)
  {
  }

  lemma LayOutStep(units: nat, k: nat)
    requires Shr(units, k) > 0
    ensures k < Levels(units)
    ensures Shr(units, k + 1) == Shr(units, k) / 2
    ensures Off(units, k + 1) == Off(units, k) + ByteLen(Shr(units, k)) <= BitsLen(units)
    ensures Shr(units, k) / 2 == 0 ==> k + 1 == Levels(units) && Off(units, k + 1) == BitsLen(units)
    ensures Shr(units, k) / 2 > 0 ==> k + 1 < Levels(units)
  {
    OffRest(units, k + 1);
    assert Shr(units, k + 1) == Shr(units, k) / 2;
    assert k + 1 < Levels(units) <==> Shr(units, k + 1) > 0;
  }

  /** The initial bitmaps are the canonical ones of the empty heap. */
  lemma InitialBitmaps(units: nat, f: Bitmaps)
    requires |f| == Levels(units)
    requires forall k :: 0 <= k < |f| ==> f[k] == Unpaired(Shr(units, k))
    ensures f == Canonical(units, Occupied(units, map[]))
  {
    hide Canonical, Occupied;
    EmptyHeap(units);
    var c := Canonical(units, {});
    forall k | 0 <= k < |f| ensures f[k] == c[k] {
    }
  }

  lemma MetaParts(units: nat)
    ensures MetaLen(units) - Levels(units) * BITMAP_STRUCT_SIZE == BitsLen(units)
  {
  }

  class BuddyBlock {
    const info: Info
    var used: nat
    const bits: array<bv8>     // the bitmap area
    const starts: seq<nat>     // first byte of each level's bitmap, BlockBitmap::bits
    const counts: array<nat>   // BlockBitmap::count
    ghost var free: Bitmaps    // what the bitmap area says
    ghost var live: Live

    ghost predicate Layout() {
      && bits as object != counts as object
      && info.units > 0
      && info.levels == Levels(info.units) == |starts| == counts.Length
      && bits.Length == BitsLen(info.units)
      && (forall k :: 0 <= k < |starts| ==> starts[k] == Off(info.units, k))
      && Placed(info)
    }

    /** The bytes say `free`, and each count is the number of bits set in its level. */
    ghost predicate Packed()
      reads this, bits, counts
    {
      && Layout()
      && free == Unpack(bits[..], info.units)
      && forall k :: 0 <= k < counts.Length ==> counts[k] == |free[k]|
    }

    /** The bitmaps are the canonical ones of the live allocations, which are disjoint blocks of
        the heap. */
    ghost predicate Consistent()
      reads this, bits, counts
    {
      && Packed()
      && LiveOk(info.units, live)
      && free == Canonical(info.units, Occupied(info.units, live))
    }

    /** Besides, `used` is what the live allocations asked for, in pages. */
    ghost predicate Valid()
      reads this, bits, counts
    {
      Consistent() && used == Used(live)
    }

    /** The second half of BuddyBlock::new, with the info in hand. */
    constructor (i: Info)
      requires Placed(i) && i.units > 0 && i.levels == Levels(i.units) && i.metadataLen == MetaLen(i.units)
      ensures Valid() && live == map[] && used == 0 && info == i
      ensures fresh(bits) && fresh(counts)
    {
      hide MetaLen, BitsLen, ByteLen, Levels, Shr, Off, Unpack, Canonical, Occupied, Placed;
      info := i;
      MetaParts(i.units);
      var area, offsets, ones := LayOut(i.units, i.metadataLen - i.levels * BITMAP_STRUCT_SIZE, i.levels);
      bits, starts, counts := area, offsets, ones;
      used := 0;
      free := Unpack(area[..], i.units);
      live := map[];
      InitialBitmaps(i.units, Unpack(area[..], i.units));
      new;
    }

    /** BuddyBlock::new; null stands for a panic of BuddyBlockInfo::new. */
    static method Create(rawAddr: nat, totalLen: nat) returns (r: BuddyBlock?)
      requires totalLen <= MAX_LEN
      ensures var n := CeilDiv(totalLen, UNIT_SIZE); r != null <==> n >= 3 && !MetadataFillsPages(n)
      ensures r != null ==>
                && fresh(r) && fresh(r.bits) && fresh(r.counts)
                && r.Valid() && r.live == map[] && r.used == 0
                && r.info.rawAddr == rawAddr && r.info.totalLen == totalLen
    {
      hide MetaLen, Levels, MetadataFillsPages, BuddyBlock.Valid, CeilDiv;
      var i := BuddyInfo.New(rawAddr, totalLen);
      if i.None? {
        return null;
      }
      r := new BuddyBlock(i.value);
    }

    /** `left` does not underflow, except with every page of a heap allocated whose last page overhangs. */
    lemma Accounting()
      requires Valid()
      ensures used <= info.units * UNIT_SIZE
      ensures used <= info.totalLen - info.dataOffset <==> info.totalLen % UNIT_SIZE == 0 || Total(live) < info.units
    {
      hide Total, Occupied, Canonical, Unpack, Levels, BitsLen, Off;
      TotalBounded(info.units, live);
      PagesUsed(Total(live), info.units, info.dataOffset / UNIT_SIZE, info.totalLen);
    }

    // -------------------------------------------------------------- BlockBitmapRef

    method Get(k: nat, i: nat) returns (b: bool)
      requires Packed() && k < info.levels
      requires i < 8 * ByteLen(Shr(info.units, k))
      ensures b <==> i in free[k]
    {
      hide Shr, ByteLen, BitsLen, Levels, Off, Unpack, Mask;
      BitAt(bits[..], info.units, k, i);
      b := bits[starts[k] + i / 8] & Mask(i % 8) != 0;
    }

    method Set1(k: nat, i: nat)
      requires Packed() && k < info.levels
      requires i < 8 * ByteLen(Shr(info.units, k))
      modifies this`free, bits, counts
      ensures Packed()
      ensures free == old(free)[k := old(free)[k] + {i}]
    {
      hide Shr, ByteLen, BitsLen, Levels, Off, Unpack, Mask, WithBit;
      var prev := Get(k, i);
      BitAt(bits[..], info.units, k, i);
      var j := starts[k] + i / 8;
      ghost var bytes := bits[..];
      bits[j] := WithBit(bits[j], i % 8);
      assert bits[..] == bytes[j := WithBit(bytes[j], i % 8)];
      SetBitAt(bytes, info.units, k, i, j);
      free := free[k := free[k] + {i}];
      if !prev {
        counts[k] := counts[k] + 1;
      } else {
        assert free[k] == old(free[k]);
      }
    }

    method Set0(k: nat, i: nat)
      requires Packed() && k < info.levels
      requires i < 8 * ByteLen(Shr(info.units, k))
      modifies this`free, bits, counts
      ensures Packed()
      ensures free == old(free)[k := old(free)[k] - {i}]
    {
      hide Shr, ByteLen, BitsLen, Levels, Off, Unpack, Mask, WithoutBit;
      var prev := Get(k, i);
      BitAt(bits[..], info.units, k, i);
      var j := starts[k] + i / 8;
      ghost var bytes := bits[..];
      bits[j] := WithoutBit(bits[j], i % 8);
      assert bits[..] == bytes[j := WithoutBit(bytes[j], i % 8)];
      ClearBitAt(bytes, info.units, k, i, j);
      free := free[k := free[k] - {i}];
      if prev {
        counts[k] := counts[k] - 1;
      } else {
        assert free[k] == old(free[k]);
      }
    }

    method First1(k: nat) returns (i: nat)
      requires Packed() && k < info.levels
      requires counts[k] != 0
      ensures IsLeast(free[k], i)
    {
      hide Shr, ByteLen, BitsLen, Levels, Off, Bits;
      OffRest(info.units, k);
      assert free[k] == LevelBits(bits[..], info.units, k);
      assert free[k] != {};
      BitsRest(Shr(info.units, k));
      i := FirstOne(bits, starts[k], ByteLen(Shr(info.units, k)));
    }

    // -------------------------------------------------------------- alloc

    method Alloc(len: nat) returns (r: Option<nat>)
      requires Consistent() && 0 < len <= MAX_LEN
      modifies this`used, this`free, this`live, bits, counts
      ensures Consistent() && (old(Valid()) ==> Valid())
      ensures var n := CeilDiv(len, UNIT_SIZE);
              match Chosen(info.units, old(live), n)
              case None => r == None && live == old(live) && used == old(used)
              case Some(s) =>
                && r == Some(info.rawAddr + info.dataOffset + s * UNIT_SIZE)
                && live == old(live)[s := n] && used == old(used) + n * UNIT_SIZE
      ensures r.Some? ==>
                var n, data := CeilDiv(len, UNIT_SIZE), info.rawAddr + info.dataOffset;
                && info.rawAddr + info.metadataLen <= data <= r.value
                && r.value + n * UNIT_SIZE <= data + info.units * UNIT_SIZE
                && forall t :: t in old(live) ==>
                     BytesApart(r.value, n * UNIT_SIZE, data + t * UNIT_SIZE, old(live)[t] * UNIT_SIZE)
    {
      hide Shr, Shl, ByteLen, BitsLen, Levels, Off, Unpack, Canonical, Occupied, Used, Fit, FirstLevel;
      hide Chosen, SplitBits, LiveOk, Placed, BlockBytes, IsLeast;
      var alignedLen := CeilDiv(len, UNIT_SIZE) * UNIT_SIZE;
      ghost var n := CeilDiv(len, UNIT_SIZE);
      var fit := BitmapIndexForSize(alignedLen);
      NoneFound(info.units, live, n);
      if fit >= counts.Length {
        return None;
      }
      var k := fit;
      while k < counts.Length
        invariant fit <= k <= counts.Length
        invariant unchanged(this, bits, counts)
        invariant FirstLevel(free, fit) == FirstLevel(free, k)
      {
        FirstLevelStep(free, k);
        if counts[k] != 0 {
          var i := First1(k);
          TakeBlock(k, i, fit, n);
          used := used + alignedLen;
          var dataAddr := info.rawAddr + info.dataOffset;
          BlockOffset(i, k);
          AllApart(info.units, old(live), Shl(i, k), n, dataAddr);
          PlacedMeta(info);
          return Some(dataAddr + i * BlockBytes(k));
        }
        k := k + 1;
      }
      FirstLevelStep(free, k);
      return None;
    }

    /** The part of alloc that takes the block found and splits it. */
    method TakeBlock(k: nat, i: nat, fit: nat, ghost n: nat)
      requires Consistent() && n > 0 && fit == Fit(n) <= k < counts.Length
      requires k == FirstLevel(free, fit) && IsLeast(free[k], i)
      modifies this`free, this`live, bits, counts
      ensures Consistent() && Chosen(info.units, old(live), n) == Some(Shl(i, k)) && Shl(i, k) !in old(live)
      ensures live == old(live)[Shl(i, k) := n] && Used(live) == Used(old(live)) + n * UNIT_SIZE
    {
      hide Shr, Shl, ByteLen, BitsLen, Levels, Off, Unpack, Canonical, Occupied, Used, Fit, FirstLevel;
      hide Chosen, SplitBits, LiveOk, Placed;
      AllocBits(info.units, live, n, free, k, i);
      BuddyReadable(Shr(info.units, k), i);
      Set0(k, i);
      SplitDown(k, i, fit);
      ghost var s := Shl(i, k);
      UsedWith(live, s, n);
      live := live[s := n];
    }

    /** The inner loop of alloc: from a held block down to its leftmost block of level `fit`. */
    method SplitDown(top: nat, i: nat, fit: nat)
      requires Packed()
      requires fit <= top < info.levels && Exists(info.units, top, i)
      modifies this`free, bits, counts
      ensures Packed()
      ensures free == SplitBits(old(free), top, i, fit)
    {
      hide Shr, ByteLen, BitsLen, Unpack, Levels;
      var below, idx := top, i;
      ghost var goal := SplitBits(free, top, i, fit);
      while below > fit
        invariant fit <= below <= top
        invariant Exists(info.units, below, idx)
        invariant Packed()
        invariant SplitBits(free, below, idx, fit) == goal
      {
        RightHalf(info.units, below - 1, idx);
        SplitStep(free, below, idx, fit);
        ghost var g := free[below - 1 := free[below - 1] + {2 * idx + 1}];
        below := below - 1;
        idx := 2 * idx;
        Set1(below, idx + 1);
        assert free == g;
      }
    }

    // -------------------------------------------------------------- dealloc

    /** The three assertions at the head of dealloc. */
    ghost predicate Accepts(addr: nat, len: nat)
      requires len > 0
    {
      && info.DataAddr() <= FloorAddr(addr) < info.DataAddr() + info.DataLen()
      && info.DataAddr() < CeilAddr(addr + len) <= info.DataAddr() + info.DataLen()
      && Fit(Touched(addr, len)) < Levels(info.units)
    }

    /** The block that dealloc computes, in the level that the length fits. */
    ghost function BlockAt(addr: nat, len: nat): nat
      requires len > 0 && info.DataAddr() <= FloorAddr(addr)
    {
      Quotient(FloorAddr(addr) - info.DataAddr(), BlockBytes(Fit(Touched(addr, len))))
    }

    /** That block is the one of the live allocation s. */
    ghost predicate Names(addr: nat, len: nat, s: nat)
      requires len > 0
      reads this
    {
      && Accepts(addr, len) && s in live
      && Fit(Touched(addr, len)) == Fit(live[s]) && BlockAt(addr, len) == Shr(s, Fit(live[s]))
    }

    /** The head of dealloc; None stands for one of its assertions failing. */
    method Locate(addr: nat, len: nat) returns (r: Option<(nat, nat, nat)>)
      requires Layout() && len > 0
      ensures r.Some? <==> Accepts(addr, len)
      ensures r.Some? ==> r.value == (Fit(Touched(addr, len)), BlockAt(addr, len), Touched(addr, len) * UNIT_SIZE)
    {
      hide Shr, Shl, Fit, Levels, BitsLen, Off, BlockBytes, Quotient;
      var dataAddr, dataLen := info.DataAddr(), info.DataLen();
      var alignedAddr := addr / UNIT_SIZE * UNIT_SIZE;
      var alignedEnd := CeilDiv(addr + len, UNIT_SIZE) * UNIT_SIZE;
      var alignedLen := alignedEnd - alignedAddr;
      if !(dataAddr <= alignedAddr < dataAddr + dataLen) || !(dataAddr < alignedEnd <= dataAddr + dataLen) {
        return None;
      }
      TouchedLen(addr, len);
      var fit := BitmapIndexForSize(alignedLen);
      if !(fit < counts.Length) {
        return None;
      }
      var blockIdx := Quotient(alignedAddr - dataAddr, BlockBytes(fit));
      return Some((fit, blockIdx, alignedLen));
    }

    /** With len == 0 nothing happens. Otherwise, provided that the block it computes is that of a live
        allocation, dealloc panics, shown as ok == false, exactly if one of the assertions at its head fails
        or `used` would fall below 0; else that allocation is the only one that goes. The length may be
        another one of the same level: `used` then falls by the pages that the length names. */
    method Dealloc(addr: nat, len: nat, ghost s: nat) returns (ok: bool)
      requires Consistent()
      requires len > 0 && Accepts(addr, len) ==> Names(addr, len, s)
      modifies this`used, this`free, this`live, bits, counts
      ensures ok <==> len == 0 || (Accepts(addr, len) && Touched(addr, len) * UNIT_SIZE <= old(used))
      ensures ok ==> Consistent() && live == if len == 0 then old(live) else old(live) - {s}
      ensures ok ==> used == old(used) - if len == 0 then 0 else Touched(addr, len) * UNIT_SIZE
      ensures ok && old(Valid()) && (len > 0 ==> Touched(addr, len) == old(live)[s]) ==> Valid()
    {
      hide Shr, Shl, ByteLen, BitsLen, Levels, Off, Unpack, Canonical, Occupied, Used, Fit, Touched, Accepts, BlockAt;
      hide MergeBits, MergePath, Disjoint, Placed;
      if len == 0 {
        return true;
      }
      var r := Locate(addr, len);
      if r.None? {
        return false;
      }
      var (fit, blockIdx, alignedLen) := r.value;
      DeallocBits(info.units, live, s);
      UsedWithout(live, s);
      MergeUp(fit, blockIdx);
      live := live - {s};
      if alignedLen > used {
        return false;
      }
      used := used - alignedLen;
      return true;
    }

    /** The merge loop of dealloc. The assertion that the block's bit is clear holds every time, a
        block without a buddy reads a padding bit, and the break at the top level is not reached. */
    method MergeUp(fit: nat, i: nat)
      requires Packed()
      requires fit < info.levels && MergePath(info.units, free, fit, i)
      modifies this`free, bits, counts
      ensures Packed()
      ensures free == MergeBits(old(free), fit, i)
    {
      hide Shr, ByteLen, BitsLen, Levels, Off, Unpack;
      var blockIdx, current := i, fit;
      ghost var goal := MergeBits(free, fit, i);
      while true
        invariant current < info.levels
        invariant Packed()
        invariant MergePath(info.units, free, current, blockIdx)
        invariant MergeBits(free, current, blockIdx) == goal
        decreases info.levels - current
      {
        ghost var f := free;
        BuddyReadable(Shr(info.units, current), blockIdx);
        var already := Get(current, blockIdx);
        assert !already;
        Set1(current, blockIdx);
        var buddyIdx := Buddy(blockIdx);
        var merge := Get(current, buddyIdx);
        if !merge {
          break;
        }
        MergeStep(info.units, f, current, blockIdx);
        assert current + 1 < info.levels;
        Set0(current, buddyIdx);
        Set0(current, blockIdx);
        SetAndClear(f, current, blockIdx, buddyIdx);
        blockIdx := blockIdx / 2;
        current := current + 1;
      }
    }
  }

  /** Called with the address that alloc returned and any length, dealloc finds the block if and only if the
      chunk starts at a page border, the length fits the same level as the one asked for, and the pages end
      inside the data area, which the last page of a chunk that is not whole pages does not. */
  lemma FindsItsOwn(b: BuddyBlock, s: nat, len: nat)
    requires b.Layout() && LiveOk(b.info.units, b.live) && s in b.live && len > 0
    ensures var n := CeilDiv(len, UNIT_SIZE);
            b.Names(b.info.rawAddr + b.info.dataOffset + s * UNIT_SIZE, len, s) <==>
            && b.info.rawAddr % UNIT_SIZE == 0 && Fit(n) == Fit(b.live[s])
            && (s + n) * UNIT_SIZE <= b.info.totalLen - b.info.dataOffset
    ensures b.info.rawAddr % UNIT_SIZE == 0 ==>
              Touched(b.info.rawAddr + b.info.dataOffset + s * UNIT_SIZE, len) == CeilDiv(len, UNIT_SIZE)
  {
    hide Shr, Shl, Fit, Levels, BitsLen, Off, FloorAddr, CeilAddr, Touched, Disjoint, Fits, BlockBytes, Quotient;
    var data, k := b.info.DataAddr(), Fit(b.live[s]);
    PagesInHeap(b.info.units, b.live, s);
    SamePlace(b.info.rawAddr, b.info.dataOffset);
    if data % UNIT_SIZE == 0 {
      AlignedRange(data, s, CeilDiv(len, UNIT_SIZE), len);
      BlockIndex(s, k);
    } else {
      NotItsBlock(data, s, k);
    }
  }

  /** Two allocators over as many pages with the same pages occupied have the same bytes in their bitmap
      areas and the same counts, whatever each went through; with the same live allocations, also the same
      `used`. */
  lemma SameLiveSameState(a: BuddyBlock, b: BuddyBlock)
    requires a.Consistent() && b.Consistent()
    requires a.info.units == b.info.units
    requires Occupied(a.info.units, a.live) == Occupied(b.info.units, b.live)
    ensures a.bits[..] == b.bits[..] && a.counts[..] == b.counts[..]
    ensures a.Valid() && b.Valid() && a.live == b.live ==> a.used == b.used
  {
    hide Unpack, Canonical, Occupied, Levels, BitsLen;
    SameBits(a.bits[..], b.bits[..], a.info.units);
  }

  /** Once everything is freed, in whatever order, the allocator is as it was made: only the unpaired last
      block of each level is marked free. */
  lemma EmptyAgain(a: BuddyBlock)
    requires a.Valid() && a.live == map[]
    ensures a.used == 0
    ensures forall k :: 0 <= k < a.info.levels ==> a.free[k] == Unpaired(Shr(a.info.units, k))
  {
    hide Unpack, Occupied, Levels, BitsLen, Shr;
    EmptyHeap(a.info.units);
    forall k | 0 <= k < a.info.levels ensures a.free[k] == Unpaired(Shr(a.info.units, k)) {
    }
  }

  // ---------------------------------------------------------------- facts the methods use

  /** The bytes of a new allocation lie in the data area and meet those of no other. */
  lemma AllApart(units: nat, live: Live, s: nat, n: nat, data: nat)
    requires LiveOk(units, live[s := n]) && s !in live
    ensures (s + n) * UNIT_SIZE <= units * UNIT_SIZE
    ensures forall t :: t in live ==>
              BytesApart(data + s * UNIT_SIZE, n * UNIT_SIZE, data + t * UNIT_SIZE, live[t] * UNIT_SIZE)
  {
    hide LiveOk;
    var more := live[s := n];
    PagesInHeap(units, more, s);
    forall t | t in live
      ensures BytesApart(data + s * UNIT_SIZE, n * UNIT_SIZE, data + t * UNIT_SIZE, live[t] * UNIT_SIZE)
    {
      RangesDisjoint(units, more, s, t);
    }
  }

  lemma PlacedMeta(i: Info)
    requires Placed(i)
    ensures i.metadataLen < i.dataOffset
  {
  }

  lemma PagesUsed(total: nat, units: nat, offset: nat, totalLen: nat)
    requires offset * UNIT_SIZE < totalLen && units == CeilDiv(totalLen - offset * UNIT_SIZE, UNIT_SIZE) && total <= units
    ensures total * UNIT_SIZE <= totalLen - offset * UNIT_SIZE <==> totalLen % UNIT_SIZE == 0 || total < units
  {
  }

  lemma FirstLevelStep(f: Bitmaps, k: nat)
    ensures k >= |f| ==> FirstLevel(f, k) >= |f|
    ensures k < |f| ==> FirstLevel(f, k) == if f[k] == {} then FirstLevel(f, k + 1) else k
  {
  }

  lemma NoneFound(units: nat, live: Live, n: nat)
    ensures var f := Canonical(units, Occupied(units, live));
            FirstLevel(f, Fit(n)) >= |f| ==> Chosen(units, live, n) == None
  {
  }

  lemma SetAndClear(f: Bitmaps, k: nat, i: nat, b: nat)
    requires k < |f| && i !in f[k] && b != i
    ensures var g := f[k := f[k] + {i}];
            var h := g[k := g[k] - {b}];
            h[k := h[k] - {i}] == f[k := f[k] - {b}]
  {
    assert f[k] + {i} - {b} - {i} == f[k] - {b};
  }

  lemma RightHalf(units: nat, k: nat, i: nat)
    requires Exists(units, k + 1, i)
    ensures Exists(units, k, 2 * i)
    ensures 2 * i + 1 < 8 * ByteLen(Shr(units, k))
  {
    assert Shr(units, k + 1) == Shr(units, k) / 2;
  }

  /** The buddy of one of n blocks has a bit to read, even where it is only padding. */
  lemma BuddyReadable(n: nat, i: nat)
    requires i < n
    ensures i < 8 * ByteLen(n) && Buddy(i) < 8 * ByteLen(n)
  {
    assert 8 * ByteLen(n) >= n;
    if n % 8 != 0 {
      assert 8 * ByteLen(n) > n;
    }
  }

  lemma BlockOffset(i: nat, k: nat)
    ensures i * BlockBytes(k) == Shl(i, k) * UNIT_SIZE
  {
    ShlMul(i, k);
  }

  lemma TouchedLen(addr: nat, len: nat)
    requires len > 0
    ensures CeilAddr(addr + len) - FloorAddr(addr) == Touched(addr, len) * UNIT_SIZE > 0
  {
  }

  lemma SamePlace(rawAddr: nat, dataOffset: nat)
    requires dataOffset % UNIT_SIZE == 0
    ensures (rawAddr + dataOffset) % UNIT_SIZE == rawAddr % UNIT_SIZE
  {
  }

  /** What alloc returned for n pages from page s on, of an area at a page border. */
  lemma AlignedRange(data: nat, s: nat, n: nat, len: nat)
    requires data % UNIT_SIZE == 0 && len > 0 && n == CeilDiv(len, UNIT_SIZE)
    ensures var addr := data + s * UNIT_SIZE;
            && FloorAddr(addr) == addr && CeilAddr(addr + len) == data + (s + n) * UNIT_SIZE
            && Touched(addr, len) == n
  {
  }

  /** Behind an area that does not start at a page border, rounding down leads before the block. */
  lemma NotItsBlock(data: nat, s: nat, k: nat)
    requires data % UNIT_SIZE != 0 && Shl(Shr(s, k), k) == s
    ensures var d := FloorAddr(data + s * UNIT_SIZE) - data;
            d >= 0 ==> Quotient(d, BlockBytes(k)) != Shr(s, k)
  {
    hide Shr, Shl, BlockBytes;
    var i, b := Shr(s, k), BlockBytes(k);
    var d := FloorAddr(data + s * UNIT_SIZE) - data;
    BlockOffset(i, k);
    assert d < i * b;
    if d >= 0 && d / b == i {
      QuotientBound(d, b);
      assert false;
    }
  }

  lemma QuotientBound(d: nat, b: nat)
    requires b > 0
    ensures d / b * b <= d
  {
  }

  lemma PagesInHeap(units: nat, live: Live, s: nat)
    requires LiveOk(units, live) && s in live
    ensures live[s] > 0 && s + live[s] <= units
    ensures Fit(live[s]) < Levels(units) && Shl(Shr(s, Fit(live[s])), Fit(live[s])) == s
  {
    assert Fits(units, s, live[s]);
    RunInSpan(units, s, live[s]);
    assert s + live[s] - 1 in Run(s, live[s]);
  }

  lemma BlockIndex(s: nat, k: nat)
    requires Shl(Shr(s, k), k) == s
    ensures Quotient(s * UNIT_SIZE, BlockBytes(k)) == Shr(s, k)
  {
    hide Shr, Shl, BlockBytes;
    BlockOffset(Shr(s, k), k);
    DivParts(Shr(s, k), 0, BlockBytes(k));
  }
}
