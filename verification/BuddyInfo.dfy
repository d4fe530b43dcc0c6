/** Sizing of the buddy allocator's metadata, and when its constructor panics. */
module BuddyInfo {
  import opened Options
  import opened Arithmetic
  import opened BuddyTree

  const UNIT_SIZE: nat := 4096
  const BITMAP_STRUCT_SIZE: nat := 16  // size_of::<BlockBitmap>()

  datatype Info = Info(rawAddr: nat, totalLen: nat, metadataLen: nat, dataOffset: nat, units: nat, levels: nat)
  {
    function DataAddr(): nat { rawAddr + dataOffset }

    function DataLen(): int { totalLen - dataOffset }
  }

  /** Bytes that hold the bits of n blocks. */
  function ByteLen(n: nat): nat { (n + 7) / 8 }

  /** Bytes of the bitmaps of all levels over n pages. */
  function BitsLen(n: nat): (b: nat)
    ensures b <= 2 * n
  {
    if n == 0 then 0 else ByteLen(n) + BitsLen(n / 2)
  }

  /** Bytes of metadata for n pages: the level headers and the bitmaps. */
  function MetaLen(n: nat): nat {
    BITMAP_STRUCT_SIZE * Levels(n) + BitsLen(n)
  }

  lemma {:induction false} LevelsBound(n: nat)
    ensures Levels(n) <= n
  {
    if n > 0 { LevelsBound(n / 2); }
  }

  lemma {:induction false} MetaMonotone(m: nat, n: nat)
    requires m <= n
    ensures MetaLen(m) <= MetaLen(n)
  {
    if m > 0 { MetaMonotone(m / 2, n / 2); }
  }

  /** The sizing loop of from_chunk. */
  method CountLevels(units: nat) returns (levels: nat, bits: nat)
    requires units > 0
    ensures levels == Levels(units) && bits == BitsLen(units)
  {
    levels, bits := 0, 0;
    var blockCount := units;
    while true
      invariant blockCount > 0
      invariant levels + Levels(blockCount) == Levels(units)
      invariant bits + BitsLen(blockCount) == BitsLen(units)
      decreases blockCount
    {
      levels := levels + 1;
      bits := bits + (blockCount - 1) / 8 + 1;
      if blockCount == 1 {
        break;
      }
      blockCount := blockCount / 2;
    }
  }

  /** from_chunk; None stands for one of its assertions failing. */
  method FromChunk(addr: nat, len: nat) returns (r: Option<Info>)
    ensures r.Some? <==> len > UNIT_SIZE && MetaLen(CeilDiv(len, UNIT_SIZE)) < len
    ensures r.Some? ==>
              var units := CeilDiv(len, UNIT_SIZE);
              r.value == Info(addr, len, MetaLen(units), 0, units, Levels(units))
  {
    if !(len > UNIT_SIZE) {
      return None;
    }
    var units := (len - 1) / UNIT_SIZE + 1;
    assert units == CeilDiv(len, UNIT_SIZE);
    var levels, bits := CountLevels(units);
    var metadataLen := levels * BITMAP_STRUCT_SIZE + bits;
    if !(metadataLen < len) {
      return None;
    }
    return Some(Info(addr, len, metadataLen, 0, units, levels));
  }

  /** The metadata of n pages ends exactly at a page border and shrinking the heap by the pages it
      takes does not shrink it. */
  predicate MetadataFillsPages(n: nat) {
    var m := MetaLen(n);
    m % UNIT_SIZE == 0 && m / UNIT_SIZE <= n && MetaLen(n - m / UNIT_SIZE) == m
  }

  lemma CeilDivLess(len: nat, pages: nat)
    requires pages * UNIT_SIZE <= len
    ensures CeilDiv(len - pages * UNIT_SIZE, UNIT_SIZE) == CeilDiv(len, UNIT_SIZE) - pages
  {
  }

  lemma MetaSmall(n: nat)
    ensures MetaLen(n) <= 18 * n
  {
    LevelsBound(n);
  }

  /** What the two sizing rounds and the three assertions of BuddyBlockInfo::new come to. */
  lemma NewCondition(len: nat, n: nat, pages: nat)
    requires n == CeilDiv(len, UNIT_SIZE)
    requires pages == CeilDiv(MetaLen(n), UNIT_SIZE)
    ensures n >= 3 ==>
              && len > UNIT_SIZE && MetaLen(n) < len && pages * UNIT_SIZE <= len
              && n - pages >= 2
              && len - pages * UNIT_SIZE > UNIT_SIZE
              && MetaLen(n - pages) < len - pages * UNIT_SIZE
              && (MetaLen(n - pages) < pages * UNIT_SIZE <==> !MetadataFillsPages(n))
    ensures n < 3 ==> len <= UNIT_SIZE || (pages * UNIT_SIZE <= len ==> len - pages * UNIT_SIZE <= UNIT_SIZE)
  {
    MetaSmall(n);
    if n >= 3 {
      assert pages <= n - 2;
      MetaSmall(n - pages);
      MetaMonotone(n - pages, n);
      FillsPages(n, MetaLen(n), MetaLen(n - pages), pages);
    } else if n == 2 {
      assert Levels(2) == 2 && BitsLen(2) == 2;
      assert pages == 1;
    }
  }

  lemma FillsPages(n: nat, m: nat, less: nat, pages: nat)
    requires m == MetaLen(n) && pages == CeilDiv(m, UNIT_SIZE) <= n && less == MetaLen(n - pages) <= m
    ensures less < pages * UNIT_SIZE <==> !MetadataFillsPages(n)
  {
    hide MetaLen;
  }

  /** BuddyBlockInfo::new; None stands for an assertion failing or an underflow. It succeeds exactly
      on chunks of at least three pages whose metadata does not fill its pages to the last byte. */
  method New(rawAddr: nat, totalLen: nat) returns (r: Option<Info>)
    ensures var n := CeilDiv(totalLen, UNIT_SIZE);
            r.Some? <==> n >= 3 && !MetadataFillsPages(n)
    ensures r.Some? ==>
              var n := CeilDiv(totalLen, UNIT_SIZE);
              var i := r.value;
              && i.rawAddr == rawAddr && i.totalLen == totalLen
              && i.dataOffset == CeilDiv(MetaLen(n), UNIT_SIZE) * UNIT_SIZE
              && i.metadataLen < i.dataOffset < totalLen
              && i.units == CeilDiv(totalLen - i.dataOffset, UNIT_SIZE) >= 2
              && i.levels == Levels(i.units)
              && i.metadataLen == MetaLen(i.units)
  {
    hide MetaLen, MetadataFillsPages, CeilDiv, Levels;
    var tmp := FromChunk(rawAddr, totalLen);
    ghost var n := CeilDiv(totalLen, UNIT_SIZE);
    NewCondition(totalLen, n, CeilDiv(MetaLen(n), UNIT_SIZE));
    if tmp.None? {
      return None;
    }
    var pages := CeilDiv(tmp.value.metadataLen, UNIT_SIZE);
    var dataOffset := pages * UNIT_SIZE;
    if dataOffset > totalLen {
      return None;
    }
    CeilDivLess(totalLen, pages);
    var info := FromChunk(rawAddr + dataOffset, totalLen - dataOffset);
    if info.None? {
      return None;
    }
    if !(info.value.metadataLen < dataOffset) {
      return None;
    }
    return Some(info.value.(rawAddr := rawAddr, totalLen := totalLen, dataOffset := dataOffset));
  }

  /** The pages cover the data area exactly if the chunk is a whole number of pages; otherwise the
      last page overhangs it. */
  lemma PagesCoverData(totalLen: nat, pages: nat)
    requires pages * UNIT_SIZE <= totalLen
    ensures var dataLen := totalLen - pages * UNIT_SIZE;
            CeilDiv(dataLen, UNIT_SIZE) * UNIT_SIZE == dataLen <==> totalLen % UNIT_SIZE == 0
  {
  }

  /** A 63,348,736-byte chunk (15466 pages) is one on which the constructor panics. */
  lemma NewPanics()
    ensures CeilDiv(63348736, UNIT_SIZE) == 15466 && MetadataFillsPages(15466)
  {
    LevelsOf15466();
    assert MetaLen(15466) == 4096;
    assert MetaLen(15465) == 4096;
  }

  lemma LevelsOf15466()
    ensures Levels(15466) == Levels(15465) == 14
    ensures BitsLen(15466) == BitsLen(15465) == 3872
  {
    LevelsOf966();
    assert Levels(1933) == 11 && BitsLen(1933) == 487;
    assert Levels(3866) == 12 && BitsLen(3866) == 971;
    assert Levels(7732) == Levels(7733) == 13 && BitsLen(7732) == BitsLen(7733) == 1938;
  }

  lemma LevelsOf966()
    ensures Levels(966) == 10 && BitsLen(966) == 245
  {
    LevelsOf60();
    assert Levels(120) == 7 && BitsLen(120) == 32;
    assert Levels(241) == 8 && BitsLen(241) == 63;
    assert Levels(483) == 9 && BitsLen(483) == 124;
  }

  lemma LevelsOf60()
    ensures Levels(60) == 6 && BitsLen(60) == 17
  {
    assert Levels(7) == 3 && BitsLen(7) == 3;
    assert Levels(15) == 4 && BitsLen(15) == 5;
    assert Levels(30) == 5 && BitsLen(30) == 9;
  }
}
