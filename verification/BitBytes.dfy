/** Bitmaps packed into bytes: bit i of a bitmap that starts at byte `off` is bit i % 8 of byte
    off + i / 8. */
module BitBytes {

  function Mask(o: nat): bv8
    requires o < 8
  {
    (1 as bv8) << o
  }

  predicate Bit(b: bv8, o: nat)
    requires o < 8
  {
    b & Mask(o) != 0
  }

  predicate Test(bytes: seq<bv8>, off: nat, i: nat)
    requires off + i / 8 < |bytes|
  {
    Bit(bytes[off + i / 8], i % 8)
  }

  /** The indices of the bits set in the `len` bytes from `off` on. */
  ghost function Bits(bytes: seq<bv8>, off: nat, len: nat): set<nat>
    requires off + len <= |bytes|
  {
    set i | 0 <= i < 8 * len && Test(bytes, off, i)
  }

  function WithBit(b: bv8, o: nat): bv8
    requires o < 8
  {
    b | Mask(o)
  }

  function WithoutBit(b: bv8, o: nat): bv8
    requires o < 8
  {
    b & !Mask(o)
  }

  lemma WithBitTest(b: bv8, o: nat, p: nat)
    requires o < 8 && p < 8
    ensures Bit(WithBit(b, o), p) <==> p == o || Bit(b, p)
  {
    hide Mask;
    MasksDisjoint(o, p);
    OrMask(b, Mask(o), Mask(p));
  }

  lemma WithoutBitTest(b: bv8, o: nat, p: nat)
    requires o < 8 && p < 8
    ensures Bit(WithoutBit(b, o), p) <==> p != o && Bit(b, p)
  {
    hide Mask;
    MasksDisjoint(o, p);
    AndNotMask(b, Mask(o), Mask(p));
  }

  lemma MasksDisjoint(o: nat, p: nat)
    requires o < 8 && p < 8
    ensures Mask(o) != 0
    ensures o != p ==> Mask(o) & Mask(p) == 0
  {
    MaskCases(o);
    MaskCases(p);
  }

  lemma OrMask(b: bv8, m: bv8, n: bv8)
    ensures m & n == 0 ==> (b | m) & n == b & n
    ensures (b | m) & m == m
  {
  }

  lemma AndNotMask(b: bv8, m: bv8, n: bv8)
    ensures m & n == 0 ==> (b & !m) & n == b & n
    ensures (b & !m) & m == 0
  {
  }

  lemma MaskCases(o: nat)
    requires o < 8
    ensures Mask(o) == match o case 0 => 1 case 1 => 2 case 2 => 4 case 3 => 8
                                case 4 => 16 case 5 => 32 case 6 => 64 case _ => 128
  {
  }

  /** A byte is zero exactly if none of its bits is set. */
  lemma ZeroByte(b: bv8)
    ensures b == 0 <==> forall p: nat :: p < 8 ==> !Bit(b, p)
  {
    if forall p: nat :: p < 8 ==> !Bit(b, p) {
      MaskCases(0); MaskCases(1); MaskCases(2); MaskCases(3);
      MaskCases(4); MaskCases(5); MaskCases(6); MaskCases(7);
      assert !Bit(b, 0) && !Bit(b, 1) && !Bit(b, 2) && !Bit(b, 3);
      assert !Bit(b, 4) && !Bit(b, 5) && !Bit(b, 6) && !Bit(b, 7);
    }
  }

  /** A byte is determined by its bits. */
  lemma SameByte(a: bv8, b: bv8)
    requires forall p: nat :: p < 8 ==> (Bit(a, p) <==> Bit(b, p))
    ensures a == b
  {
    MaskCases(0); MaskCases(1); MaskCases(2); MaskCases(3);
    MaskCases(4); MaskCases(5); MaskCases(6); MaskCases(7);
    assert Bit(a, 0) == Bit(b, 0) && Bit(a, 1) == Bit(b, 1) && Bit(a, 2) == Bit(b, 2) && Bit(a, 3) == Bit(b, 3);
    assert Bit(a, 4) == Bit(b, 4) && Bit(a, 5) == Bit(b, 5) && Bit(a, 6) == Bit(b, 6) && Bit(a, 7) == Bit(b, 7);
  }

  lemma OrZero(m: bv8)
    ensures 0 | m == m
  {
  }

  /** Setting one bit changes no other, and no bitmap over other bytes. */
  lemma SetBit(bytes: seq<bv8>, off: nat, len: nat, i: nat)
    requires off + len <= |bytes| && i < 8 * len
    ensures var j := off + i / 8;
            Bits(bytes[j := WithBit(bytes[j], i % 8)], off, len) == Bits(bytes, off, len) + {i}
  {
    hide Mask, Bit, WithBit;
    var j := off + i / 8;
    var after := bytes[j := WithBit(bytes[j], i % 8)];
    forall k: nat | k < 8 * len ensures Test(after, off, k) <==> k == i || Test(bytes, off, k) {
      WithBitTest(bytes[j], i % 8, k % 8);
      assert k / 8 == i / 8 ==> (k % 8 == i % 8 <==> k == i);
    }
  }

  lemma ClearBit(bytes: seq<bv8>, off: nat, len: nat, i: nat)
    requires off + len <= |bytes| && i < 8 * len
    ensures var j := off + i / 8;
            Bits(bytes[j := WithoutBit(bytes[j], i % 8)], off, len) == Bits(bytes, off, len) - {i}
  {
    hide Mask, Bit, WithoutBit;
    var j := off + i / 8;
    var after := bytes[j := WithoutBit(bytes[j], i % 8)];
    forall k: nat | k < 8 * len ensures Test(after, off, k) <==> k != i && Test(bytes, off, k) {
      WithoutBitTest(bytes[j], i % 8, k % 8);
      assert k / 8 == i / 8 ==> (k % 8 == i % 8 <==> k == i);
    }
  }

  lemma OtherBytes(bytes: seq<bv8>, after: seq<bv8>, off: nat, len: nat)
    requires off + len <= |bytes| == |after|
    requires forall j :: off <= j < off + len ==> bytes[j] == after[j]
    ensures Bits(after, off, len) == Bits(bytes, off, len)
  {
    forall k: nat | k < 8 * len ensures Test(after, off, k) <==> Test(bytes, off, k) {
    }
  }

  /** The inner search of first_1: the lowest bit set in a nonzero byte. */
  method FirstOneInByte(b: bv8) returns (o: nat)
    requires b != 0
    ensures o < 8 && Bit(b, o)
    ensures forall q: nat :: q < o ==> !Bit(b, q)
  {
    hide Mask, Bit;
    ZeroByte(b);
    ghost var p: nat :| p < 8 && Bit(b, p);
    o := 0;
    while !Bit(b, o)
      invariant o <= p
      invariant forall q: nat :: q < o ==> !Bit(b, q)
      decreases p - o
    {
      o := o + 1;
    }
  }

  /** The search of first_1: skip zero bytes, then skip clear bits. */
  method FirstOne(bytes: array<bv8>, off: nat, len: nat) returns (i: nat)
    requires off + len <= bytes.Length
    requires Bits(bytes[..], off, len) != {}
    ensures i in Bits(bytes[..], off, len)
    ensures forall k :: k in Bits(bytes[..], off, len) ==> i <= k
  {
    hide Mask, Bit;
    ghost var w :| w in Bits(bytes[..], off, len);
    var idx := 0;
    ByteOf(bytes[..], off, w);
    while bytes[off + idx] == 0
      invariant 0 <= idx <= w / 8
      invariant forall j :: off <= j < off + idx ==> bytes[j] == 0
      decreases w / 8 - idx
    {
      idx := idx + 1;
    }
    var o := FirstOneInByte(bytes[off + idx]);
    i := idx * 8 + o;
    assert i / 8 == idx && i % 8 == o;
    forall k: nat | k < 8 * len && Test(bytes[..], off, k) ensures i <= k {
      ByteOf(bytes[..], off, k);
      assert k / 8 >= idx;
      assert k / 8 == idx ==> k % 8 >= o;
    }
  }

  /** The byte of a set bit is not zero. */
  lemma ByteOf(bytes: seq<bv8>, off: nat, i: nat)
    requires off + i / 8 < |bytes| && Test(bytes, off, i)
    ensures bytes[off + i / 8] != 0
  {
    ZeroByte(bytes[off + i / 8]);
  }
}
