/** How the slab allocator lays objects out in a page (slab_alloc/src/lib.rs). */
module SlabLayout {
  import opened Arithmetic

  const PAGE_SIZE: nat := 4096
  const REDZONE_SIZE: nat := 16
  const SLOT_HEADER: nat := 4     // size_of::<SlotObject<T>>(): magic and next
  const SLOT_ALIGN: nat := 2      // align_of::<SlotObject<T>>()
  const PAGE_HEADER: nat := 24    // size_of::<SlotPage<T>>(): two links, two counters, padding

  /** The least multiple of `align` that is not below x. */
  function AlignCeil(x: nat, align: nat): (r: nat)
    requires align > 0
    ensures x <= r < x + align
  {
    AlignCeilFacts(x, align);
    (x + align - 1) / align * align
  }

  lemma AlignCeilMultiple(x: nat, align: nat)
    requires align > 0
    ensures AlignCeil(x, align) % align == 0
  {
    AlignCeilFacts(x, align);
  }

  lemma AlignCeilFacts(x: nat, align: nat)
    requires align > 0
    ensures var r := (x + align - 1) / align * align; r % align == 0 && x <= r < x + align
  {
    var q, d := (x + align - 1) / align, (x + align - 1) % align;
    assert x + align - 1 == q * align + d;
    MultipleMod(q, align);
  }

  lemma MultipleMod(q: nat, a: nat)
    requires a > 0
    ensures q * a % a == 0
  {
    if q > 0 {
      MultipleMod(q - 1, a);
      assert q * a == (q - 1) * a + a;
      AddOnce((q - 1) * a, a);
    }
  }

  lemma AddOnce(x: nat, a: nat)
    requires a > 0 && x % a == 0
    ensures (x + a) % a == 0
  {
    var q := x / a;
    assert x == q * a;
    assert x + a == (q + 1) * a;
    PartsUnique(q + 1, 0, (x + a) / a, (x + a) % a, a);
  }

  lemma SumMultiple(x: nat, y: nat, a: nat)
    requires a > 0 && x % a == 0 && y % a == 0
    ensures (x + y) % a == 0
  {
    var p, q := x / a, y / a;
    assert x + y == (p + q) * a;
    MultipleMod(p + q, a);
  }

  /** Size and alignment of the objects of a slab. */
  datatype Layout = Layout(size: nat, align: nat)
  {
    predicate PowerOfTwo(a: nat)
      decreases a
    {
      a == 1 || (a > 1 && a % 2 == 0 && PowerOfTwo(a / 2))
    }

    predicate Valid() {
      PowerOfTwo(align) && ObjectOffset() + SlotSize() <= PAGE_SIZE
    }

    function SlotAlign(): nat { if align > SLOT_ALIGN then align else SLOT_ALIGN }

    function PayloadOffset(): nat
      requires align > 0
    {
      AlignCeil(SLOT_HEADER + REDZONE_SIZE, align)
    }

    function Redzone2Offset(): nat
      requires align > 0
    {
      PayloadOffset() + size
    }

    function SlotSize(): nat
      requires align > 0
    {
      AlignCeil(Redzone2Offset() + REDZONE_SIZE, SlotAlign())
    }

    /** Offset of the first slot in a page. */
    function ObjectOffset(): nat {
      AlignCeil(PAGE_HEADER, SlotAlign())
    }

    /** A 4-byte header, a redzone, the payload and a redzone tile a slot, with redzones of at least 16 bytes
        and no longer than alignment asks; the slots start as soon behind the 24-byte page header. */
    lemma Tiling()
      requires Valid()
      ensures align > 0
      ensures 4 + 16 <= PayloadOffset() < 4 + 16 + align && PayloadOffset() % align == 0
      ensures PayloadOffset() + size == Redzone2Offset()
      ensures Redzone2Offset() + 16 <= SlotSize() < Redzone2Offset() + 16 + SlotAlign() && SlotSize() % SlotAlign() == 0
      ensures 24 <= ObjectOffset() < 24 + SlotAlign() && ObjectOffset() % SlotAlign() == 0
      ensures SlotAlign() == if align > 2 then align else 2
    {
      hide AlignCeil;
      assert align > 0;
      AlignCeilMultiple(SLOT_HEADER + REDZONE_SIZE, align);
      AlignCeilMultiple(Redzone2Offset() + REDZONE_SIZE, SlotAlign());
      AlignCeilMultiple(PAGE_HEADER, SlotAlign());
    }

    /** The offsets of the slots that `init` builds from `offset` on. */
    function Offsets(offset: nat): (s: seq<nat>)
      requires align > 0
      ensures s != [] && s[0] == offset
      decreases PAGE_SIZE - offset
    {
      var next := offset + SlotSize();
      if next + SlotSize() < PAGE_SIZE then [offset] + Offsets(next) else [offset]
    }

    /** Slot i is i slot sizes behind the first, and lies inside the page if the first one does. */
    lemma {:induction false} OffsetAt(offset: nat, i: nat)
      requires Valid() && offset + SlotSize() <= PAGE_SIZE && i < |Offsets(offset)|
      ensures Offsets(offset)[i] == offset + i * SlotSize()
      ensures Offsets(offset)[i] + SlotSize() <= PAGE_SIZE
      decreases i
    {
      hide AlignCeil, SlotSize, ObjectOffset;
      var z := SlotSize();
      if i > 0 {
        OffsetAt(offset + z, i - 1);
        OnceMore(i, z);
      }
    }

    lemma FitsPage()
      requires Valid()
      ensures align > 0 && ObjectOffset() + SlotSize() <= PAGE_SIZE
      ensures SlotSize() >= PayloadOffset() + size
    {
    }

    /** Two slots of a page do not overlap. */
    lemma SlotsDisjoint(i: nat, j: nat)
      requires Valid() && i < j < |Offsets(ObjectOffset())|
      ensures var s := Offsets(ObjectOffset()); s[i] + SlotSize() <= s[j]
    {
      OffsetAt(ObjectOffset(), i);
      OffsetAt(ObjectOffset(), j);
      AtLeast(j - i, SlotSize());
      assert (j - i) * SlotSize() == j * SlotSize() - i * SlotSize();
    }

    /** An object as large as a page header leaves alignment below the page size. */
    lemma AlignDivides()
      requires Valid()
      ensures align > 0 && PAGE_SIZE % align == 0 && PAGE_SIZE % SlotAlign() == 0
    {
      assert align > 0;
      assert align < PAGE_SIZE;
      PagePower();
      PowerDivides(align, PAGE_SIZE);
      TwoDivides();
    }

    lemma TwoDivides()
      ensures PAGE_SIZE % SLOT_ALIGN == 0
    {
    }

    lemma PagePower()
      ensures PowerOfTwo(PAGE_SIZE)
    {
      assert PowerOfTwo(8);
      assert PowerOfTwo(64);
      assert PowerOfTwo(512);
    }

    lemma {:induction false} PowerDivides(a: nat, b: nat)
      requires PowerOfTwo(a) && PowerOfTwo(b) && a <= b
      ensures b % a == 0
      decreases b
    {
      if a < b {
        assert b > 1;
        HalfAtLeast(a, b);
        PowerDivides(a, b / 2);
        SumMultiple(b / 2, b / 2, a);
      } else {
        MultipleMod(1, a);
      }
    }

    lemma {:induction false} HalfAtLeast(a: nat, b: nat)
      requires PowerOfTwo(a) && PowerOfTwo(b) && a < b
      ensures a <= b / 2
      decreases a
    {
      if a > 1 {
        HalfAtLeast(a / 2, b / 2);
      }
    }

    /** The payload of every slot of a page is aligned as its type asks. */
    lemma PayloadAligned(page: nat, i: nat)
      requires Valid() && page % PAGE_SIZE == 0 && i < |Offsets(ObjectOffset())|
      ensures (page + Offsets(ObjectOffset())[i] + PayloadOffset()) % align == 0
    {
      hide AlignCeil, Offsets, SlotSize, ObjectOffset, PayloadOffset, PowerOfTwo;
      AlignDivides();
      LayoutMultiples();
      OffsetAt(ObjectOffset(), i);
      MultipleOfMultiple(page, PAGE_SIZE, align);
      TimesMultiple(i, SlotSize(), align);
      SumMultiple(ObjectOffset(), i * SlotSize(), align);
      SumMultiple(page, ObjectOffset() + i * SlotSize(), align);
      SumMultiple(page + (ObjectOffset() + i * SlotSize()), PayloadOffset(), align);
      assert page + Offsets(ObjectOffset())[i] + PayloadOffset() ==
             page + (ObjectOffset() + i * SlotSize()) + PayloadOffset();
    }

    lemma LayoutMultiples()
      requires PowerOfTwo(align)
      ensures ObjectOffset() % align == 0 && SlotSize() % align == 0 && PayloadOffset() % align == 0
    {
      hide AlignCeil;
      AlignCeilMultiple(SLOT_HEADER + REDZONE_SIZE, align);
      AlignCeilMultiple(Redzone2Offset() + REDZONE_SIZE, SlotAlign());
      AlignCeilMultiple(PAGE_HEADER, SlotAlign());
      SlotAlignMultiple(ObjectOffset());
      SlotAlignMultiple(SlotSize());
    }

    lemma SlotAlignMultiple(x: nat)
      requires PowerOfTwo(align) && x % SlotAlign() == 0
      ensures x % align == 0
    {
    }
  }

  lemma OnceMore(i: nat, z: nat)
    requires i > 0
    ensures (i - 1) * z + z == i * z
  {
  }

  lemma MultipleOfMultiple(x: nat, b: nat, a: nat)
    requires a > 0 && b > 0 && x % b == 0 && b % a == 0
    ensures x % a == 0
  {
    TimesMultiple(x / b, b, a);
    assert x == x / b * b;
  }

  lemma {:induction false} TimesMultiple(n: nat, y: nat, a: nat)
    requires a > 0 && y % a == 0
    ensures n * y % a == 0
  {
    if n > 0 {
      TimesMultiple(n - 1, y, a);
      SumMultiple((n - 1) * y, y, a);
      assert n * y == (n - 1) * y + y;
    } else {
      assert n * y == 0;
    }
  }

  /** Masking the address of a slot recovers its page. */
  function PageOf(addr: nat): nat { addr - addr % PAGE_SIZE }

  lemma PageOfSlot(page: nat, offset: nat)
    requires page % PAGE_SIZE == 0 && offset < PAGE_SIZE
    ensures PageOf(page + offset) == page
  {
  }
}
