/** The slab allocator (slab_alloc/src/lib.rs): free chains inside pages, a doubly linked list of the
    pages that have a free slot, and a page source that may refuse.

Memory is a map from page addresses to page records; links are addresses, 0 being the null pointer.
What the page source answers is a parameter of `Alloc`.
 */
module Slab {
  import opened Arithmetic
  import opened SlabLayout

  const EMPTY_MAGIC: nat := 0x3a49
  const OBJECT_MAGIC: nat := 0x6b5c
  const REDZONE_FILL: bv8 := 0xf1
  const UNUSED_FILL: bv8 := 0xf2

  datatype Slot = Slot(magic: nat, next: nat, redzone1: seq<bv8>, payload: seq<bv8>, redzone2: seq<bv8>)

  datatype SlotPage = SlotPage(next: nat, prev: nat, freeIndex: nat, allocCount: nat, slots: map<nat, Slot>)

  type Memory = map<nat, SlotPage>

  function Filled(n: nat, b: bv8): (s: seq<bv8>)
    ensures |s| == n && forall i :: 0 <= i < n ==> s[i] == b
  {
    seq(n, _ => b)
  }

  // ---------------------------------------------------------------- sequences of addresses

  /** The element at i, or the null address past either end. */
  function At(s: seq<nat>, i: int): nat {
    if 0 <= i < |s| then s[i] else 0
  }

  // ---------------------------------------------------------------- SlotObject

  predicate RedzonesIntact(l: Layout, s: Slot)
    requires l.align > 0
  {
    && s.redzone1 == Filled(l.PayloadOffset() - SLOT_HEADER, REDZONE_FILL)
    && s.redzone2 == Filled(l.SlotSize() - l.Redzone2Offset(), REDZONE_FILL)
  }

  predicate Unused(l: Layout, s: Slot) {
    s.payload == Filled(l.size, UNUSED_FILL)
  }

  predicate FreeSlot(l: Layout, s: Slot)
    requires l.align > 0
  {
    s.magic == EMPTY_MAGIC && RedzonesIntact(l, s) && Unused(l, s)
  }

  predicate LiveSlot(l: Layout, s: Slot)
    requires l.align > 0
  {
    s.magic == OBJECT_MAGIC && s.next == 0 && RedzonesIntact(l, s) && |s.payload| == l.size
  }

  /** The parts of an undamaged slot make up its bytes: a 4-byte header, redzones of 0xf1, and a payload that
      is all 0xf2 while the slot is free. */
  lemma SlotBytes(l: Layout, s: Slot)
    requires l.Valid() && l.align > 0 && (FreeSlot(l, s) || LiveSlot(l, s))
    ensures 4 + |s.redzone1| == l.PayloadOffset() && |s.payload| == l.size
    ensures 4 + |s.redzone1| + |s.payload| + |s.redzone2| == l.SlotSize()
    ensures forall i :: 0 <= i < |s.redzone1| ==> s.redzone1[i] == 0xf1
    ensures forall i :: 0 <= i < |s.redzone2| ==> s.redzone2[i] == 0xf1
    ensures FreeSlot(l, s) ==> forall i :: 0 <= i < |s.payload| ==> s.payload[i] == 0xf2
  {
    hide AlignCeil;
    l.Tiling();
  }

  /** A slot as `init` leaves it, with its chain link. */
  function FreshSlot(l: Layout, next: nat): (s: Slot)
    requires l.align > 0
    ensures FreeSlot(l, s) && s.next == next
  {
    Slot(EMPTY_MAGIC, next,
         Filled(l.PayloadOffset() - SLOT_HEADER, REDZONE_FILL),
         Filled(l.size, UNUSED_FILL),
         Filled(l.SlotSize() - l.Redzone2Offset(), REDZONE_FILL))
  }

  // ---------------------------------------------------------------- SlotPage

  /** Link i of the chain: a free slot that leads to the next one. */
  ghost predicate InChain(l: Layout, slots: map<nat, Slot>, c: seq<nat>, i: nat)
    requires l.align > 0 && i < |c|
  {
    c[i] in slots && FreeSlot(l, slots[c[i]]) && slots[c[i]].next == At(c, i + 1)
  }

  /** The free slots of the page are those of chain c, threaded from freeIndex in that order; all
      others are live; nothing is damaged; alloc_count counts the live ones. */
  ghost predicate PageOk(l: Layout, p: SlotPage, c: seq<nat>)
    requires l.align > 0
  {
    && (forall o :: o in p.slots <==> o in l.Offsets(l.ObjectOffset()))
    && |p.slots| == |l.Offsets(l.ObjectOffset())|
    && Distinct(c)
    && p.freeIndex == At(c, 0)
    && Chain(l, p.slots, c)
    && (forall o :: o in p.slots && o !in c ==> LiveSlot(l, p.slots[o]))
    && p.allocCount + |c| == |p.slots|
  }

  /** The loop of `init`: build the slots from `offset` on, each linked to the next. */
  method InitSlots(l: Layout) returns (slots: map<nat, Slot>)
    requires l.Valid()
    ensures var c := l.Offsets(l.ObjectOffset());
            && (forall o :: o in slots <==> o in c)
            && |slots| == |c|
            && Chain(l, slots, c)
  {
    hide Layout.Offsets, AlignCeil, Layout.SlotSize, Layout.ObjectOffset, FreshSlot, FreeSlot, Layout.PowerOfTwo, Layout.PayloadOffset;
    hide Distinct, InChain, Chain;
    assert l.align > 0 by { Positive(l); }
    ghost var c := l.Offsets(l.ObjectOffset());
    OffsetsDistinct(l);
    slots := map[];
    var offset := l.ObjectOffset();
    ghost var n := 0;
    while true
      invariant 0 <= n < |c| && offset == c[n]
      invariant forall o :: o in slots <==> o in c[..n]
      invariant forall i :: 0 <= i < n ==> InChain(l, slots, c, i)
      decreases PAGE_SIZE - offset
    {
      OffsetsNext(l, l.ObjectOffset(), n);
      assert c[..n + 1] == c[..n] + [c[n]];
      var next := offset + l.SlotSize();
      ghost var before := slots;
      if next + l.SlotSize() < PAGE_SIZE {
        slots := slots[offset := FreshSlot(l, next)];
        NewLink(l, slots, c, n);
        ChainKept(l, before, slots, c, n);
        offset := next;
        n := n + 1;
      } else {
        slots := slots[offset := FreshSlot(l, 0)];
        NewLink(l, slots, c, n);
        ChainKept(l, before, slots, c, n);
        assert c[..n + 1] == c;
        WholeChain(l, slots, c, n);
        break;
      }
    }
    CountKeys(slots, c);
  }

  lemma NewLink(l: Layout, slots: map<nat, Slot>, c: seq<nat>, n: nat)
    requires l.align > 0 && n < |c| && c[n] in slots && slots[c[n]] == FreshSlot(l, At(c, n + 1))
    ensures InChain(l, slots, c, n)
  {
  }

  lemma WholeChain(l: Layout, slots: map<nat, Slot>, c: seq<nat>, n: nat)
    requires l.align > 0 && n + 1 == |c| && InChain(l, slots, c, n)
    requires forall i :: 0 <= i < n ==> InChain(l, slots, c, i)
    ensures Chain(l, slots, c)
  {
    hide InChain;
  }

  /** Writing the slot behind a chain under construction leaves the chain alone. */
  lemma ChainKept(l: Layout, slots: map<nat, Slot>, more: map<nat, Slot>, c: seq<nat>, n: nat)
    requires l.align > 0 && n < |c| && Distinct(c)
    requires forall i :: 0 <= i < n ==> InChain(l, slots, c, i)
    requires c[n] in more && more == slots[c[n] := more[c[n]]]
    ensures forall i :: 0 <= i < n ==> InChain(l, more, c, i)
  {
    forall i | 0 <= i < n ensures InChain(l, more, c, i) {
      assert InChain(l, slots, c, i);
    }
  }

  lemma Positive(l: Layout)
    requires l.Valid()
    ensures l.align > 0
  {
  }

  lemma CountKeys<V>(m: map<nat, V>, c: seq<nat>)
    requires forall o :: o in m <==> o in c
    requires Distinct(c)
    ensures |m| == |c|
  {
    CountElements(m.Keys, c);
  }

  lemma {:induction false} CountElements(s: set<nat>, c: seq<nat>)
    requires forall o :: o in s <==> o in c
    requires Distinct(c)
    ensures |s| == |c|
    decreases |c|
  {
    if c == [] {
      assert s == {};
    } else {
      var n := |c| - 1;
      var x, front := c[n], c[..n];
      assert c == front + [x];
      assert x !in front;
      forall o ensures o in s - {x} <==> o in front {
      }
      CountElements(s - {x}, front);
    }
  }

  /** Where the chain of a fresh page goes on. */
  lemma {:induction false} OffsetsNext(l: Layout, offset: nat, n: nat)
    requires l.align > 0 && n < |l.Offsets(offset)|
    ensures l.SlotSize() > 0
    ensures var s := l.Offsets(offset);
            && (n + 1 < |s| <==> s[n] + l.SlotSize() + l.SlotSize() < PAGE_SIZE)
            && (n + 1 < |s| ==> s[n + 1] == s[n] + l.SlotSize())
    decreases n
  {
    hide AlignCeil, Layout.ObjectOffset;
    if n > 0 {
      OffsetsNext(l, offset + l.SlotSize(), n - 1);
    }
  }

  lemma OffsetsDistinct(l: Layout)
    requires l.Valid()
    ensures Distinct(l.Offsets(l.ObjectOffset()))
    ensures forall i :: 0 <= i < |l.Offsets(l.ObjectOffset())| ==> 0 < l.Offsets(l.ObjectOffset())[i] < PAGE_SIZE
  {
    hide Layout.Offsets, AlignCeil;
    var c := l.Offsets(l.ObjectOffset());
    forall i, j | 0 <= i < j < |c| ensures c[i] != c[j] {
      l.SlotsDisjoint(i, j);
    }
    forall i | 0 <= i < |c| ensures 0 < c[i] < PAGE_SIZE {
      l.OffsetAt(l.ObjectOffset(), i);
      l.Tiling();
    }
  }

  /** pop_front_object and on_alloc on the page record. */
  function Popped(p: SlotPage): SlotPage
    requires p.freeIndex in p.slots
  {
    var o := p.freeIndex;
    p.(freeIndex := p.slots[o].next, allocCount := p.allocCount + 1,
       slots := p.slots[o := p.slots[o].(next := 0)])
  }

  function Started(l: Layout, p: SlotPage, o: nat): SlotPage
    requires o in p.slots
  {
    p.(slots := p.slots[o := p.slots[o].(magic := OBJECT_MAGIC, payload := Filled(l.size, 0))])
  }

  /** on_dealloc and push_front_object on the page record. */
  function Ended(l: Layout, p: SlotPage, o: nat): SlotPage
    requires o in p.slots
  {
    p.(slots := p.slots[o := p.slots[o].(magic := EMPTY_MAGIC, payload := Filled(l.size, UNUSED_FILL))])
  }

  function Pushed(p: SlotPage, o: nat): SlotPage
    requires o in p.slots && p.allocCount > 0
  {
    p.(freeIndex := o, allocCount := p.allocCount - 1, slots := p.slots[o := p.slots[o].(next := p.freeIndex)])
  }

  ghost predicate Chain(l: Layout, slots: map<nat, Slot>, c: seq<nat>)
    requires l.align > 0
  {
    forall i :: 0 <= i < |c| ==> InChain(l, slots, c, i)
  }

  lemma ChainTail(l: Layout, slots: map<nat, Slot>, c: seq<nat>)
    requires l.align > 0 && c != [] && Chain(l, slots, c)
    ensures Chain(l, slots, c[1..])
  {
    hide FreeSlot;
    forall i | 0 <= i < |c[1..]| ensures InChain(l, slots, c[1..], i) {
      assert InChain(l, slots, c, i + 1);
    }
  }

  lemma ChainCons(l: Layout, slots: map<nat, Slot>, c: seq<nat>, o: nat)
    requires l.align > 0 && Chain(l, slots, c)
    requires o in slots && FreeSlot(l, slots[o]) && slots[o].next == At(c, 0)
    ensures Chain(l, slots, [o] + c)
  {
    hide FreeSlot;
    var d := [o] + c;
    forall i | 0 <= i < |d| ensures InChain(l, slots, d, i) {
      if i > 0 {
        assert InChain(l, slots, c, i - 1);
      }
    }
  }

  lemma ChainWrite(l: Layout, slots: map<nat, Slot>, c: seq<nat>, o: nat, s: Slot)
    requires l.align > 0 && o !in c && Chain(l, slots, c)
    ensures Chain(l, slots[o := s], c)
  {
    hide FreeSlot;
    var more := slots[o := s];
    forall i | 0 <= i < |c| ensures InChain(l, more, c, i) {
      assert InChain(l, slots, c, i);
    }
  }

  lemma TakenSlot(l: Layout, s: Slot)
    requires l.align > 0 && FreeSlot(l, s)
    ensures FreeSlot(l, s.(next := 0))
    ensures LiveSlot(l, s.(next := 0, magic := OBJECT_MAGIC, payload := Filled(l.size, 0)))
  {
    hide AlignCeil;
  }

  lemma GivenSlot(l: Layout, s: Slot, next: nat)
    requires l.align > 0 && LiveSlot(l, s)
    ensures FreeSlot(l, s.(magic := EMPTY_MAGIC, payload := Filled(l.size, UNUSED_FILL), next := next))
  {
    hide AlignCeil;
  }

  /** Taking the first free slot of a page: the checks of on_alloc hold, and the page stays in order
      with the chain one shorter. */
  lemma TakeSlot(l: Layout, p: SlotPage, c: seq<nat>)
    requires l.Valid() && PageOk(l, p, c) && c != []
    ensures p.freeIndex == c[0] && c[0] in p.slots && 0 < c[0] < PAGE_SIZE
    ensures FreeSlot(l, Popped(p).slots[c[0]]) && Popped(p).slots[c[0]].next == 0
    ensures Distinct(c) && (p.slots[c[0]].next == 0 <==> |c| == 1)
    ensures PageOk(l, Started(l, Popped(p), c[0]), c[1..])
  {
    hide Layout.Offsets, AlignCeil, Layout.PowerOfTwo, Filled, Layout.SlotSize, FreeSlot, LiveSlot, Layout.ObjectOffset;
    hide Chain, Distinct;
    Positive(l);
    OffsetsDistinct(l);
    var o := c[0];
    ChainHead(l, p.slots, c);
    TakenSlot(l, p.slots[o]);
    var q := Started(l, Popped(p), o);
    assert q.slots == p.slots[o := q.slots[o]];
    ChainTail(l, p.slots, c);
    DistinctTail(c);
    ChainWrite(l, p.slots, c[1..], o, q.slots[o]);
  }

  lemma ChainHead(l: Layout, slots: map<nat, Slot>, c: seq<nat>)
    requires l.align > 0 && Chain(l, slots, c) && c != []
    ensures c[0] in slots && FreeSlot(l, slots[c[0]]) && slots[c[0]].next == At(c[1..], 0)
    ensures |c| > 1 ==> c[1] in slots
  {
    hide FreeSlot;
    assert InChain(l, slots, c, 0);
    if |c| > 1 { assert InChain(l, slots, c, 1); }
  }

  lemma DistinctTail(c: seq<nat>)
    requires Distinct(c) && c != []
    ensures Distinct(c[1..]) && c[0] !in c[1..]
    ensures forall x :: x in c <==> x == c[0] || x in c[1..]
  {
    assert c == [c[0]] + c[1..];
  }

  /** The check at the head of on_dealloc passes exactly on the slots that are in use: giving a slot back
      twice is caught, as long as nothing is damaged. */
  lemma DoubleFreeCaught(l: Layout, p: SlotPage, c: seq<nat>, o: nat)
    requires l.Valid() && l.align > 0 && PageOk(l, p, c) && o in p.slots
    ensures p.slots[o].magic == OBJECT_MAGIC && p.slots[o].next == 0 <==> o !in c
  {
    hide Layout.Offsets, AlignCeil, Layout.SlotSize, Layout.ObjectOffset, Layout.Valid, RedzonesIntact, Unused, Distinct;
    if o in c {
      var i :| 0 <= i < |c| && c[i] == o;
      assert InChain(l, p.slots, c, i);
    }
  }

  /** Giving a live slot back: the checks of on_dealloc hold, and the page stays in order with the slot
      at the head of its chain. */
  lemma GiveSlot(l: Layout, p: SlotPage, c: seq<nat>, o: nat)
    requires l.Valid() && PageOk(l, p, c) && o in p.slots && o !in c
    ensures LiveSlot(l, p.slots[o]) && 0 < o < PAGE_SIZE
    ensures p.freeIndex == 0 <==> c == []
    ensures p.allocCount > 0
    ensures PageOk(l, Pushed(Ended(l, p, o), o), [o] + c)
  {
    hide Layout.Offsets, AlignCeil, Layout.PowerOfTwo, Filled, Layout.SlotSize, FreeSlot, LiveSlot, Layout.ObjectOffset;
    Positive(l);
    OffsetsDistinct(l);
    ChainInside(l, p.slots, c);
    MoreSlots(p.slots, c, o);
    GivenSlot(l, p.slots[o], p.freeIndex);
    var q := Pushed(Ended(l, p, o), o);
    assert q.slots == p.slots[o := q.slots[o]];
    ChainWrite(l, p.slots, c, o, q.slots[o]);
    ChainCons(l, q.slots, c, o);
  }

  lemma ChainInside(l: Layout, slots: map<nat, Slot>, c: seq<nat>)
    requires l.align > 0 && Chain(l, slots, c)
    ensures forall i :: 0 <= i < |c| ==> c[i] in slots
  {
    hide FreeSlot;
    forall i | 0 <= i < |c| ensures c[i] in slots {
      assert InChain(l, slots, c, i);
    }
  }

  /** A page has more slots than its chain if some slot is not on it. */
  lemma MoreSlots(slots: map<nat, Slot>, c: seq<nat>, o: nat)
    requires Distinct(c) && o in slots && o !in c
    requires forall i :: 0 <= i < |c| ==> c[i] in slots
    ensures |c| < |slots|
  {
    var on := map x | x in slots && x in c :: slots[x];
    CountKeys(on, c);
    assert on.Keys < slots.Keys;
    SubsetLess(on.Keys, slots.Keys);
  }

  lemma SubsetLess(a: set<nat>, b: set<nat>)
    requires a < b
    ensures |a| < |b|
  {
    assert b == a + (b - a);
  }

  // ---------------------------------------------------------------- PageList

  /** Page i of the list is linked to its neighbours. */
  ghost predicate LinkOk(m: Memory, s: seq<nat>, i: nat)
    requires i < |s|
  {
    s[i] in m && m[s[i]].next == At(s, i + 1) && m[s[i]].prev == At(s, i - 1)
  }

  /** head and tail and the links make up the doubly linked list s, without repetition. */
  ghost predicate ListOk(m: Memory, head: nat, tail: nat, s: seq<nat>) {
    && Distinct(s) && 0 !in s
    && head == At(s, 0) && tail == At(s, |s| - 1)
    && forall i :: 0 <= i < |s| ==> LinkOk(m, s, i)
  }

  /** The pages differ in their links only. */
  ghost predicate SameBodies(m: Memory, n: Memory) {
    && m.Keys == n.Keys
    && forall a :: a in m ==> SameBody(m[a], n[a])
  }

  predicate SameBody(p: SlotPage, q: SlotPage) {
    p.freeIndex == q.freeIndex && p.allocCount == q.allocCount && p.slots == q.slots
  }

  /** The list without its element i. */
  function Without(s: seq<nat>, i: nat): seq<nat>
    requires i < |s|
  {
    s[..i] + s[i + 1..]
  }

  lemma AtWithout(s: seq<nat>, i: nat, j: int)
    requires i < |s|
    ensures At(Without(s, i), j) == if j < i then At(s, j) else At(s, j + 1)
  {
  }

  /** remove: the neighbours of a are linked to each other. */
  function Unlinked(m: Memory, a: nat): Memory
    requires a in m && (m[a].prev != 0 ==> m[a].prev in m) && (m[a].next != 0 ==> m[a].next in m)
  {
    var link := m[a];
    var m1 := if link.prev == 0 then m else m[link.prev := m[link.prev].(next := link.next)];
    var m2 := if link.next == 0 then m1 else m1[link.next := m1[link.next].(prev := link.prev)];
    m2[a := m2[a].(next := 0, prev := 0)]
  }

  lemma Neighbours(m: Memory, head: nat, tail: nat, s: seq<nat>, i: nat)
    requires ListOk(m, head, tail, s) && i < |s|
    ensures s[i] in m && s[i] != 0
    ensures m[s[i]].prev == At(s, i - 1) && m[s[i]].next == At(s, i + 1)
    ensures m[s[i]].prev == 0 <==> i == 0
    ensures m[s[i]].next == 0 <==> i == |s| - 1
    ensures m[s[i]].prev != 0 ==> m[s[i]].prev in m
    ensures m[s[i]].next != 0 ==> m[s[i]].next in m
  {
    assert LinkOk(m, s, i);
    if i > 0 { assert LinkOk(m, s, i - 1); }
    if i + 1 < |s| { assert LinkOk(m, s, i + 1); }
  }

  lemma UnlinkedAt(m: Memory, head: nat, tail: nat, s: seq<nat>, i: nat, j: nat)
    requires ListOk(m, head, tail, s) && i < |s| && j < |s| && j != i
    requires s[i] in m && (m[s[i]].prev != 0 ==> m[s[i]].prev in m) && (m[s[i]].next != 0 ==> m[s[i]].next in m)
    ensures var n := Unlinked(m, s[i]);
            && s[j] in n
            && n[s[j]].next == (if j + 1 == i then At(s, i + 1) else At(s, j + 1))
            && n[s[j]].prev == (if j == i + 1 then At(s, i - 1) else At(s, j - 1))
  {
    Neighbours(m, head, tail, s, i);
    assert LinkOk(m, s, j);
  }

  lemma UnlinkedLink(m: Memory, head: nat, tail: nat, s: seq<nat>, i: nat, k: nat)
    requires ListOk(m, head, tail, s) && i < |s| && k < |s| - 1
    requires s[i] in m && (m[s[i]].prev != 0 ==> m[s[i]].prev in m) && (m[s[i]].next != 0 ==> m[s[i]].next in m)
    ensures LinkOk(Unlinked(m, s[i]), Without(s, i), k)
  {
    hide Unlinked, ListOk, At;
    assert LinkOk(m, s, if k < i then k else k + 1) by { LinkAt(m, head, tail, s, if k < i then k else k + 1); }
    UnlinkedAt(m, head, tail, s, i, if k < i then k else k + 1);
    AtWithout(s, i, k + 1);
    AtWithout(s, i, k - 1);
  }

  lemma LinkAt(m: Memory, head: nat, tail: nat, s: seq<nat>, i: nat)
    requires ListOk(m, head, tail, s) && i < |s|
    ensures LinkOk(m, s, i)
  {
  }

  lemma UnlinkedOk(m: Memory, head: nat, tail: nat, s: seq<nat>, i: nat)
    requires ListOk(m, head, tail, s) && i < |s|
    requires s[i] in m && (m[s[i]].prev != 0 ==> m[s[i]].prev in m) && (m[s[i]].next != 0 ==> m[s[i]].next in m)
    ensures var link, n := m[s[i]], Unlinked(m, s[i]);
            && ListOk(n, if link.prev == 0 then link.next else head, if link.next == 0 then link.prev else tail, Without(s, i))
            && SameBodies(m, n)
  {
    hide Unlinked;
    Neighbours(m, head, tail, s, i);
    var n, t := Unlinked(m, s[i]), Without(s, i);
    forall k | 0 <= k < |t| ensures LinkOk(n, t, k) {
      UnlinkedLink(m, head, tail, s, i, k);
    }
    assert SameBodies(m, n) by { UnlinkedBodies(m, s[i]); }
    AtWithout(s, i, 0);
    AtWithout(s, i, |t| - 1);
  }

  lemma UnlinkedBodies(m: Memory, a: nat)
    requires a in m && (m[a].prev != 0 ==> m[a].prev in m) && (m[a].next != 0 ==> m[a].next in m)
    ensures SameBodies(m, Unlinked(m, a))
  {
  }

  /** push_back: a page that is not in the list goes to its end. */
  function Appended(m: Memory, tail: nat, a: nat): Memory
    requires a in m && (tail != 0 ==> tail in m)
  {
    var m1 := m[a := m[a].(next := 0, prev := tail)];
    if tail == 0 then m1 else m1[tail := m1[tail].(next := a)]
  }

  lemma AppendedOk(m: Memory, head: nat, tail: nat, s: seq<nat>, a: nat)
    requires ListOk(m, head, tail, s) && a in m && a !in s && a != 0
    ensures (tail != 0 <==> s != []) && (tail != 0 ==> tail in m) && (head != 0 <==> s != [])
    ensures ListOk(Appended(m, tail, a), if tail == 0 then a else head, a, s + [a])
    ensures SameBodies(m, Appended(m, tail, a))
  {
    if s != [] {
      Neighbours(m, head, tail, s, |s| - 1);
      Neighbours(m, head, tail, s, 0);
    }
    var n, t := Appended(m, tail, a), s + [a];
    forall k | 0 <= k < |t| ensures LinkOk(n, t, k) {
      if k < |s| {
        assert LinkOk(m, s, k);
      }
    }
  }

  // ---------------------------------------------------------------- live objects

  type Chains = map<nat, seq<nat>>

  /** The page and the slot that a payload pointer belongs to. */
  function PageOfPtr(l: Layout, ptr: nat): nat
    requires l.align > 0 && l.PayloadOffset() <= ptr
  {
    PageOf(ptr - l.PayloadOffset())
  }

  function SlotOfPtr(l: Layout, ptr: nat): nat
    requires l.align > 0 && l.PayloadOffset() <= ptr
  {
    (ptr - l.PayloadOffset()) % PAGE_SIZE
  }

  ghost predicate LiveAt(l: Layout, m: Memory, ch: Chains, ptr: nat)
    requires l.align > 0
  {
    && l.PayloadOffset() <= ptr
    && var a, o := PageOfPtr(l, ptr), SlotOfPtr(l, ptr);
      a in m && a in ch && o in m[a].slots && o !in ch[a]
  }

  ghost function PayloadAt(l: Layout, m: Memory, ch: Chains, ptr: nat): seq<bv8>
    requires l.align > 0 && LiveAt(l, m, ch, ptr)
  {
    m[PageOfPtr(l, ptr)].slots[SlotOfPtr(l, ptr)].payload
  }

  ghost function Pointers(l: Layout, m: Memory, ch: Chains): set<nat>
    requires l.align > 0
  {
    set a, o | a in m && o in m[a].slots :: a + o + l.PayloadOffset()
  }

  /** The payloads of the live objects, by pointer. */
  ghost function Contents(l: Layout, m: Memory, ch: Chains): (r: map<nat, seq<bv8>>)
    requires l.align > 0
    ensures forall p: nat :: p in r <==> LiveAt(l, m, ch, p)
    ensures forall p: nat :: LiveAt(l, m, ch, p) ==> p in r && r[p] == PayloadAt(l, m, ch, p)
  {
    forall p: nat | LiveAt(l, m, ch, p) ensures p in Pointers(l, m, ch) {
      assert PageOfPtr(l, p) + SlotOfPtr(l, p) + l.PayloadOffset() == p;
    }
    map p | p in Pointers(l, m, ch) && LiveAt(l, m, ch, p) :: PayloadAt(l, m, ch, p)
  }

  lemma PtrParts(l: Layout, a: nat, o: nat)
    requires l.align > 0 && a % PAGE_SIZE == 0 && o < PAGE_SIZE
    ensures PageOfPtr(l, a + o + l.PayloadOffset()) == a && SlotOfPtr(l, a + o + l.PayloadOffset()) == o
  {
    hide Layout.PayloadOffset;
    PageOfSlot(a, o);
  }

  lemma PtrWhole(l: Layout, p: nat)
    requires l.align > 0 && l.PayloadOffset() <= p
    ensures p == PageOfPtr(l, p) + SlotOfPtr(l, p) + l.PayloadOffset() && SlotOfPtr(l, p) < PAGE_SIZE
  {
    hide Layout.PayloadOffset;
  }

  lemma BodyOk(l: Layout, p: SlotPage, q: SlotPage, c: seq<nat>)
    requires l.align > 0 && SameBody(p, q) && PageOk(l, p, c)
    ensures PageOk(l, q, c)
  {
    hide Chain;
  }

  /** Two states of memory that agree but for slot o of page a. */
  ghost predicate AgreeBut(m: Memory, ch: Chains, n: Memory, dh: Chains, a: nat, o: nat) {
    && a in m && a in n && a in ch && a in dh
    && a % PAGE_SIZE == 0 && o < PAGE_SIZE && o in m[a].slots && o in n[a].slots
    && m.Keys == n.Keys && ch.Keys == dh.Keys
    && (forall b :: b in m && b != a ==> n[b].slots == m[b].slots)
    && (forall b :: b in ch && b != a ==> dh[b] == ch[b])
    && n[a].slots == m[a].slots[o := n[a].slots[o]]
    && (forall x :: x != o ==> (x in dh[a] <==> x in ch[a]))
  }

  lemma OtherPointer(l: Layout, m: Memory, ch: Chains, n: Memory, dh: Chains, a: nat, o: nat, p: nat)
    requires l.align > 0 && AgreeBut(m, ch, n, dh, a, o) && p != a + o + l.PayloadOffset()
    ensures LiveAt(l, n, dh, p) <==> LiveAt(l, m, ch, p)
    ensures LiveAt(l, m, ch, p) ==> PayloadAt(l, n, dh, p) == PayloadAt(l, m, ch, p)
  {
    hide Layout.PayloadOffset, PageOfPtr, SlotOfPtr;
    if l.PayloadOffset() <= p {
      PtrWhole(l, p);
    }
  }

  /** What a change in slot o of page a does to the live objects. */
  lemma ContentsChange(l: Layout, m: Memory, ch: Chains, n: Memory, dh: Chains, a: nat, o: nat)
    requires l.align > 0 && AgreeBut(m, ch, n, dh, a, o)
    ensures var ptr := a + o + l.PayloadOffset();
            && (ptr in Contents(l, m, ch) <==> o !in ch[a])
            && Contents(l, n, dh) == if o in dh[a] then Contents(l, m, ch) - {ptr}
                                     else Contents(l, m, ch)[ptr := n[a].slots[o].payload]
  {
    hide Layout.PayloadOffset, Contents, PageOfPtr, SlotOfPtr, AgreeBut;
    var ptr := a + o + l.PayloadOffset();
    ChangedPointer(l, m, ch, n, dh, a, o);
    forall p: nat | p != ptr
      ensures LiveAt(l, n, dh, p) <==> LiveAt(l, m, ch, p)
      ensures LiveAt(l, m, ch, p) ==> PayloadAt(l, n, dh, p) == PayloadAt(l, m, ch, p)
    {
      OtherPointer(l, m, ch, n, dh, a, o, p);
    }
  }

  lemma ChangedPointer(l: Layout, m: Memory, ch: Chains, n: Memory, dh: Chains, a: nat, o: nat)
    requires l.align > 0 && AgreeBut(m, ch, n, dh, a, o)
    ensures a in ch && a in dh && a in n && o in n[a].slots
    ensures var ptr := a + o + l.PayloadOffset();
            && (LiveAt(l, m, ch, ptr) <==> o !in ch[a])
            && (LiveAt(l, n, dh, ptr) <==> o !in dh[a])
            && (o !in dh[a] ==> PayloadAt(l, n, dh, ptr) == n[a].slots[o].payload)
  {
    hide Layout.PayloadOffset, PageOfPtr, SlotOfPtr;
    PtrParts(l, a, o);
  }
}
