/** SlabAllocator::alloc and dealloc. */
module SlabAllocation {
  import opened Options
  import opened Arithmetic
  import opened SlabLayout
  import opened Slab

  /** The partial list holds exactly the pages whose chain is not empty. */
  ghost predicate Listed(ch: Chains, partial: seq<nat>) {
    forall a :: a in partial <==> a in ch && ch[a] != []
  }

  /** Every page is one the allocator owns; page `idle`, if there is one, may have no live object. */
  ghost predicate PagesOk(l: Layout, m: Memory, ch: Chains, idle: nat)
    requires l.align > 0
  {
    && m.Keys == ch.Keys
    && forall a :: a in m ==> PageIn(l, a, m[a], ch[a], idle)
  }

  ghost predicate PageIn(l: Layout, a: nat, p: SlotPage, c: seq<nat>, idle: nat)
    requires l.align > 0
  {
    a % PAGE_SIZE == 0 && a != 0 && PageOk(l, p, c) && (a != idle ==> p.allocCount > 0)
  }

  lemma PagesAfter(l: Layout, m: Memory, ch: Chains, n: Memory, a: nat, c: seq<nat>, idle: nat, idle': nat)
    requires l.align > 0 && PagesOk(l, m, ch, idle) && a in m && a in n
    requires m.Keys == n.Keys && (forall b :: b in m && b != a ==> SameBody(m[b], n[b]))
    requires PageIn(l, a, n[a], c, idle') && (idle == idle' || idle == a)
    ensures PagesOk(l, n, ch[a := c], idle')
  {
    hide PageOk;
    forall b | b in n ensures PageIn(l, b, n[b], ch[a := c][b], idle') {
      if b != a {
        assert PageIn(l, b, m[b], ch[b], idle);
        BodyOk(l, m[b], n[b], ch[b]);
      }
    }
  }

  lemma LinksKept(m: Memory, n: Memory, head: nat, tail: nat, s: seq<nat>)
    requires ListOk(m, head, tail, s)
    requires forall a :: a in s && a in m ==> a in n && n[a].next == m[a].next && n[a].prev == m[a].prev
    ensures ListOk(n, head, tail, s)
  {
    forall i | 0 <= i < |s| ensures LinkOk(n, s, i) {
      assert LinkOk(m, s, i);
    }
  }

  /** The list is empty exactly if its head is null. */
  lemma HeadNull(m: Memory, head: nat, tail: nat, s: seq<nat>)
    requires ListOk(m, head, tail, s)
    ensures Distinct(s) && (head == 0 <==> s == [])
    ensures s != [] ==> head == s[0] && head in m
  {
    if s != [] { Neighbours(m, head, tail, s, 0); }
  }

  class SlabAllocator {
    const layout: Layout
    var pages: Memory
    var head: nat
    var tail: nat
    ghost var chains: Chains
    ghost var partial: seq<nat>

    ghost predicate Ordered(idle: nat)
      reads this
    {
      && layout.Valid() && layout.align > 0
      && PagesOk(layout, pages, chains, idle)
      && ListOk(pages, head, tail, partial)
      && Listed(chains, partial)
    }

    /** Free chains, partial list and counters are consistent, and no page is without live objects. */
    ghost predicate Valid()
      reads this
    {
      Ordered(0)
    }

    /** The live objects: what their payloads hold, by pointer. */
    ghost function Objects(): map<nat, seq<bv8>>
      requires layout.align > 0
      reads this
    {
      Contents(layout, pages, chains)
    }

    constructor (l: Layout)
      requires l.Valid() && l.align > 0
      ensures Valid() && layout == l && pages == map[] && Objects() == map[]
    {
      layout := l;
      pages, head, tail := map[], 0, 0;
      chains, partial := map[], [];
      new;
      assert forall p: nat :: !LiveAt(l, pages, chains, p);
    }

    // -------------------------------------------------------------- PageList

    /** PageList::remove */
    method Remove(a: nat, ghost i: nat)
      requires ListOk(pages, head, tail, partial) && i < |partial| && partial[i] == a
      modifies this`pages, this`head, this`tail, this`partial
      ensures ListOk(pages, head, tail, partial) && partial == Without(old(partial), i)
      ensures SameBodies(old(pages), pages)
    {
      hide Unlinked, ListOk, SameBodies;
      Neighbours(pages, head, tail, partial, i);
      UnlinkedOk(pages, head, tail, partial, i);
      ghost var result := Unlinked(pages, a);
      var link := pages[a];
      UnlinkSteps(pages, a);
      if link.prev == 0 {
        head := link.next;
      } else {
        pages := pages[link.prev := pages[link.prev].(next := link.next)];
      }
      if link.next == 0 {
        tail := link.prev;
      } else {
        pages := pages[link.next := pages[link.next].(prev := link.prev)];
      }
      pages := pages[a := pages[a].(next := 0, prev := 0)];
      partial := Without(partial, i);
      assert pages == result;
    }

    /** PageList::push_back */
    method PushBack(a: nat)
      requires ListOk(pages, head, tail, partial) && a in pages && a !in partial && a != 0
      modifies this`pages, this`head, this`tail, this`partial
      ensures ListOk(pages, head, tail, partial) && partial == old(partial) + [a]
      ensures SameBodies(old(pages), pages)
    {
      hide ListOk, SameBodies;
      AppendedOk(pages, head, tail, partial, a);
      ghost var result := Appended(pages, tail, a);
      pages := pages[a := pages[a].(next := 0, prev := tail)];
      if tail != 0 {
        pages := pages[tail := pages[tail].(next := a)];
      } else if head == 0 {
        head := a;
      }
      tail := a;
      partial := partial + [a];
      assert pages == result;
    }

    // -------------------------------------------------------------- alloc

    /** alloc_page, once the page source has answered with a page. */
    method AllocPage(addr: nat)
      requires Valid() && partial == []
      requires addr != 0 && addr % PAGE_SIZE == 0 && addr !in pages
      modifies this
      ensures Ordered(addr) && partial == [addr] && chains[addr] != []
      ensures Objects() == old(Objects())
      ensures pages.Keys == old(pages.Keys) + {addr}
    {
      hide PageOk, Contents, Layout.Offsets, Layout.ObjectOffset, PagesOk, ListOk, Chain, AlignCeil, Layout.Valid, Listed;
      ListedEmpty(chains, partial);
      assert forall b :: b in chains ==> chains[b] == [];
      var slots := InitSlots(layout);
      ghost var c := layout.Offsets(layout.ObjectOffset());
      var page := SlotPage(0, 0, layout.ObjectOffset(), 0, slots);
      FreshPage(layout, page);
      ghost var m, ch := pages, chains;
      pages := pages[addr := page];
      pages := pages[addr := pages[addr].(next := 0, prev := 0)];
      head, tail := addr, addr;
      chains := chains[addr := c];
      partial := [addr];
      PageAdded(layout, m, ch, addr, page, c);
      assert page.(next := 0, prev := 0) == page;
      assert pages == m[addr := page];
    }

    /** pop_front_object on the first page of the list, which leaves the list if that was its last
        free slot. */
    method PopFirst(ghost idle: nat) returns (a: nat, o: nat)
      requires Ordered(idle) && partial != []
      modifies this`pages, this`head, this`tail, this`partial
      ensures a == old(partial)[0] && a in chains && chains[a] != [] && o == chains[a][0]
      ensures a in old(pages) && old(pages)[a].freeIndex == o && o in old(pages)[a].slots
      ensures pages.Keys == old(pages).Keys && SameBody(Popped(old(pages)[a]), pages[a])
      ensures forall b :: b in pages && b != a ==> SameBody(old(pages)[b], pages[b])
      ensures o in pages[a].slots && FreeSlot(layout, pages[a].slots[o]) && pages[a].slots[o].next == 0
      ensures ListOk(pages, head, tail, partial) && Distinct(old(partial))
      ensures partial == if |chains[a]| == 1 then Without(old(partial), 0) else old(partial)
    {
      hide PageOk, Layout.Offsets, Popped, ListOk, SameBodies, PagesOk, FreeSlot, AlignCeil, Layout.Valid, Listed;
      HeadNull(pages, head, tail, partial);
      ListedFirst(chains, partial);
      a := head;
      ghost var m := pages;
      InPages(layout, m, chains, idle, a);
      TakeSlot(layout, m[a], chains[a]);
      TakeBody(layout, m[a], chains[a][0]);
      assert pages[a].freeIndex != 0;
      o := pages[a].freeIndex;
      var full := pages[a].slots[o].next == 0;
      pages := pages[a := Popped(pages[a])];
      ghost var m1 := pages;
      LinksKept(m, m1, head, tail, partial);
      if full {
        Remove(a, 0);
      }
      AfterRemove(m1, pages);
    }

    /** The part of alloc that takes a slot from the first page of the list. */
    method TakeFirst(ghost idle: nat) returns (ptr: nat)
      requires Ordered(idle) && partial != [] && (idle == 0 || idle == partial[0])
      modifies this
      ensures Valid() && pages.Keys == old(pages.Keys)
      ensures ptr !in old(Objects()) && ptr % layout.align == 0
      ensures Objects() == old(Objects())[ptr := Filled(layout.size, 0)]
    {
      hide PageOk, Contents, Layout.PayloadOffset, Popped, Started, ListOk, PagesOk, FreeSlot, AlignCeil, Layout.Valid, Listed;
      ghost var m, ch := pages, chains;
      var a, o := PopFirst(idle);
      ghost var m2, c := pages, ch[a];
      assert FreeSlot(layout, pages[a].slots[o]) && pages[a].slots[o].next == 0;
      pages := pages[a := Started(layout, pages[a], o)];
      chains := chains[a := c[1..]];
      PoppedSlot(m[a], m2[a], o);
      StartedBody(layout, Popped(m[a]), m2[a], o);
      LinksKept(m2, pages, head, tail, partial);
      SlotTaken(layout, m, ch, idle, pages, a, c);
      ListedTake(ch, old(partial), c, partial);
      ptr := a + o + layout.PayloadOffset();
    }

    /** alloc; `grant` is what the page source answers if it is asked. It fails exactly if the source
        refuses while every owned page is full. */
    method Alloc(grant: Option<nat>) returns (r: Option<nat>)
      requires Valid()
      requires grant.Some? ==> grant.value != 0 && grant.value % PAGE_SIZE == 0 && grant.value !in pages
      modifies this
      ensures Valid()
      ensures r == None <==> grant == None && forall a :: a in old(pages) ==> old(chains)[a] == []
      ensures r == None ==> Objects() == old(Objects()) && pages == old(pages)
      ensures r.Some? ==>
                && r.value !in old(Objects()) && r.value % layout.align == 0
                && Objects() == old(Objects())[r.value := Filled(layout.size, 0)]
      ensures r.Some? ==> pages.Keys == old(pages.Keys) + (if old(partial) == [] then {grant.value} else {})
    {
      hide PageOk, Contents, ListOk;
      HeadNull(pages, head, tail, partial);
      ListedEmpty(chains, partial);
      if head == 0 {
        if grant == None {
          return None;
        }
        AllocPage(grant.value);
        var ptr := TakeFirst(grant.value);
        return Some(ptr);
      }
      var ptr := TakeFirst(0);
      return Some(ptr);
    }

    // -------------------------------------------------------------- dealloc

    /** The end of dealloc: page a leaves the list if it is to be released, and joins it if it was full. */
    method Relist(a: nat, wasFull: bool) returns (released: Option<nat>)
      requires ListOk(pages, head, tail, partial) && Listed(chains, partial)
      requires a in pages && a != 0 && a in chains && (wasFull <==> chains[a] == [])
      modifies this`pages, this`head, this`tail, this`partial
      ensures ListOk(pages, head, tail, partial) && SameBodies(old(pages), pages)
      ensures released == if old(pages)[a].allocCount == 0 then Some(a) else None
      ensures Distinct(old(partial))
      ensures released.Some? ==>
                if wasFull then partial == old(partial)
                else exists i :: 0 <= i < |old(partial)| && old(partial)[i] == a && partial == Without(old(partial), i)
      ensures released == None ==> partial == if wasFull then old(partial) + [a] else old(partial)
    {
      hide ListOk, Listed, SameBodies;
      HeadNull(pages, head, tail, partial);
      Unchanged(pages);
      released := None;
      if pages[a].allocCount == 0 {
        if !wasFull {
          ghost var i := ListedIndex(chains, partial, a);
          Remove(a, i);
        }
        released := Some(a);
      } else if wasFull {
        NotListed(chains, partial, a);
        PushBack(a);
      }
    }

    /** dealloc of a live pointer: no check fails, the object goes and nothing else, and the page goes
        back to the source exactly if that was its last object. */
    method Dealloc(ptr: nat) returns (released: Option<nat>)
      requires Valid() && ptr in Objects()
      modifies this
      ensures Valid() && Objects() == old(Objects()) - {ptr}
      ensures layout.PayloadOffset() <= ptr
      ensures released == None || released == Some(PageOfPtr(layout, ptr))
      ensures released.Some? <==> forall p: nat :: LiveAt(layout, pages, chains, p) ==>
                                    PageOfPtr(layout, p) != PageOfPtr(layout, ptr)
      ensures pages.Keys == old(pages.Keys) - (if released.Some? then {released.value} else {})
    {
      hide PageOk, Contents, Layout.PayloadOffset, Pushed, Ended, ListOk, SameBodies, PagesOk;
      hide AlignCeil, Layout.Valid, Listed, PageOfPtr, SlotOfPtr, LiveAt;
      ghost var m, ch := pages, chains;
      var a, o, wasFull := GiveBack(ptr);
      ghost var m1, c := pages, ch[a];
      released := Relist(a, wasFull);
      chains := chains[a := [o] + c];
      AfterRemove(m1, pages);
      SlotGiven(layout, m, ch, pages, a, o, c);
      GivenList(ch, old(partial), a, [o] + c, partial, released.Some?);
      if released.Some? {
        Retire(a);
      } else {
        PageStays(layout, pages, chains, a);
      }
    }

    /** The checks of dealloc, on_dealloc and push_front_object. */
    method GiveBack(ptr: nat) returns (a: nat, o: nat, wasFull: bool)
      requires Valid() && ptr in Objects()
      modifies this`pages
      ensures layout.PayloadOffset() <= ptr && a == PageOfPtr(layout, ptr) && ptr == a + o + layout.PayloadOffset()
      ensures a != 0 && a in old(pages) && a in chains
      ensures o in old(pages)[a].slots && o !in chains[a] && old(pages)[a].allocCount > 0
      ensures wasFull <==> chains[a] == []
      ensures pages == old(pages)[a := Pushed(Ended(layout, old(pages)[a], o), o)]
      ensures pages[a].allocCount == old(pages)[a].allocCount - 1
      ensures ListOk(pages, head, tail, partial)
    {
      hide PageOk, Contents, Layout.Offsets, Layout.PayloadOffset, Pushed, Ended, ListOk, PagesOk;
      hide LiveSlot, RedzonesIntact, AlignCeil, Layout.Valid, Listed, PageOfPtr, SlotOfPtr;
      var objAddr := ptr - layout.PayloadOffset();
      a := PageOf(objAddr);
      o := objAddr - a;
      ghost var m := pages;
      Locate(layout, m, chains, ptr, a, o);
      InPages(layout, m, chains, 0, a);
      GiveSlot(layout, m[a], chains[a], o);
      assert LiveSlot(layout, pages[a].slots[o]);
      pages := pages[a := Ended(layout, pages[a], o)];
      GiveBody(layout, m[a], o);
      wasFull := pages[a].freeIndex == 0;
      pages := pages[a := Pushed(pages[a], o)];
      LinksKept(m, pages, head, tail, partial);
    }

    /** A client writes the payload of an object it holds: the allocator stays in order. */
    method ClientWrite(ptr: nat, bytes: seq<bv8>)
      requires Valid() && ptr in Objects() && |bytes| == layout.size
      modifies this`pages
      ensures Valid() && Objects() == old(Objects())[ptr := bytes]
    {
      hide PageOk, Contents, Layout.PayloadOffset, ListOk, PagesOk, AlignCeil, Layout.Valid, Listed, PageOfPtr, SlotOfPtr;
      var objAddr := ptr - layout.PayloadOffset();
      var a := PageOf(objAddr);
      var o := objAddr - a;
      ghost var m := pages;
      Locate(layout, m, chains, ptr, a, o);
      var page := pages[a];
      pages := pages[a := page.(slots := page.slots[o := page.slots[o].(payload := bytes)])];
      Written(layout, m, chains, a, o, bytes);
      LinksKept(m, pages, head, tail, partial);
    }

    /** The page goes back to its source. */
    method Retire(a: nat)
      requires layout.Valid() && layout.align > 0 && PagesOk(layout, pages, chains, a)
      requires a in pages && pages[a].allocCount == 0
      requires ListOk(pages, head, tail, partial) && Listed(chains - {a}, partial)
      modifies this`pages, this`chains
      ensures Valid() && Objects() == old(Objects()) && pages.Keys == old(pages.Keys) - {a}
      ensures forall p: nat :: LiveAt(layout, pages, chains, p) ==> PageOfPtr(layout, p) != a
    {
      hide PageOk, Contents, Layout.PayloadOffset, ListOk, AlignCeil, Layout.Valid, PageOfPtr, SlotOfPtr;
      PageReleased(layout, pages, chains, a);
      NotIn(partial, a, chains);
      LinksKept(pages, pages - {a}, head, tail, partial);
      pages := pages - {a};
      chains := chains - {a};
    }
  }

  // ---------------------------------------------------------------- facts the methods use

  lemma InPages(l: Layout, m: Memory, ch: Chains, idle: nat, a: nat)
    requires l.align > 0 && PagesOk(l, m, ch, idle) && a in m
    ensures m.Keys == ch.Keys && a in ch && PageIn(l, a, m[a], ch[a], idle)
  {
  }

  /** A page fresh from `init` is in order, with all its slots on the chain. */
  lemma FreshPage(l: Layout, p: SlotPage)
    requires l.Valid() && l.align > 0
    requires p.freeIndex == l.ObjectOffset() && p.allocCount == 0
    requires var c := l.Offsets(l.ObjectOffset());
             (forall o :: o in p.slots <==> o in c) && |p.slots| == |c| && Chain(l, p.slots, c)
    ensures PageOk(l, p, l.Offsets(l.ObjectOffset()))
    ensures forall o :: o in p.slots ==> o in l.Offsets(l.ObjectOffset())
  {
    hide Layout.Offsets, Layout.ObjectOffset, Chain, LiveSlot;
    OffsetsDistinct(l);
  }

  /** A page without live objects holds no object. */
  lemma IdlePage(l: Layout, m: Memory, ch: Chains, a: nat)
    requires l.align > 0 && a in m && a in ch
    requires forall o :: o in m[a].slots ==> o in ch[a]
    ensures Contents(l, m - {a}, ch - {a}) == Contents(l, m, ch)
  {
    hide Contents, PageOfPtr, SlotOfPtr, Layout.PayloadOffset;
    forall p: nat
      ensures LiveAt(l, m - {a}, ch - {a}, p) <==> LiveAt(l, m, ch, p)
      ensures LiveAt(l, m, ch, p) ==> PayloadAt(l, m - {a}, ch - {a}, p) == PayloadAt(l, m, ch, p)
    {
    }
  }

  lemma PageAdded(l: Layout, m: Memory, ch: Chains, a: nat, p: SlotPage, c: seq<nat>)
    requires l.align > 0 && PagesOk(l, m, ch, 0) && a !in m && a != 0 && a % PAGE_SIZE == 0
    requires PageOk(l, p, c) && forall o :: o in p.slots ==> o in c
    requires forall b :: b in ch ==> ch[b] == []
    requires c != []
    ensures PagesOk(l, m[a := p], ch[a := c], a)
    ensures Contents(l, m[a := p], ch[a := c]) == Contents(l, m, ch)
    ensures ListOk(m[a := p.(next := 0, prev := 0)], a, a, [a])
    ensures Listed(ch[a := c], [a])
  {
    hide PageOk, Contents;
    var n, dh := m[a := p], ch[a := c];
    assert n - {a} == m && dh - {a} == ch;
    IdlePage(l, n, dh, a);
    forall b | b in n ensures PageIn(l, b, n[b], dh[b], a) {
      if b != a { assert PageIn(l, b, m[b], ch[b], 0); }
    }
    assert LinkOk(m[a := p.(next := 0, prev := 0)], [a], 0);
  }

  lemma TakeBody(l: Layout, p: SlotPage, o: nat)
    requires o in p.slots && p.freeIndex == o
    ensures var q := Popped(p);
            && q.next == p.next && q.prev == p.prev
            && q.slots.Keys == p.slots.Keys
            && Started(l, q, o).allocCount == p.allocCount + 1
            && Started(l, q, o).slots == p.slots[o := Started(l, q, o).slots[o]]
            && Started(l, q, o).slots[o].payload == Filled(l.size, 0)
  {
    hide Filled;
  }

  lemma PoppedSlot(p: SlotPage, q: SlotPage, o: nat)
    requires p.freeIndex in p.slots && SameBody(Popped(p), q) && o in q.slots
    ensures o in Popped(p).slots
  {
  }

  lemma StartedBody(l: Layout, p: SlotPage, q: SlotPage, o: nat)
    requires SameBody(p, q) && o in p.slots
    ensures SameBody(Started(l, p, o), Started(l, q, o))
    ensures Started(l, q, o).next == q.next && Started(l, q, o).prev == q.prev
  {
  }

  lemma AfterRemove(m: Memory, n: Memory)
    requires SameBodies(m, n) || n == m
    ensures m.Keys == n.Keys && forall a :: a in m ==> SameBody(m[a], n[a])
  {
  }

  lemma Unchanged(m: Memory)
    ensures SameBodies(m, m)
  {
  }

  lemma ListedEmpty(ch: Chains, partial: seq<nat>)
    requires Listed(ch, partial)
    ensures partial == [] <==> forall a :: a in ch ==> ch[a] == []
  {
    if partial != [] { assert partial[0] in partial; }
    if a :| a in ch && ch[a] != [] { assert a in partial; }
  }

  lemma ListedFirst(ch: Chains, partial: seq<nat>)
    requires Listed(ch, partial) && partial != []
    ensures partial[0] in ch && ch[partial[0]] != []
  {
    assert partial[0] in partial;
  }

  /** The list after a slot was taken from its first page. */
  lemma ListedTake(ch: Chains, s: seq<nat>, c: seq<nat>, t: seq<nat>)
    requires Listed(ch, s) && s != [] && Distinct(s) && c != []
    requires s[0] in ch && ch[s[0]] == c
    requires t == if |c| == 1 then Without(s, 0) else s
    ensures Listed(ch[s[0] := c[1..]], t)
  {
    assert s[0] in s;
    forall a ensures a in Without(s, 0) <==> a in s && a != s[0] {
    }
  }

  lemma AgreeTake(m: Memory, ch: Chains, n: Memory, a: nat, c: seq<nat>)
    requires a in m && a in n && a in ch && ch[a] == c && c != [] && Distinct(c)
    requires a % PAGE_SIZE == 0 && c[0] < PAGE_SIZE && c[0] in m[a].slots
    requires m.Keys == n.Keys == ch.Keys && (forall b :: b in m && b != a ==> n[b].slots == m[b].slots)
    requires c[0] in n[a].slots && n[a].slots == m[a].slots[c[0] := n[a].slots[c[0]]]
    ensures AgreeBut(m, ch, n, ch[a := c[1..]], a, c[0])
    ensures c[0] !in c[1..] && c[0] in c
  {
  }

  /** What taking the first free slot of page a comes to, links aside. */
  lemma SlotTaken(l: Layout, m: Memory, ch: Chains, idle: nat, n: Memory, a: nat, c: seq<nat>)
    requires l.Valid() && l.align > 0 && PagesOk(l, m, ch, idle) && a in m && ch[a] == c != []
    requires idle == 0 || idle == a
    requires m.Keys == n.Keys && (forall b :: b in m && b != a ==> SameBody(m[b], n[b]))
    requires m[a].freeIndex == c[0] && c[0] in m[a].slots
    requires SameBody(Started(l, Popped(m[a]), c[0]), n[a])
    ensures PagesOk(l, n, ch[a := c[1..]], 0)
    ensures var ptr := a + c[0] + l.PayloadOffset();
            && ptr !in Contents(l, m, ch) && ptr % l.align == 0
            && Contents(l, n, ch[a := c[1..]]) == Contents(l, m, ch)[ptr := Filled(l.size, 0)]
  {
    hide Contents, Layout.Offsets, Layout.PayloadOffset, Popped, Started, PagesOk, PageOk, LiveSlot, FreeSlot, Filled, AlignCeil, Layout.Valid, AgreeBut;
    InPages(l, m, ch, idle, a);
    TakeSlot(l, m[a], c);
    TakeBody(l, m[a], c[0]);
    BodyOk(l, Started(l, Popped(m[a]), c[0]), n[a], c[1..]);
    PagesAfter(l, m, ch, n, a, c[1..], idle, 0);
    AgreeTake(m, ch, n, a, c);
    ContentsChange(l, m, ch, n, ch[a := c[1..]], a, c[0]);
    SlotAligned(l, a, m[a], c);
  }

  lemma SlotAligned(l: Layout, a: nat, p: SlotPage, c: seq<nat>)
    requires l.Valid() && l.align > 0 && PageOk(l, p, c) && c != [] && a % PAGE_SIZE == 0
    ensures (a + c[0] + l.PayloadOffset()) % l.align == 0
  {
    hide Layout.Offsets, Layout.ObjectOffset, Layout.PayloadOffset, Layout.SlotSize;
    ChainInside(l, p.slots, c);
    var s := l.Offsets(l.ObjectOffset());
    assert c[0] in s;
    var i :| 0 <= i < |s| && s[i] == c[0];
    l.PayloadAligned(a, i);
  }

  lemma UnlinkSteps(m: Memory, a: nat)
    requires a in m && (m[a].prev != 0 ==> m[a].prev in m) && (m[a].next != 0 ==> m[a].next in m)
    ensures var link := m[a];
            var m1 := if link.prev == 0 then m else m[link.prev := m[link.prev].(next := link.next)];
            var m2 := if link.next == 0 then m1 else m1[link.next := m1[link.next].(prev := link.prev)];
            a in m2 && Unlinked(m, a) == m2[a := m2[a].(next := 0, prev := 0)]
  {
  }

  lemma Locate(l: Layout, m: Memory, ch: Chains, ptr: nat, a: nat, o: nat)
    requires l.align > 0 && LiveAt(l, m, ch, ptr)
    requires a == PageOf(ptr - l.PayloadOffset()) && o == ptr - l.PayloadOffset() - a
    ensures a == PageOfPtr(l, ptr) && o == SlotOfPtr(l, ptr) && ptr == a + o + l.PayloadOffset()
    ensures a in m && a in ch && o in m[a].slots && o !in ch[a]
  {
    hide Layout.PayloadOffset;
  }

  lemma GiveBody(l: Layout, p: SlotPage, o: nat)
    requires o in p.slots && p.allocCount > 0
    ensures var q := Ended(l, p, o);
            && q.freeIndex == p.freeIndex && q.allocCount == p.allocCount && q.slots.Keys == p.slots.Keys
            && var r := Pushed(q, o);
              && r.next == p.next && r.prev == p.prev
              && r.allocCount == p.allocCount - 1
              && o in r.slots && r.slots == p.slots[o := r.slots[o]]
  {
    hide Filled;
  }

  lemma ListedIndex(ch: Chains, s: seq<nat>, a: nat) returns (i: nat)
    requires Listed(ch, s) && a in ch && ch[a] != []
    ensures i < |s| && s[i] == a
  {
    assert a in s;
    i :| 0 <= i < |s| && s[i] == a;
  }

  lemma NotListed(ch: Chains, s: seq<nat>, a: nat)
    requires Listed(ch, s) && a in ch && ch[a] == []
    ensures a !in s
  {
  }

  lemma NotIn(s: seq<nat>, a: nat, ch: Chains)
    requires Listed(ch - {a}, s)
    ensures a !in s
  {
  }

  /** What giving slot o of page a back comes to, links aside. */
  lemma SlotGiven(l: Layout, m: Memory, ch: Chains, n: Memory, a: nat, o: nat, c: seq<nat>)
    requires l.Valid() && l.align > 0 && PagesOk(l, m, ch, 0) && a in m && ch[a] == c
    requires o in m[a].slots && o !in c && m[a].allocCount > 0
    requires m.Keys == n.Keys && (forall b :: b in m && b != a ==> SameBody(m[b], n[b]))
    requires SameBody(Pushed(Ended(l, m[a], o), o), n[a])
    ensures PagesOk(l, n, ch[a := [o] + c], a)
    ensures Contents(l, n, ch[a := [o] + c]) == Contents(l, m, ch) - {a + o + l.PayloadOffset()}
  {
    hide Contents, Layout.Offsets, Layout.PayloadOffset, Pushed, Ended, PagesOk, PageOk, LiveSlot, AlignCeil, Layout.Valid;
    InPages(l, m, ch, 0, a);
    GiveSlot(l, m[a], c, o);
    GiveBody(l, m[a], o);
    BodyOk(l, Pushed(Ended(l, m[a], o), o), n[a], [o] + c);
    AllowIdle(l, m, ch, a);
    PagesAfter(l, m, ch, n, a, [o] + c, a, a);
    ContentsChange(l, m, ch, n, ch[a := [o] + c], a, o);
  }

  lemma AllowIdle(l: Layout, m: Memory, ch: Chains, a: nat)
    requires l.align > 0 && PagesOk(l, m, ch, 0)
    ensures PagesOk(l, m, ch, a)
  {
    hide PageOk;
    forall b | b in m ensures PageIn(l, b, m[b], ch[b], a) {
      assert PageIn(l, b, m[b], ch[b], 0);
    }
  }

  /** The list after a slot of page a was given back. */
  lemma GivenList(ch: Chains, s: seq<nat>, a: nat, d: seq<nat>, t: seq<nat>, released: bool)
    requires Listed(ch, s) && Distinct(s) && a in ch && d != []
    requires released ==>
               if ch[a] == [] then t == s else exists i :: 0 <= i < |s| && s[i] == a && t == Without(s, i)
    requires !released ==> t == if ch[a] == [] then s + [a] else s
    ensures if released then Listed(ch[a := d] - {a}, t) else Listed(ch[a := d], t)
  {
    if released && ch[a] != [] {
      var i :| 0 <= i < |s| && s[i] == a && t == Without(s, i);
      forall b ensures b in t <==> b in s && b != a {
      }
    }
  }

  /** A page whose count is zero has all its slots on the chain and can go. */
  lemma PageReleased(l: Layout, m: Memory, ch: Chains, a: nat)
    requires l.align > 0 && PagesOk(l, m, ch, a) && a in m && m[a].allocCount == 0
    ensures PagesOk(l, m - {a}, ch - {a}, 0)
    ensures Contents(l, m - {a}, ch - {a}) == Contents(l, m, ch)
    ensures forall p: nat :: LiveAt(l, m - {a}, ch - {a}, p) ==> PageOfPtr(l, p) != a
  {
    hide Contents, PageOk, PageOfPtr, SlotOfPtr, Layout.PayloadOffset;
    InPages(l, m, ch, a, a);
    AllFree(l, m[a], ch[a]);
    IdlePage(l, m, ch, a);
    var n, dh := m - {a}, ch - {a};
    forall b | b in n ensures PageIn(l, b, n[b], dh[b], 0) {
      assert PageIn(l, b, m[b], ch[b], a);
    }
  }

  lemma AllFree(l: Layout, p: SlotPage, c: seq<nat>)
    requires l.align > 0 && PageOk(l, p, c) && p.allocCount == 0
    ensures forall o :: o in p.slots ==> o in c
  {
    hide Chain, LiveSlot, Layout.Offsets, Layout.ObjectOffset;
    ChainInside(l, p.slots, c);
    forall o | o in p.slots ensures o in c {
      if o !in c {
        MoreSlots(p.slots, c, o);
      }
    }
  }

  /** A page whose count is not zero has a live object. */
  lemma PageStays(l: Layout, m: Memory, ch: Chains, a: nat)
    requires l.align > 0 && l.Valid() && PagesOk(l, m, ch, a) && a in m && m[a].allocCount > 0
    ensures PagesOk(l, m, ch, 0)
    ensures exists p: nat :: LiveAt(l, m, ch, p) && PageOfPtr(l, p) == a
  {
    hide PageOfPtr, SlotOfPtr, Layout.PayloadOffset, Layout.Offsets, Layout.ObjectOffset, Chain, LiveSlot;
    InPages(l, m, ch, a, a);
    ChainInside(l, m[a].slots, ch[a]);
    OffsetsDistinct(l);
    if forall o :: o in m[a].slots ==> o in ch[a] {
      CountKeys(m[a].slots, ch[a]);
      assert false;
    }
    var o :| o in m[a].slots && o !in ch[a];
    assert o in l.Offsets(l.ObjectOffset());
    PtrParts(l, a, o);
    assert LiveAt(l, m, ch, a + o + l.PayloadOffset());
    forall b | b in m ensures PageIn(l, b, m[b], ch[b], 0) {
      assert PageIn(l, b, m[b], ch[b], a);
    }
  }

  lemma Written(l: Layout, m: Memory, ch: Chains, a: nat, o: nat, bytes: seq<bv8>)
    requires l.Valid() && l.align > 0 && PagesOk(l, m, ch, 0) && |bytes| == l.size
    requires a in m && a in ch && o in m[a].slots && o !in ch[a]
    ensures var n := m[a := m[a].(slots := m[a].slots[o := m[a].slots[o].(payload := bytes)])];
            PagesOk(l, n, ch, 0) && Contents(l, n, ch) == Contents(l, m, ch)[a + o + l.PayloadOffset() := bytes]
  {
    hide Contents, Layout.PayloadOffset, Layout.Valid, PagesOk, AlignCeil, Chain;
    var p := m[a].(slots := m[a].slots[o := m[a].slots[o].(payload := bytes)]);
    var n := m[a := p];
    InPages(l, m, ch, 0, a);
    WrittenPage(l, m[a], ch[a], o, bytes);
    PagesAfter(l, m, ch, n, a, ch[a], 0, 0);
    assert ch[a := ch[a]] == ch;
    ContentsChange(l, m, ch, n, ch, a, o);
  }

  lemma WrittenPage(l: Layout, p: SlotPage, c: seq<nat>, o: nat, bytes: seq<bv8>)
    requires l.Valid() && l.align > 0 && PageOk(l, p, c) && |bytes| == l.size
    requires o in p.slots && o !in c
    ensures PageOk(l, p.(slots := p.slots[o := p.slots[o].(payload := bytes)]), c) && o < PAGE_SIZE
  {
    hide Layout.Offsets, Layout.ObjectOffset, AlignCeil, Chain, RedzonesIntact, Layout.Valid;
    OffsetsDistinct(l);
    var s := p.slots[o].(payload := bytes);
    ChainWrite(l, p.slots, c, o, s);
    assert LiveSlot(l, p.slots[o]);
    assert LiveSlot(l, s) by { SameRedzones(l, p.slots[o], bytes); }
  }

  lemma SameRedzones(l: Layout, s: Slot, bytes: seq<bv8>)
    requires l.align > 0
    ensures RedzonesIntact(l, s.(payload := bytes)) <==> RedzonesIntact(l, s)
  {
  }

  /** A live pointer leads to a slot of a page. */
  lemma SlotIndex(l: Layout, m: Memory, ch: Chains, idle: nat, p: nat) returns (i: nat)
    requires l.Valid() && l.align > 0 && PagesOk(l, m, ch, idle) && LiveAt(l, m, ch, p)
    ensures i < |l.Offsets(l.ObjectOffset())| && l.Offsets(l.ObjectOffset())[i] == SlotOfPtr(l, p)
    ensures PageOfPtr(l, p) % PAGE_SIZE == 0 && SlotOfPtr(l, p) < PAGE_SIZE
    ensures SlotOfPtr(l, p) + l.SlotSize() <= PAGE_SIZE
    ensures p == PageOfPtr(l, p) + SlotOfPtr(l, p) + l.PayloadOffset()
  {
    hide Layout.PayloadOffset, Layout.SlotSize, Layout.Offsets, Layout.ObjectOffset, Layout.Valid, PageOfPtr, SlotOfPtr, Chain, LiveSlot;
    PtrWhole(l, p);
    var a, o := PageOfPtr(l, p), SlotOfPtr(l, p);
    assert PageIn(l, a, m[a], ch[a], idle);
    var s := l.Offsets(l.ObjectOffset());
    assert o in s;
    i :| 0 <= i < |s| && s[i] == o;
    l.FitsPage();
    l.OffsetAt(l.ObjectOffset(), i);
  }

  /** Where a live object is: behind the header and redzone of a slot of an owned page, with a redzone
      behind it in the same slot. */
  lemma ObjectPlace(l: Layout, m: Memory, ch: Chains, idle: nat, p: nat) returns (a: nat, i: nat)
    requires l.Valid() && l.align > 0 && PagesOk(l, m, ch, idle) && LiveAt(l, m, ch, p)
    ensures a in m && a % 4096 == 0 && i < |l.Offsets(l.ObjectOffset())|
    ensures p == a + l.ObjectOffset() + i * l.SlotSize() + l.PayloadOffset()
    ensures a + l.ObjectOffset() + i * l.SlotSize() + 4 + 16 <= p
    ensures p + l.size + 16 <= a + l.ObjectOffset() + i * l.SlotSize() + l.SlotSize() <= a + 4096
  {
    hide Layout.PayloadOffset, Layout.SlotSize, Layout.Offsets, Layout.ObjectOffset, Layout.Valid, PageOfPtr, SlotOfPtr, PagesOk;
    i := SlotIndex(l, m, ch, idle, p);
    a := PageOfPtr(l, p);
    l.FitsPage();
    l.OffsetAt(l.ObjectOffset(), i);
    l.Tiling();
  }

  /** Two live objects do not overlap, and there are two redzones and a slot header between them. */
  lemma ObjectsDisjoint(l: Layout, m: Memory, ch: Chains, idle: nat, p: nat, q: nat)
    requires l.Valid() && l.align > 0 && PagesOk(l, m, ch, idle)
    requires LiveAt(l, m, ch, p) && LiveAt(l, m, ch, q) && p < q
    ensures p + l.size + 16 + 4 + 16 <= q
  {
    hide Layout.PayloadOffset, Layout.SlotSize, Layout.Offsets, Layout.ObjectOffset, Layout.Valid, PageOfPtr, SlotOfPtr, PagesOk, PageOf;
    var i := SlotIndex(l, m, ch, idle, p);
    var j := SlotIndex(l, m, ch, idle, q);
    l.FitsPage();
    l.Tiling();
    if PageOfPtr(l, p) != PageOfPtr(l, q) {
      PagesApart(PageOfPtr(l, p), SlotOfPtr(l, p), PageOfPtr(l, q), SlotOfPtr(l, q));
    } else if i < j {
      l.SlotsDisjoint(i, j);
    } else if j < i {
      l.SlotsDisjoint(j, i);
    }
  }

  lemma PagesApart(a: nat, o: nat, b: nat, u: nat)
    requires a % PAGE_SIZE == 0 && b % PAGE_SIZE == 0 && a != b && o < PAGE_SIZE && u < PAGE_SIZE
    requires a + o < b + u
    ensures a + PAGE_SIZE <= b
  {
  }
}
