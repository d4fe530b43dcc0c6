/** Building the 4-level page tables of dynamic memory inside that memory (kernel/src/memory.rs).

Every table but the root lives on a page that the tables themselves map, and is written through its
virtual address. The model does the same: a write goes to the frame that a hardware table walk
finds at the time of the write.
 */
module PageTables {
  import opened Options
  import opened Arithmetic
  import opened DynMap

  const ENTRIES: nat := 512
  const DYNMEM_START_VIRT: nat := 0x00200000
  const FIRST_VPN: nat := DYNMEM_START_VIRT / PAGE_SIZE
  const ROOT: nat := 0x005f0000        // frame of the PML4 table, below dynamic memory

  /** A page table as a frame's contents: the frame each present entry points to. */
  type Table = seq<Option<nat>>

  type Memory = map<nat, Table>

  /** A pointer to a table: the root, or a page of dynamic memory by number. */
  datatype Pointer = Root | Page(n: nat)

  function Lookup(mem: Memory, frame: nat, i: nat): Option<nat> {
    if frame in mem && i < |mem[frame]| then mem[frame][i] else None
  }

  /** The hardware walk of section 4.5 of the Intel 64 and IA-32 SDM, Volume 3A, for a virtual page
      number: four lookups with 9 bits each. */
  function Walk(mem: Memory, vpn: nat): Option<nat> {
    match Lookup(mem, ROOT, vpn / ENTRIES / ENTRIES / ENTRIES % ENTRIES)
    case None => None
    case Some(pdpt) =>
      match Lookup(mem, pdpt, vpn / ENTRIES / ENTRIES % ENTRIES)
      case None => None
      case Some(pd) =>
        match Lookup(mem, pd, vpn / ENTRIES % ENTRIES)
        case None => None
        case Some(pt) => Lookup(mem, pt, vpn % ENTRIES)
  }

  /** What the hardware makes of a byte address. */
  function Translate(mem: Memory, virt: nat): Option<nat> {
    match Walk(mem, virt / PAGE_SIZE) case None => None case Some(frame) => Some(frame + virt % PAGE_SIZE)
  }

  /** The frame a pointer leads to at the moment. */
  function Resolve(mem: Memory, p: Pointer): Option<nat> {
    match p
    case Root => Some(ROOT)
    case Page(n) => Walk(mem, FIRST_VPN + n)
  }

  // ---------------------------------------------------------------- frames

  function Pages(m: seq<Entry>): nat { TotalLen(m) / PAGE_SIZE }

  /** The frame of page n of dynamic memory. */
  function Frame(m: seq<Entry>, n: nat): nat {
    match PhysAt(m, n * PAGE_SIZE) case None => 0 case Some(p) => p
  }

  lemma FrameFacts(m: seq<Entry>, n: nat)
    requires WellFormed(m) && n < Pages(m)
    ensures PhysAt(m, n * PAGE_SIZE) == Some(Frame(m, n))
    ensures Frame(m, n) != ROOT
    ensures OffsetOf(m, Frame(m, n)) == Some(n * PAGE_SIZE)
  {
    hide WellFormed;
    PageBelow(m, n);
    WholePage(m, n, 0);
    PhysAtInverse(m, n * PAGE_SIZE);
  }

  lemma PageBelow(m: seq<Entry>, n: nat)
    requires WellFormed(m) && n < Pages(m)
    ensures n * PAGE_SIZE < TotalLen(m)
  {
  }

  lemma FrameInjective(m: seq<Entry>, a: nat, b: nat)
    requires WellFormed(m) && a < Pages(m) && b < Pages(m) && a != b
    ensures Frame(m, a) != Frame(m, b)
  {
    hide WellFormed, Pages, Frame;
    FrameFacts(m, a);
    FrameFacts(m, b);
  }

  // ---------------------------------------------------------------- the tables so far

  /** What the walker has built: the memory; the page of each table, by level and number; per level,
      the number of the current table and the next index in it; and the next page to use.

      Entries are numbered through all tables of a level: entry g of level l is entry g % 512 of table
      g / 512, and leads to table g of level l + 1, or to page g - 512 of dynamic memory. */
  datatype View = View(mem: Memory, tab: map<(nat, nat), nat>, cur: seq<nat>, idx: seq<nat>, next: nat)

  predicate Shape(w: View) {
    |w.cur| == 4 && |w.idx| == 4 && w.cur[0] == 0
  }

  /** Number of the next entry of a level. */
  function Count(w: View, l: nat): nat
    requires Shape(w) && l < 4
  {
    ENTRIES * w.cur[l] + w.idx[l]
  }

  /** Number of the first entry of a level. */
  function First(l: nat): nat {
    if l == 3 then FIRST_VPN else if l == 2 then 1 else 0
  }

  function Mapped(w: View): int
    requires Shape(w)
  {
    Count(w, 3) - FIRST_VPN
  }

  function PointerOf(w: View, l: nat, k: nat): Pointer {
    if l == 0 then Root else if (l, k) in w.tab then Page(w.tab[(l, k)]) else Root
  }

  function FrameOf(m: seq<Entry>, w: View, l: nat, k: nat): nat {
    match PointerOf(w, l, k) case Root => ROOT case Page(n) => Frame(m, n)
  }

  function Target(m: seq<Entry>, w: View, l: nat, g: nat): nat {
    if l < 3 then FrameOf(m, w, l + 1, g) else if g >= FIRST_VPN then Frame(m, g - FIRST_VPN) else 0
  }

  predicate EntrySet(m: seq<Entry>, w: View, l: nat, g: nat) {
    Lookup(w.mem, FrameOf(m, w, l, g / ENTRIES), g % ENTRIES) == Some(Target(m, w, l, g))
  }

  ghost predicate Entries(m: seq<Entry>, w: View)
    requires Shape(w)
  {
    forall l, g :: 0 <= l < 4 && First(l) <= g < Count(w, l) ==> EntrySet(m, w, l, g)
  }

  /** Every table sits on its own page, below `next`. */
  ghost predicate Tables(w: View)
    requires Shape(w)
  {
    && (forall l: nat, k: nat :: (l, k) in w.tab <==> 1 <= l < 4 && First(l) / ENTRIES <= k <= w.cur[l])
    && (forall x :: x in w.tab ==> w.tab[x] < w.next)
    && (forall x, y :: x in w.tab && y in w.tab && x != y ==> w.tab[x] != w.tab[y])
    && w.next == w.cur[1] + w.cur[2] + w.cur[3] + 2
  }

  /** The levels fit together. Levels above p have a fresh table that no entry points to yet; in
      level p the current table may still be empty. */
  ghost predicate Linked(w: View, p: nat)
    requires Shape(w)
  {
    && (forall l :: 1 <= l < 4 ==> w.cur[l] + 1 == Count(w, l - 1) + (if l > p then 1 else 0))
    && (forall l :: 0 <= l < 4 ==> w.idx[l] <= ENTRIES)
    && (forall l :: 0 <= l < 4 && l < p ==> w.idx[l] > 0)
    && (forall l :: 0 <= l < 4 && l > p ==> w.idx[l] == 0)
    && w.idx[0] <= 256 && w.cur[3] >= 1
  }

  ghost predicate Frames(m: seq<Entry>, mem: Memory) {
    && ROOT in mem && |mem[ROOT]| == ENTRIES
    && forall n: nat :: n < Pages(m) ==> Frame(m, n) in mem && |mem[Frame(m, n)]| == ENTRIES
  }

  ghost predicate Good(m: seq<Entry>, w: View, p: nat) {
    && WellFormed(m) && Shape(w)
    && Frames(m, w.mem)
    && Tables(w) && Linked(w, p) && Entries(m, w)
    && w.next <= Mapped(w) <= Pages(m)
  }

  /** A level has at most 512 entries per entry of the level above it. */
  lemma CountBound(w: View, p: nat, l: nat)
    requires Shape(w) && Linked(w, p) && 1 <= l < 4
    ensures Count(w, l) <= ENTRIES * Count(w, l - 1)
  {
  }

  /** The table an entry is in, and the table it leads to, are there. */
  lemma TablesThere(w: View, p: nat, l: nat, g: nat)
    requires Shape(w) && Tables(w) && Linked(w, p)
    requires l < 4 && First(l) <= g < Count(w, l)
    ensures l > 0 ==> (l, g / ENTRIES) in w.tab
    ensures l < 3 ==> (l + 1, g) in w.tab
  {
    assert First(l) / ENTRIES <= g / ENTRIES <= w.cur[l];
    if l < 3 {
      assert w.cur[l + 1] + 1 == Count(w, l) + (if l + 1 > p then 1 else 0);
      assert First(l + 1) / ENTRIES <= g <= w.cur[l + 1];
    }
  }

  /** The walk finds the frame of every page mapped so far. */
  lemma WalkMapped(m: seq<Entry>, w: View, p: nat, n: nat)
    requires Good(m, w, p) && n < Mapped(w)
    ensures Walk(w.mem, FIRST_VPN + n) == Some(Frame(m, n))
  {
    hide Frame, Lookup, Frames, Tables, WellFormed;
    var g3 := FIRST_VPN + n;
    var g2 := g3 / ENTRIES;
    var g1 := g2 / ENTRIES;
    var g0 := g1 / ENTRIES;
    CountBound(w, p, 3);
    CountBound(w, p, 2);
    CountBound(w, p, 1);
    assert g2 < Count(w, 2) && g1 < Count(w, 1) && g0 < Count(w, 0);
    assert g0 / ENTRIES == 0 && g0 % ENTRIES == g0;
    assert EntrySet(m, w, 0, g0);
    assert EntrySet(m, w, 1, g1);
    assert EntrySet(m, w, 2, g2);
    assert EntrySet(m, w, 3, g3);
  }

  /** A pointer to a table of the walker resolves to the frame of that table. */
  lemma ResolveTable(m: seq<Entry>, w: View, p: nat, l: nat, k: nat)
    requires Good(m, w, p) && l < 4 && (l == 0 || (l, k) in w.tab)
    ensures Resolve(w.mem, PointerOf(w, l, k)) == Some(FrameOf(m, w, l, k))
    ensures FrameOf(m, w, l, k) in w.mem && |w.mem[FrameOf(m, w, l, k)]| == ENTRIES
  {
    hide Walk, Frame, Linked, Entries, WellFormed;
    if l > 0 {
      WalkMapped(m, w, p, w.tab[(l, k)]);
    }
  }

  /** Different tables have different frames. */
  lemma FramesDiffer(m: seq<Entry>, w: View, p: nat, l: nat, k: nat, l': nat, k': nat)
    requires Good(m, w, p)
    requires (l == 0 && k == 0) || (l, k) in w.tab
    requires (l' == 0 && k' == 0) || (l', k') in w.tab
    requires (l, k) != (l', k')
    ensures FrameOf(m, w, l, k) != FrameOf(m, w, l', k')
  {
    hide Frame, Linked, Entries, WellFormed, Frames;
    assert l > 0 ==> (l, k) in w.tab;
    assert l' > 0 ==> (l', k') in w.tab;
    if l > 0 { FrameFacts(m, w.tab[(l, k)]); }
    if l' > 0 { FrameFacts(m, w.tab[(l', k')]); }
    if l > 0 && l' > 0 {
      FrameInjective(m, w.tab[(l, k)], w.tab[(l', k')]);
    }
  }

  // ---------------------------------------------------------------- one step of the walker

  /** Writing an entry of a table. */
  function Write(mem: Memory, frame: nat, i: nat, addr: nat): Memory
    requires frame in mem && i < |mem[frame]|
  {
    mem[frame := mem[frame][i := Some(addr)]]
  }

  /** Setting the next entry of level l. */
  function WithEntry(m: seq<Entry>, w: View, l: nat, addr: nat): View
    requires Shape(w) && l < 4
    requires var f := FrameOf(m, w, l, w.cur[l]); f in w.mem && w.idx[l] < |w.mem[f]|
  {
    w.(mem := Write(w.mem, FrameOf(m, w, l, w.cur[l]), w.idx[l], addr), idx := w.idx[l := w.idx[l] + 1])
  }

  lemma CurrentTable(m: seq<Entry>, w: View, p: nat, l: nat)
    requires Good(m, w, p) && l < 4
    ensures l > 0 ==> (l, w.cur[l]) in w.tab
    ensures var f := FrameOf(m, w, l, w.cur[l]);
            f in w.mem && |w.mem[f]| == ENTRIES && Resolve(w.mem, PointerOf(w, l, w.cur[l])) == Some(f)
  {
    hide Frame, Entries, WellFormed, Walk, Resolve;
    assert l > 0 ==> (l, w.cur[l]) in w.tab;
    ResolveTable(m, w, p, l, w.cur[l]);
  }

  /** A write to the next entry of level l leaves the entries set before alone. */
  lemma EntryKept(m: seq<Entry>, w: View, l: nat, addr: nat, j: nat, g: nat)
    requires Good(m, w, l) && l < 4 && w.idx[l] < ENTRIES
    requires j < 4 && First(j) <= g < Count(w, j)
    ensures var f := FrameOf(m, w, l, w.cur[l]); f in w.mem && |w.mem[f]| == ENTRIES
    ensures EntrySet(m, WithEntry(m, w, l, addr), j, g)
  {
    hide Frame, Frames, Tables, Linked, WellFormed, Pages;
    CurrentTable(m, w, l, l);
    TablesThere(w, l, j, g);
    var f := FrameOf(m, w, l, w.cur[l]);
    assert EntrySet(m, w, j, g);
    if j == 0 {
      assert g < ENTRIES by { RootIndex(w, l); }
    }
    if (j, g / ENTRIES) != (l, w.cur[l]) {
      FramesDiffer(m, w, l, j, g / ENTRIES, l, w.cur[l]);
    } else {
      assert g % ENTRIES != w.idx[l];
    }
  }

  lemma RootIndex(w: View, p: nat)
    requires Shape(w) && Linked(w, p)
    ensures Count(w, 0) <= 256
  {
  }

  /** One entry more in a level. */
  function Advanced(w: View, l: nat): View
    requires Shape(w) && l < 4
  {
    w.(idx := w.idx[l := w.idx[l] + 1])
  }

  lemma AdvancedCount(w: View, l: nat)
    requires Shape(w) && l < 4
    ensures Shape(Advanced(w, l))
    ensures forall j :: 0 <= j < 4 ==> Count(Advanced(w, l), j) == Count(w, j) + (if j == l then 1 else 0)
  {
  }

  lemma AdvancedLinked(w: View, l: nat)
    requires Shape(w) && Linked(w, l) && l < 4 && w.idx[l] < ENTRIES && (l == 0 ==> w.idx[0] < 256)
    ensures Shape(Advanced(w, l)) && Linked(Advanced(w, l), l + 1)
  {
    hide Count;
    AdvancedCount(w, l);
    var v := Advanced(w, l);
    forall j | 1 <= j < 4 ensures v.cur[j] + 1 == Count(v, j - 1) + (if j > l + 1 then 1 else 0) {
      assert w.cur[j] + 1 == Count(w, j - 1) + (if j > l then 1 else 0);
    }
  }

  lemma WithEntryLinked(m: seq<Entry>, w: View, l: nat, addr: nat)
    requires Good(m, w, l) && l < 4 && w.idx[l] < ENTRIES && (l == 0 ==> w.idx[0] < 256)
    ensures var f := FrameOf(m, w, l, w.cur[l]); f in w.mem && |w.mem[f]| == ENTRIES
    ensures var v := WithEntry(m, w, l, addr);
            && Shape(v) && Linked(v, l + 1) && Tables(v)
            && (forall j :: 0 <= j < 4 ==> Count(v, j) == Count(w, j) + (if j == l then 1 else 0))
  {
    hide Frame, Frames, WellFormed, Entries, FrameOf, Write, Linked, Tables;
    CurrentTable(m, w, l, l);
    AdvancedCount(w, l);
    AdvancedLinked(w, l);
    var v := WithEntry(m, w, l, addr);
    assert v == Advanced(w, l).(mem := v.mem);
    OtherMemory(Advanced(w, l), v, l + 1);
    SameTabs(w, v);
  }

  /** The levels do not depend on what is in memory. */
  lemma OtherMemory(w: View, v: View, p: nat)
    requires Shape(w) && v == w.(mem := v.mem)
    ensures Shape(v) && (Linked(w, p) ==> Linked(v, p)) && (Tables(w) ==> Tables(v)) && Mapped(v) == Mapped(w)
    ensures forall j :: 0 <= j < 4 ==> Count(v, j) == Count(w, j)
  {
  }

  lemma SameTabs(w: View, v: View)
    requires Shape(w) && Shape(v) && v.tab == w.tab && v.cur == w.cur && v.next == w.next
    ensures Tables(w) ==> Tables(v)
  {
  }

  /** Setting the entry that is due keeps everything in order, and gives the fresh table of the level
      below, if there is one, its parent. */
  lemma WithEntryGood(m: seq<Entry>, w: View, l: nat, addr: nat)
    requires Good(m, w, l) && l < 4 && w.idx[l] < ENTRIES && (l == 0 ==> w.idx[0] < 256)
    requires addr == Target(m, w, l, Count(w, l))
    requires l == 3 ==> Mapped(w) < Pages(m)
    ensures var f := FrameOf(m, w, l, w.cur[l]); f in w.mem && |w.mem[f]| == ENTRIES
    ensures Good(m, WithEntry(m, w, l, addr), l + 1)
  {
    hide Frame, Linked, Tables, WellFormed;
    WithEntryLinked(m, w, l, addr);
    var v := WithEntry(m, w, l, addr);
    forall j, g | 0 <= j < 4 && First(j) <= g < Count(v, j) ensures EntrySet(m, v, j, g) {
      if g < Count(w, j) {
        EntryKept(m, w, l, addr, j, g);
      } else {
        NewEntry(m, w, l, addr);
      }
    }
  }

  lemma NewEntry(m: seq<Entry>, w: View, l: nat, addr: nat)
    requires Shape(w) && l < 4 && w.idx[l] < ENTRIES
    requires var f := FrameOf(m, w, l, w.cur[l]); f in w.mem && |w.mem[f]| == ENTRIES
    requires addr == Target(m, w, l, Count(w, l))
    ensures EntrySet(m, WithEntry(m, w, l, addr), l, Count(w, l))
  {
    hide Frame;
    assert Count(w, l) / ENTRIES == w.cur[l] && Count(w, l) % ENTRIES == w.idx[l];
  }

  function EmptyTable(): (t: Table)
    ensures |t| == ENTRIES
  {
    seq(ENTRIES, _ => None)
  }

  /** Starting a fresh table of level l on the next page. */
  function WithTable(m: seq<Entry>, w: View, l: nat): View
    requires Shape(w) && l < 4
  {
    w.(mem := w.mem[Frame(m, w.next) := EmptyTable()],
       tab := w.tab[(l, w.cur[l] + 1) := w.next],
       cur := w.cur[l := w.cur[l] + 1],
       idx := w.idx[l := 0],
       next := w.next + 1)
  }

  lemma WithTableLinked(m: seq<Entry>, w: View, l: nat)
    requires Shape(w) && Tables(w) && Linked(w, l) && 1 <= l < 4 && w.idx[l] == ENTRIES
    ensures var v := WithTable(m, w, l);
            && Shape(v) && Linked(v, l - 1) && Tables(v)
            && forall j :: 0 <= j < 4 ==> Count(v, j) == Count(w, j)
  {
    hide Frame, EmptyTable, Tables;
    WithTableTables(m, w, l);
    var v := WithTable(m, w, l);
    forall j | 0 <= j < 4 ensures Count(v, j) == Count(w, j) {
    }
  }

  lemma WithTableTables(m: seq<Entry>, w: View, l: nat)
    requires Shape(w) && Tables(w) && 1 <= l < 4
    requires w.cur[3] >= 1
    ensures Tables(WithTable(m, w, l))
  {
    hide Frame, EmptyTable;
    var v := WithTable(m, w, l);
    assert (l, w.cur[l] + 1) !in w.tab;
    forall j: nat, k: nat ensures (j, k) in v.tab <==> 1 <= j < 4 && First(j) / ENTRIES <= k <= v.cur[j] {
      assert (j, k) in w.tab <==> 1 <= j < 4 && First(j) / ENTRIES <= k <= w.cur[j];
      assert First(l) / ENTRIES <= w.cur[l] + 1;
    }
  }

  lemma EntryKeptByTable(m: seq<Entry>, w: View, l: nat, j: nat, g: nat)
    requires Good(m, w, l) && 1 <= l < 4 && w.idx[l] == ENTRIES && w.next < Mapped(w)
    requires j < 4 && First(j) <= g < Count(w, j)
    ensures EntrySet(m, WithTable(m, w, l), j, g)
  {
    hide Frame, Linked, Frames, WellFormed, EmptyTable;
    TablesThere(w, l, j, g);
    assert EntrySet(m, w, j, g);
    FrameFacts(m, w.next);
    if j > 0 {
      FrameInjective(m, w.next, w.tab[(j, g / ENTRIES)]);
    }
    assert (l, w.cur[l] + 1) !in w.tab;
  }

  /** Starting a fresh table keeps everything in order, but the table is not yet linked. The page it
      sits on is one that is already mapped. */
  lemma WithTableGood(m: seq<Entry>, w: View, l: nat)
    requires Good(m, w, l) && 1 <= l < 4 && w.idx[l] == ENTRIES && w.next < Mapped(w)
    ensures Good(m, WithTable(m, w, l), l - 1)
    ensures Resolve(w.mem, Page(w.next)) == Some(Frame(m, w.next))
  {
    hide Frame, Linked, Tables, WellFormed, Walk;
    WalkMapped(m, w, l, w.next);
    WithTableLinked(m, w, l);
    var v := WithTable(m, w, l);
    forall j, g | 0 <= j < 4 && First(j) <= g < Count(v, j) ensures EntrySet(m, v, j, g) {
      EntryKeptByTable(m, w, l, j, g);
    }
    FrameFacts(m, w.next);
  }

  // ---------------------------------------------------------------- nothing else is mapped

  /** Entry g of level l is not present. */
  ghost predicate Blank(m: seq<Entry>, w: View, l: nat, g: nat) {
    Lookup(w.mem, FrameOf(m, w, l, g / ENTRIES), g % ENTRIES) == None
  }

  /** An entry of a table of the walker, in the root one of the lower half, that is not set. */
  predicate Unset(w: View, l: nat, g: nat)
    requires Shape(w)
  {
    && l < 4 && (if l == 0 then g < 256 else (l, g / ENTRIES) in w.tab)
    && !(First(l) <= g < Count(w, l))
  }

  ghost predicate OnlySet(m: seq<Entry>, w: View)
    requires Shape(w)
  {
    forall l: nat, g: nat :: Unset(w, l, g) ==> Blank(m, w, l, g)
  }

  lemma WithEntryOnly(m: seq<Entry>, w: View, l: nat, addr: nat)
    requires Good(m, w, l) && OnlySet(m, w) && l < 4 && w.idx[l] < ENTRIES && (l == 0 ==> w.idx[0] < 256)
    ensures var f := FrameOf(m, w, l, w.cur[l]); f in w.mem && |w.mem[f]| == ENTRIES
    ensures OnlySet(m, WithEntry(m, w, l, addr))
  {
    hide Frame, Frames, Tables, Linked, WellFormed, Pages, Entries;
    WithEntryLinked(m, w, l, addr);
    var v := WithEntry(m, w, l, addr);
    forall j: nat, g: nat | Unset(v, j, g) ensures Blank(m, v, j, g) {
      BlankKept(m, w, l, addr, j, g);
    }
  }

  lemma BlankKept(m: seq<Entry>, w: View, l: nat, addr: nat, j: nat, g: nat)
    requires Good(m, w, l) && OnlySet(m, w) && l < 4 && w.idx[l] < ENTRIES && (l == 0 ==> w.idx[0] < 256)
    requires var f := FrameOf(m, w, l, w.cur[l]); f in w.mem && |w.mem[f]| == ENTRIES
    requires Unset(WithEntry(m, w, l, addr), j, g)
    ensures Blank(m, WithEntry(m, w, l, addr), j, g)
  {
    hide Frame, Frames, Tables, Linked, WellFormed, Pages, Entries;
    assert Unset(w, j, g);
    assert Blank(m, w, j, g);
    CurrentTable(m, w, l, l);
    if (j, g / ENTRIES) != (l, w.cur[l]) {
      FramesDiffer(m, w, l, j, g / ENTRIES, l, w.cur[l]);
    } else {
      FirstBelow(w, l);
      assert g % ENTRIES != w.idx[l];
    }
  }

  lemma FirstBelow(w: View, l: nat)
    requires Shape(w) && Linked(w, l) && l < 4
    ensures First(l) <= Count(w, l)
  {
    if l == 2 {
      assert w.cur[3] + 1 == Count(w, 2) + 1;
    }
  }

  lemma WithTableOnly(m: seq<Entry>, w: View, l: nat)
    requires Good(m, w, l) && OnlySet(m, w) && 1 <= l < 4 && w.idx[l] == ENTRIES && w.next < Mapped(w)
    ensures OnlySet(m, WithTable(m, w, l))
  {
    hide Frame, Frames, Tables, Linked, WellFormed, Pages, Entries;
    WithTableLinked(m, w, l);
    var v := WithTable(m, w, l);
    forall j: nat, g: nat | Unset(v, j, g) ensures Blank(m, v, j, g) {
      BlankKeptByTable(m, w, l, j, g);
    }
  }

  lemma BlankKeptByTable(m: seq<Entry>, w: View, l: nat, j: nat, g: nat)
    requires Good(m, w, l) && OnlySet(m, w) && 1 <= l < 4 && w.idx[l] == ENTRIES && w.next < Mapped(w)
    requires Unset(WithTable(m, w, l), j, g)
    ensures Blank(m, WithTable(m, w, l), j, g)
  {
    hide Frame, Linked, Frames, WellFormed, Entries, Count, EmptyTable;
    WithTableLinked(m, w, l);
    FrameFacts(m, w.next);
    if (j, g / ENTRIES) != (l, w.cur[l] + 1) {
      assert Unset(w, j, g);
      assert Blank(m, w, j, g);
      if j > 0 {
        FrameInjective(m, w.next, w.tab[(j, g / ENTRIES)]);
      }
    } else {
      EmptyEntry(g % ENTRIES);
    }
  }

  lemma EmptyEntry(i: nat)
    requires i < ENTRIES
    ensures EmptyTable()[i] == None
  {
  }

  /** In the lower half of virtual memory, the walk finds a frame for the pages mapped so far and no other. */
  lemma WalkExact(m: seq<Entry>, w: View, vpn: nat)
    requires Good(m, w, 4) && OnlySet(m, w) && vpn < Cap(3)
    ensures Walk(w.mem, vpn).Some? <==> FIRST_VPN <= vpn < FIRST_VPN + Mapped(w)
  {
    hide Frame, Lookup, Frames, Tables, WellFormed, Entries, Linked;
    if FIRST_VPN <= vpn < FIRST_VPN + Mapped(w) {
      WalkMapped(m, w, 4, vpn - FIRST_VPN);
    } else {
      var g2, g1, g0 := vpn / ENTRIES, vpn / ENTRIES / ENTRIES, vpn / ENTRIES / ENTRIES / ENTRIES;
      assert g0 < 256 && g0 / ENTRIES == 0 && g0 % ENTRIES == g0;
      if First(0) <= g0 < Count(w, 0) {
        Leads(m, w, 0, g0);
        if First(1) <= g1 < Count(w, 1) {
          Leads(m, w, 1, g1);
          if First(2) <= g2 < Count(w, 2) {
            Leads(m, w, 2, g2);
            assert Unset(w, 3, vpn);
          } else {
            assert Unset(w, 2, g2);
          }
        } else {
          assert Unset(w, 1, g1);
        }
      } else {
        assert Unset(w, 0, g0);
      }
    }
  }

  /** An entry that is set leads to a table of the next level. */
  lemma Leads(m: seq<Entry>, w: View, l: nat, g: nat)
    requires Good(m, w, 4) && l < 3 && First(l) <= g < Count(w, l)
    ensures (l + 1, g) in w.tab
    ensures Lookup(w.mem, FrameOf(m, w, l, g / ENTRIES), g % ENTRIES) == Some(FrameOf(m, w, l + 1, g))
  {
    hide Frame, Lookup, Frames, WellFormed, Tables, Linked;
    TablesThere(w, 4, l, g);
    assert EntrySet(m, w, l, g);
  }

  // ---------------------------------------------------------------- the walker

  /** Bound on the number of entries of a level: the root has 256 for the lower half of memory. */
  function Cap(l: nat): nat {
    if l == 0 then 0x100 else if l == 1 then 0x2_0000 else if l == 2 then 0x400_0000 else 0x8_0000_0000
  }

  /** Tables are few: when the last page table is full, more pages are mapped than the next step can
      need for tables. */
  lemma RoomForTables(m: seq<Entry>, w: View)
    requires Good(m, w, 4) && w.idx[3] == ENTRIES
    ensures w.next + 3 <= Mapped(w)
  {
    hide Frames, Entries, WellFormed;
    assert w.cur[3] + 1 == Count(w, 2);
    assert w.cur[2] + 1 == Count(w, 1);
  }

  lemma NothingPending(m: seq<Entry>, w: View)
    requires Good(m, w, 4)
    ensures Good(m, w, 3)
  {
    hide Frames, Entries, WellFormed, Tables;
  }

  /** No level has more entries than the root has room for. */
  lemma CountCap(w: View, p: nat)
    requires Shape(w) && Linked(w, p)
    ensures forall l :: 0 <= l < 4 ==> Count(w, l) <= Cap(l)
  {
    assert Count(w, 0) == w.idx[0];
    CountBound(w, p, 1);
    CountBound(w, p, 2);
    CountBound(w, p, 3);
  }

  /** A level whose current table has room is not at its bound. */
  lemma RoomBelowCap(w: View, l: nat)
    requires Shape(w) && l < 4 && Linked(w, l)
    ensures l > 0 && w.idx[l] < ENTRIES ==> Count(w, l) < Cap(l)
    ensures l == 0 ==> (w.idx[0] < 256 <==> Count(w, 0) < Cap(0))
  {
    if l > 0 {
      CountCap(w, l);
      assert w.cur[l] + 1 == Count(w, l - 1);
    }
  }

  /** With a fresh table of a level in place, that level is at its bound exactly if the level above is. */
  lemma ParentCount(w: View, l: nat)
    requires Shape(w) && 1 <= l < 4 && Linked(w, l - 1)
    ensures w.cur[l] == Count(w, l - 1)
    ensures Count(w, l) < Cap(l) <==> Count(w, l - 1) < Cap(l - 1)
  {
  }

  /** Virtual address of page n of dynamic memory. */
  function VirtOf(n: nat): nat { DYNMEM_START_VIRT + n * PAGE_SIZE }

  lemma GoodShape(m: seq<Entry>, w: View, p: nat)
    requires Good(m, w, p)
    ensures WellFormed(m) && Shape(w) && Linked(w, p) && Tables(w)
    ensures w.next <= Mapped(w) <= Pages(m)
  {
  }

  /** The entry due in the level above a fresh table leads to that table. */
  lemma FreshTarget(m: seq<Entry>, w: View, l: nat, n: nat)
    requires 1 <= l < 4 && Good(m, w, l - 1)
    requires w.cur[l] == Count(w, l - 1)
    requires (l, w.cur[l]) in w.tab && w.tab[(l, w.cur[l])] == n
    ensures Target(m, w, l - 1, Count(w, l - 1)) == Frame(m, n)
    ensures PhysAt(m, n * PAGE_SIZE) == Some(Frame(m, n))
  {
    hide Frame, Entries, Frames, WellFormed;
    FrameFacts(m, n);
  }

  /** A fresh table of the level below stays the one that is due. */
  lemma SameTarget(m: seq<Entry>, w: View, v: View, l: nat)
    requires Shape(w) && Tables(w) && Linked(w, l) && l < 4
    requires forall x :: x in w.tab ==> x in v.tab && v.tab[x] == w.tab[x]
    ensures Target(m, w, l, Count(w, l)) == Target(m, v, l, Count(w, l))
  {
    hide Frame;
    if l < 3 {
      assert w.cur[l + 1] == Count(w, l);
      assert (l + 1, w.cur[l + 1]) in w.tab;
    }
  }

  lemma SamePointers(m: seq<Entry>, w: View, l: nat)
    requires Shape(w) && Tables(w) && 1 <= l < 4
    ensures var v := WithTable(m, w, l);
            forall j :: 0 <= j < 4 ==>
              PointerOf(v, j, v.cur[j]) == if j == l then Page(w.next) else PointerOf(w, j, w.cur[j])
    ensures forall x :: x in w.tab ==> x in WithTable(m, w, l).tab && WithTable(m, w, l).tab[x] == w.tab[x]
  {
    hide Frame, EmptyTable;
    assert (l, w.cur[l] + 1) !in w.tab;
  }

  lemma PointersOfTab(w: View, v: View)
    requires w.tab == v.tab
    ensures forall l: nat, k: nat :: PointerOf(w, l, k) == PointerOf(v, l, k)
  {
  }

  class PageInitWalker {
    const memoryMap: seq<Entry>
    var mem: Memory
    var tables: seq<Pointer>
    var indices: seq<nat>
    var nextTable: nat
    var skip: nat
    ghost var tab: map<(nat, nat), nat>
    ghost var cur: seq<nat>

    ghost function Built(): View
      reads this
    {
      View(mem, tab, cur, indices, nextTable)
    }

    ghost predicate Valid(p: nat)
      reads this
    {
      && Good(memoryMap, Built(), p)
      && |tables| == 4
      && forall l :: 0 <= l < 4 ==> tables[l] == PointerOf(Built(), l, cur[l])
    }

    /** The walker has been told of n pages. */
    ghost predicate Told(n: nat)
      reads this
    {
      Valid(4) && Mapped(Built()) == Max(3, n) && skip == if n < 3 then 3 - n else 0
    }

    /** Clear the next page, through its virtual address, and make it the current table of a level. */
    method FreshTable(level: nat)
      requires 1 <= level < 4 && Valid(level) && indices[level] == ENTRIES
      requires nextTable < Mapped(Built())
      modifies this
      ensures Valid(level - 1) && skip == old(skip)
      ensures Built() == WithTable(memoryMap, old(Built()), level)
    {
      hide Good, Frame, PointerOf, Resolve, EmptyTable, Linked, Tables, Pages;
      ghost var w := Built();
      GoodShape(memoryMap, w, level);
      WithTableGood(memoryMap, w, level);
      SamePointers(memoryMap, w, level);
      var frame := Resolve(mem, Page(nextTable));
      mem := mem[frame.value := EmptyTable()];
      tables := tables[level := Page(nextTable)];
      indices := indices[level := 0];
      tab := tab[(level, cur[level] + 1) := nextTable];
      cur := cur[level := cur[level] + 1];
      nextTable := nextTable + 1;
      assert Built() == WithTable(memoryMap, w, level);
    }

    /** Write the entry of a level that is due, through the virtual address of its table. */
    method SetEntry(level: nat, addr: nat)
      requires level < 4 && Valid(level) && indices[level] < ENTRIES && (level == 0 ==> indices[0] < 256)
      requires addr == Target(memoryMap, Built(), level, Count(Built(), level))
      requires level == 3 ==> Mapped(Built()) < Pages(memoryMap)
      modifies this
      ensures Valid(level + 1) && skip == old(skip)
      ensures old(OnlySet(memoryMap, Built())) ==> OnlySet(memoryMap, Built())
      ensures cur == old(cur) && tab == old(tab) && indices == old(indices)[level := old(indices)[level] + 1]
    {
      hide Good, Frame, Target, Resolve, FrameOf, Linked, Tables, Pages, Count, PointerOf, OnlySet;
      ghost var w := Built();
      GoodShape(memoryMap, w, level);
      CurrentTable(memoryMap, w, level, level);
      WithEntryGood(memoryMap, w, level, addr);
      if OnlySet(memoryMap, w) {
        WithEntryOnly(memoryMap, w, level, addr);
      }
      var frame := Resolve(mem, tables[level]);
      mem := Write(mem, frame.value, indices[level], addr);
      indices := indices[level := indices[level] + 1];
      assert Built() == WithEntry(memoryMap, w, level, addr);
      PointersOfTab(w, Built());
    }

    /** The first half of next_set_recur, for a full table: start a fresh one and have the level above
        point to it. The fresh page is mapped before it is cleared. ok == false stands for a panic at the
        root. */
    method Rollover(level: nat) returns (ok: bool)
      requires 1 <= level < 4 && Valid(level) && indices[level] == ENTRIES
      requires nextTable + level <= Mapped(Built())
      modifies this
      ensures ok <==> old(Count(Built(), level)) < Cap(level)
      ensures ok ==> Valid(level) && skip == old(skip)
      ensures ok && old(OnlySet(memoryMap, Built())) ==> OnlySet(memoryMap, Built())
      ensures ok ==> indices[level] == 0 && Count(Built(), level) == old(Count(Built(), level))
      ensures ok ==> forall l :: level < l < 4 ==> cur[l] == old(cur[l]) && indices[l] == old(indices[l])
      ensures ok ==> forall x :: x in old(tab) ==> x in tab && tab[x] == old(tab)[x]
      decreases level, 0
    {
      hide Good, Frame, PointerOf, Target, FrameOf, Tables, Pages, Linked, PhysAt, WellFormed, EmptyTable, Cap, OnlySet;
      ghost var w := Built();
      GoodShape(memoryMap, w, level);
      WithTableLinked(memoryMap, w, level);
      SamePointers(memoryMap, w, level);
      if OnlySet(memoryMap, w) {
        WithTableOnly(memoryMap, w, level);
      }
      var next := nextTable;
      FreshTable(level);
      ghost var v := Built();
      ParentCount(v, level);
      FreshTarget(memoryMap, v, level, next);
      var nextPhys := VirtToPhys(VirtOf(next), memoryMap, DYNMEM_START_VIRT);
      ok := NextSetRecur(level - 1, nextPhys.value);
      if ok {
        GoodShape(memoryMap, Built(), level);
      }
    }

    /** next_set_recur: set the entry of `level` that is due. No page fault can occur. The assertion that
        guards the root fails, shown as ok == false, exactly if the level is at its bound. */
    method NextSetRecur(level: nat, addr: nat) returns (ok: bool)
      requires level < 4 && Valid(level)
      requires addr == Target(memoryMap, Built(), level, Count(Built(), level))
      requires level == 3 ==> Mapped(Built()) < Pages(memoryMap)
      requires indices[level] < ENTRIES || nextTable + level <= Mapped(Built())
      modifies this
      ensures ok <==> old(Count(Built(), level)) < Cap(level)
      ensures ok ==> Valid(level + 1) && skip == old(skip)
      ensures ok && old(OnlySet(memoryMap, Built())) ==> OnlySet(memoryMap, Built())
      ensures ok ==> Count(Built(), level) == old(Count(Built(), level)) + 1
      ensures ok ==> forall l :: level < l < 4 ==> cur[l] == old(cur[l]) && indices[l] == old(indices[l])
      ensures ok ==> forall x :: x in old(tab) ==> x in tab && tab[x] == old(tab)[x]
      decreases level, 1
    {
      hide Good, Frame, PointerOf, Target, FrameOf, Tables, Pages, Linked, WellFormed, OnlySet;
      ghost var w := Built();
      GoodShape(memoryMap, w, level);
      IndexBound(w, level, level);
      RoomBelowCap(w, level);
      if level == 0 && indices[level] >= 256 {
        return false;
      }
      if indices[level] >= ENTRIES {
        ok := Rollover(level);
        if !ok {
          return;
        }
        GoodShape(memoryMap, Built(), level);
        SameTarget(memoryMap, w, Built(), level);
      }
      SetEntry(level, addr);
      GoodShape(memoryMap, Built(), level + 1);
      ok := true;
    }

    /** next_set, for page n: the first three pages are mapped already. */
    method NextSet(addr: nat, ghost n: nat) returns (ok: bool)
      requires Told(n) && n < Pages(memoryMap)
      requires addr == Frame(memoryMap, n)
      modifies this
      ensures ok <==> FIRST_VPN + n < Cap(3)
      ensures ok ==> Told(n + 1) && Shape(Built())
      ensures ok && old(OnlySet(memoryMap, Built())) ==> OnlySet(memoryMap, Built())
    {
      hide Good, Frame, PointerOf, FrameOf, Tables, Linked, Pages, OnlySet;
      ok := true;
      if skip == 0 {
        ghost var w := Built();
        GoodShape(memoryMap, w, 4);
        NothingPending(memoryMap, w);
        assert indices[3] <= ENTRIES by { IndexBound(w, 4, 3); }
        if indices[3] == ENTRIES {
          RoomForTables(memoryMap, w);
        }
        ok := NextSetRecur(3, addr);
      } else {
        skip := skip - 1;
      }
      if ok {
        GoodShape(memoryMap, Built(), 4);
      }
    }

    /** PageInitWalker::new on what create_tmp_page leaves behind. */
    constructor (m: seq<Entry>, mem0: Memory)
      requires WellFormed(m) && Pages(m) >= 3 && Frames(m, mem0) && TmpPages(m, mem0)
      ensures Told(0) && memoryMap == m && (CleanTmp(m, mem0) ==> OnlySet(m, Built()))
    {
      hide Good, Frames, TmpPages, Pages, WellFormed, CleanTmp, OnlySet;
      memoryMap, mem := m, mem0;
      tables := [Root, Page(0), Page(1), Page(2)];
      indices := [1, 1, 2, 3];
      nextTable := 3;
      skip := 3;
      tab := map[(1, 0) := 0, (2, 0) := 1, (3, 1) := 2];
      cur := [0, 0, 0, 1];
      new;
      Start(m, mem0);
      if CleanTmp(m, mem0) {
        StartOnly(m, mem0);
      }
    }

    /** create_dyn_page: it panics, shown as ok == false, exactly if there are more pages than the root has
        room for. Otherwise the hardware translates every byte address of dynamic memory afterwards as the
        linear search does, and the lengths are those of the memory and of its tables. */
    method CreateDynPage() returns (ok: bool, totalLen: nat, pageTableLen: nat)
      requires Told(0) && Pages(memoryMap) >= 3
      modifies this
      ensures ok <==> FIRST_VPN + Pages(memoryMap) <= Cap(3)
      ensures ok ==> Valid(4)
      ensures ok ==> TranslatesAs(mem, memoryMap)
      ensures ok && old(OnlySet(memoryMap, Built())) ==> NothingElse(mem, memoryMap)
      ensures ok ==> totalLen == TotalLen(memoryMap)
      ensures ok ==> pageTableLen == TablePages(Pages(memoryMap)) * PAGE_SIZE == nextTable * PAGE_SIZE
    {
      hide Good, Frame, PointerOf, Walk, Pages, PhysAt, TablePages, Told, WellFormed, TranslatesAs, OnlySet, NothingElse;
      totalLen, pageTableLen := 0, 0;
      ToldMap(0);
      var pageCount: nat, i := 0, 0;
      while i < |memoryMap|
        invariant 0 <= i <= |memoryMap|
        invariant Told(pageCount)
        invariant pageCount * PAGE_SIZE == TotalLen(memoryMap[..i])
        invariant Shape(Built())
        invariant old(OnlySet(memoryMap, Built())) ==> OnlySet(memoryMap, Built())
      {
        ok, pageCount := MapRun(i, pageCount);
        if !ok {
          assert FIRST_VPN + Pages(memoryMap) > Cap(3) by { TooMany(memoryMap, i); }
          return;
        }
        i := i + 1;
      }
      assert memoryMap[..i] == memoryMap;
      PageTotal(memoryMap, pageCount);
      totalLen := pageCount * PAGE_SIZE;
      pageTableLen := nextTable * PAGE_SIZE;
      ok := true;
      ToldAll(pageCount);
      GoodShape(memoryMap, Built(), 4);
      OutOfBound(memoryMap, Built());
      TableCount(Built());
      AllTranslated(memoryMap, Built());
      if OnlySet(memoryMap, Built()) {
        NoneTranslated(memoryMap, Built());
      }
    }

    lemma ToldMap(n: nat)
      requires Told(n)
      ensures WellFormed(memoryMap) && FIRST_VPN + n <= Cap(3) && Shape(Built())
    {
      CountCap(Built(), 4);
    }

    lemma ToldAll(n: nat)
      requires Told(n) && n >= 3
      ensures Valid(4) && Shape(Built()) && Mapped(Built()) == n
    {
    }

    /** The inner loop of create_dyn_page, over the pages of one run. It panics exactly if the root has no
        room for one of them. */
    method MapRun(i: nat, count: nat) returns (ok: bool, pageCount: nat)
      requires Told(count) && Shape(Built()) && i < |memoryMap|
      requires count * PAGE_SIZE == TotalLen(memoryMap[..i])
      modifies this
      ensures ok <==> FIRST_VPN * PAGE_SIZE + TotalLen(memoryMap[..i + 1]) <= Cap(3) * PAGE_SIZE
      ensures ok ==> Told(pageCount)
      ensures ok ==> pageCount * PAGE_SIZE == TotalLen(memoryMap[..i + 1])
      ensures ok ==> Shape(Built()) && (old(OnlySet(memoryMap, Built())) ==> OnlySet(memoryMap, Built()))
    {
      hide Good, Frame, PointerOf, Walk, Pages, PhysAt, Told, TotalLen, OnlySet;
      ToldMap(count);
      assert GoodRun(memoryMap[i]);
      PhysAtRun(memoryMap, i, 0);
      pageCount := count;
      var start, stop := memoryMap[i].base, memoryMap[i].base + memoryMap[i].size;
      var base := start;
      while base < stop
        invariant start <= base <= stop && (base - start) % PAGE_SIZE == 0
        invariant Told(pageCount) && FIRST_VPN + pageCount <= Cap(3) && Shape(Built())
        invariant old(OnlySet(memoryMap, Built())) ==> OnlySet(memoryMap, Built())
        invariant pageCount * PAGE_SIZE == TotalLen(memoryMap[..i]) + (base - start)
      {
        RunPage(memoryMap, i, base, pageCount);
        pageCount := pageCount + 1;
        ok := NextSet(base, pageCount - 1);
        if !ok {
          return;
        }
        base := base + PAGE_SIZE;
      }
      ok := true;
    }
  }

  // ---------------------------------------------------------------- start and end

  /** What create_tmp_page leaves: the first three pages are mapped, by tables that sit on them. */
  predicate TmpPages(m: seq<Entry>, mem: Memory) {
    && Lookup(mem, ROOT, 0) == Some(Frame(m, 0))
    && Lookup(mem, Frame(m, 0), 0) == Some(Frame(m, 1))
    && Lookup(mem, Frame(m, 1), 1) == Some(Frame(m, 2))
    && forall n :: 0 <= n < 3 ==> Lookup(mem, Frame(m, 2), n) == Some(Frame(m, n))
  }

  /** No entry of a frame is present from lo up to hi. */
  ghost predicate NoneFrom(mem: Memory, frame: nat, lo: nat, hi: nat) {
    forall i :: lo <= i < hi ==> Lookup(mem, frame, i) == None
  }

  /** The root, in its lower half, and the first three frames hold nothing besides. */
  ghost predicate CleanTmp(m: seq<Entry>, mem: Memory) {
    && NoneFrom(mem, ROOT, 1, 256)
    && NoneFrom(mem, Frame(m, 0), 1, ENTRIES)
    && NoneFrom(mem, Frame(m, 1), 0, 1) && NoneFrom(mem, Frame(m, 1), 2, ENTRIES)
    && NoneFrom(mem, Frame(m, 2), 3, ENTRIES)
  }

  /** What the walker starts from. */
  function FirstView(mem: Memory): View {
    View(mem, map[(1, 0) := 0, (2, 0) := 1, (3, 1) := 2], [0, 0, 0, 1], [1, 1, 2, 3], 3)
  }

  lemma StartOnly(m: seq<Entry>, mem: Memory)
    requires CleanTmp(m, mem)
    ensures OnlySet(m, FirstView(mem))
  {
    hide Frame, Lookup;
    var w := FirstView(mem);
    forall l: nat, g: nat | Unset(w, l, g) ensures Blank(m, w, l, g) {
      assert l == 3 ==> g / ENTRIES == 1 && g % ENTRIES == g - FIRST_VPN;
      assert l < 3 ==> g / ENTRIES == 0 && g % ENTRIES == g;
    }
  }

  lemma FirstTables(mem: Memory)
    ensures Tables(FirstView(mem)) && Linked(FirstView(mem), 4)
  {
    hide Linked;
    assert Linked(FirstView(mem), 4) by { FirstLinks(mem); }
    var w := FirstView(mem);
    forall l: nat, k: nat ensures (l, k) in w.tab <==> 1 <= l < 4 && First(l) / ENTRIES <= k <= w.cur[l] {
      assert First(3) / ENTRIES == 1 && First(2) / ENTRIES == 0 && First(1) / ENTRIES == 0;
    }
  }

  lemma FirstLinks(mem: Memory)
    ensures Linked(FirstView(mem), 4)
  {
  }

  lemma Start(m: seq<Entry>, mem: Memory)
    requires WellFormed(m) && Pages(m) >= 3 && Frames(m, mem) && TmpPages(m, mem)
    ensures Good(m, FirstView(mem), 4)
  {
    hide Frame, Lookup, WellFormed, Tables, Linked;
    var w := FirstView(mem);
    FirstTables(mem);
    forall l, g | 0 <= l < 4 && First(l) <= g < Count(w, l) ensures EntrySet(m, w, l, g) {
      if l == 3 {
        assert g / ENTRIES == 1 && g % ENTRIES == g - FIRST_VPN;
      }
    }
  }

  lemma IndexBound(w: View, p: nat, l: nat)
    requires Shape(w) && Linked(w, p) && l < 4
    ensures w.idx[l] <= ENTRIES
    ensures l == 0 ==> w.idx[l] <= 256 && Count(w, l) == w.idx[l]
  {
  }

  /** Pages that the tables for n pages of dynamic memory take: page tables, directories (the first
      directory entry is not used) and directory-pointer tables. */
  function TablePages(n: nat): nat {
    var pts := CeilDiv(n, ENTRIES);
    var pds := CeilDiv(1 + pts, ENTRIES);
    pts + pds + CeilDiv(pds, ENTRIES)
  }

  /** The same number as the tests of create_dyn_page expect it. */
  function ExpectedTablePages(n: nat): nat {
    var pts := CeilDiv(n, ENTRIES);
    var upper := CeilDiv(CeilDiv(pts, ENTRIES), ENTRIES);
    pts + upper + upper
  }

  /** The tests leave the unused directory entry and the further directories out of account: they are
      right up to the 511 page tables of the first directory and wrong for every larger memory. */
  lemma ExpectedPages(n: nat)
    ensures ExpectedTablePages(n) == TablePages(n) <==> 0 < n <= 511 * ENTRIES
  {
    hide CeilDiv;
    var pts := CeilDiv(n, ENTRIES);
    var dirs := CeilDiv(pts, ENTRIES);
    var pds := CeilDiv(1 + pts, ENTRIES);
    CeilDivBounds(n);
    CeilDivBounds(pts);
    CeilDivBounds(dirs);
    CeilDivBounds(1 + pts);
    CeilDivBounds(pds);
  }

  lemma CeilDivBounds(n: nat)
    ensures ENTRIES * CeilDiv(n, ENTRIES) >= n && (n > 0 ==> ENTRIES * (CeilDiv(n, ENTRIES) - 1) < n)
    ensures n == 0 ==> CeilDiv(n, ENTRIES) == 0
  {
  }

  /** Mapping one more page reaches the assertion of next_set_recur at a full root, through a full table
      at every level, if and only if all pages the root has room for are mapped. */
  lemma OutOfBound(m: seq<Entry>, w: View)
    requires Good(m, w, 4)
    ensures Mapped(w) <= Cap(3) - FIRST_VPN
    ensures Mapped(w) == Cap(3) - FIRST_VPN <==>
            w.idx[0] == 256 && w.idx[1] == ENTRIES && w.idx[2] == ENTRIES && w.idx[3] == ENTRIES
  {
    hide Frames, Entries, WellFormed, Tables;
    assert w.cur[1] + 1 == Count(w, 0);
    assert w.cur[2] + 1 == Count(w, 1);
    assert w.cur[3] + 1 == Count(w, 2);
  }

  lemma TableCount(w: View)
    requires Shape(w) && Linked(w, 4) && Tables(w) && Mapped(w) >= 0
    ensures w.next == TablePages(Mapped(w))
  {
    assert w.cur[3] == CeilDiv(Mapped(w), ENTRIES);
    assert w.cur[2] + 1 == CeilDiv(1 + w.cur[3], ENTRIES);
    assert w.cur[1] + 1 == CeilDiv(w.cur[2] + 1, ENTRIES);
  }

  /** The hardware finds every byte of dynamic memory where the linear search finds it. */
  ghost predicate TranslatesAs(mem: Memory, m: seq<Entry>) {
    forall virt: nat :: DYNMEM_START_VIRT <= virt < DYNMEM_START_VIRT + TotalLen(m) ==>
      Translate(mem, virt) == PhysAt(m, virt - DYNMEM_START_VIRT)
  }

  lemma AllTranslated(m: seq<Entry>, w: View)
    requires Good(m, w, 4) && Mapped(w) == Pages(m)
    ensures TranslatesAs(w.mem, m)
  {
    hide Good, Frame, Walk, PhysAt, Pages, TotalLen;
    GoodShape(m, w, 4);
    forall virt: nat | DYNMEM_START_VIRT <= virt < DYNMEM_START_VIRT + TotalLen(m)
      ensures Translate(w.mem, virt) == PhysAt(m, virt - DYNMEM_START_VIRT)
    {
      var n, d := virt / PAGE_SIZE - FIRST_VPN, virt % PAGE_SIZE;
      PageOfByte(m, virt - DYNMEM_START_VIRT, n, d);
      WalkMapped(m, w, 4, n);
      WholePage(m, n, d);
      FrameFacts(m, n);
    }
  }

  /** The hardware finds nothing else in the lower half of virtual memory. */
  ghost predicate NothingElse(mem: Memory, m: seq<Entry>) {
    forall virt: nat :: virt < 0x8000_0000_0000 && Translate(mem, virt).Some? ==>
      DYNMEM_START_VIRT <= virt < DYNMEM_START_VIRT + TotalLen(m)
  }

  lemma NoneTranslated(m: seq<Entry>, w: View)
    requires Good(m, w, 4) && OnlySet(m, w) && Mapped(w) == Pages(m)
    ensures NothingElse(w.mem, m)
  {
    hide Good, OnlySet, Walk, Pages, TotalLen, WellFormed;
    GoodShape(m, w, 4);
    forall virt: nat | virt < 0x8000_0000_0000 && Translate(w.mem, virt).Some?
      ensures DYNMEM_START_VIRT <= virt < DYNMEM_START_VIRT + TotalLen(m)
    {
      WalkExact(m, w, virt / PAGE_SIZE);
      PagesTotal(m);
    }
  }

  lemma PagesTotal(m: seq<Entry>)
    requires WellFormed(m)
    ensures TotalLen(m) == Pages(m) * PAGE_SIZE
  {
    TotalAligned(m);
  }

  lemma PageOfByte(m: seq<Entry>, offset: nat, n: nat, d: nat)
    requires WellFormed(m) && offset < TotalLen(m) && offset == n * PAGE_SIZE + d && d < PAGE_SIZE
    ensures n < Pages(m) && n * PAGE_SIZE < TotalLen(m)
  {
    hide WellFormed, TotalLen;
    TotalAligned(m);
  }

  lemma TooMany(m: seq<Entry>, i: nat)
    requires WellFormed(m) && i < |m|
    requires FIRST_VPN * PAGE_SIZE + TotalLen(m[..i + 1]) > Cap(3) * PAGE_SIZE
    ensures FIRST_VPN + Pages(m) > Cap(3)
  {
    assert GoodRun(m[i]);
    PhysAtRun(m, i, 0);
    TotalAligned(m);
  }

  lemma PageTotal(m: seq<Entry>, n: nat)
    requires n * PAGE_SIZE == TotalLen(m)
    ensures n == Pages(m)
  {
  }

  /** The page at `base` in run i is page n. */
  lemma RunPage(m: seq<Entry>, i: nat, base: nat, n: nat)
    requires WellFormed(m) && i < |m| && m[i].base <= base < m[i].End()
    requires (base - m[i].base) % PAGE_SIZE == 0
    requires n * PAGE_SIZE == TotalLen(m[..i]) + (base - m[i].base)
    ensures n < Pages(m) && Frame(m, n) == base
    ensures base + PAGE_SIZE <= m[i].End()
  {
    assert GoodRun(m[i]);
    PhysAtRun(m, i, base - m[i].base);
    TotalAligned(m);
  }

  // ---------------------------------------------------------------- the first three pages

  /** Frames of consecutive pages are at least a page apart. */
  lemma FrameGap(m: seq<Entry>, n: nat)
    requires WellFormed(m) && n + 1 < Pages(m)
    ensures Frame(m, n) + PAGE_SIZE <= Frame(m, n + 1)
  {
    hide WellFormed, Frame, PhysAt;
    PageBelow(m, n);
    PageBelow(m, n + 1);
    FrameFacts(m, n);
    FrameFacts(m, n + 1);
    WholePage(m, n, PAGE_SIZE - 1);
    PhysAtIncreases(m, n * PAGE_SIZE + (PAGE_SIZE - 1), (n + 1) * PAGE_SIZE);
  }

  lemma {:induction false} FrameAtLeast(m: seq<Entry>, k: nat, n: nat)
    requires WellFormed(m) && k <= n < Pages(m)
    ensures Frame(m, k) + (n - k) * PAGE_SIZE <= Frame(m, n)
    ensures Frame(m, k) >= DYNMEM_START_PHYS
  {
    hide WellFormed, Frame, Pages;
    FrameLow(m, k);
    if k < n {
      FrameAtLeast(m, k, n - 1);
      FrameGap(m, n - 1);
    }
  }

  lemma FrameLow(m: seq<Entry>, n: nat)
    requires WellFormed(m) && n < Pages(m)
    ensures Frame(m, n) >= DYNMEM_START_PHYS
  {
    hide WellFormed;
    PageBelow(m, n);
    WholePage(m, n, 0);
  }

  /** The page number of a frame of the map. */
  lemma PageOfFrame(m: seq<Entry>, p: nat) returns (n: nat)
    requires WellFormed(m) && Aligned(p) && HasPage(m, p)
    ensures n < Pages(m) && Frame(m, n) == p
  {
    hide WellFormed;
    PageInMap(m, p);
    OffsetOfInverse(m, p);
    OffsetAligned(m, p);
    n := OffsetOf(m, p).value / PAGE_SIZE;
    TotalAligned(m);
  }

  /** create_tmp_page takes the frames at the start of dynamic memory for the first three pages. They are
      exactly if the memory map has the pages there. */
  lemma FirstFrames(m: seq<Entry>)
    requires WellFormed(m)
    ensures (forall i: nat :: i < 3 ==> HasPage(m, DYNMEM_START_PHYS + i * PAGE_SIZE)) <==>
            Pages(m) >= 3 && forall i: nat :: i < 3 ==> Frame(m, i) == DYNMEM_START_PHYS + i * PAGE_SIZE
  {
    hide WellFormed, Frame, HasPage, Pages;
    if forall i: nat :: i < 3 ==> HasPage(m, DYNMEM_START_PHYS + i * PAGE_SIZE) {
      FramesInOrder(m);
    }
    if Pages(m) >= 3 && forall i: nat :: i < 3 ==> Frame(m, i) == DYNMEM_START_PHYS + i * PAGE_SIZE {
      forall i: nat | i < 3 ensures HasPage(m, DYNMEM_START_PHYS + i * PAGE_SIZE) {
        FrameInMap(m, i);
      }
    }
  }

  lemma FrameInMap(m: seq<Entry>, n: nat)
    requires WellFormed(m) && n < Pages(m)
    ensures Aligned(Frame(m, n)) && HasPage(m, Frame(m, n))
  {
    hide WellFormed;
    PageBelow(m, n);
    WholePage(m, n, 0);
    PhysAtInverse(m, n * PAGE_SIZE);
    PageInMap(m, Frame(m, n));
  }

  lemma FramesInOrder(m: seq<Entry>)
    requires WellFormed(m)
    requires forall i: nat :: i < 3 ==> HasPage(m, DYNMEM_START_PHYS + i * PAGE_SIZE)
    ensures Pages(m) >= 3 && forall i: nat :: i < 3 ==> Frame(m, i) == DYNMEM_START_PHYS + i * PAGE_SIZE
  {
    hide WellFormed, Frame, HasPage, Pages;
    var s := DYNMEM_START_PHYS;
    assert HasPage(m, s + 0 * PAGE_SIZE) && HasPage(m, s + 1 * PAGE_SIZE) && HasPage(m, s + 2 * PAGE_SIZE);
    var a := PageOfFrame(m, s);
    var b := PageOfFrame(m, s + PAGE_SIZE);
    var c := PageOfFrame(m, s + 2 * PAGE_SIZE);
    FrameAtLeast(m, 0, a);
    FrameAtLeast(m, 0, b);
    FrameAtLeast(m, 0, c);
  }

  // ---------------------------------------------------------------- the heap behind the tables

  /** Another content of memory with the same root and the same pages below `next`, where the tables are. */
  ghost predicate SameBelow(m: seq<Entry>, w: View, mem: Memory) {
    && Frames(m, w.mem) && Frames(m, mem) && w.next <= Pages(m)
    && mem[ROOT] == w.mem[ROOT]
    && forall n: nat :: n < w.next ==> mem[Frame(m, n)] == w.mem[Frame(m, n)]
  }

  ghost predicate StaysMapped(m: seq<Entry>, before: Memory, after: Memory, n: nat) {
    Walk(after, FIRST_VPN + n) == Walk(before, FIRST_VPN + n) == Some(Frame(m, n))
  }

  /** Whatever is written behind the tables, however often and to however many pages, the tables stay in
      order and every page of dynamic memory stays mapped as it was. */
  lemma HeapWriteKeepsTables(m: seq<Entry>, w: View, mem: Memory)
    requires Good(m, w, 4) && SameBelow(m, w, mem)
    ensures Good(m, w.(mem := mem), 4)
    ensures forall k: nat :: k < Mapped(w) ==> StaysMapped(m, w.mem, mem, k)
  {
    hide Frame, Walk, Tables, Linked, WellFormed;
    var v := w.(mem := mem);
    GoodShape(m, w, 4);
    forall l, g | 0 <= l < 4 && First(l) <= g < Count(v, l) ensures EntrySet(m, v, l, g) {
      KeptByHeapWrite(m, w, mem, l, g);
    }
    OtherMemory(w, v, 4);
    forall k: nat | k < Mapped(w) ensures StaysMapped(m, w.mem, mem, k) {
      WalkMapped(m, w, 4, k);
      WalkMapped(m, v, 4, k);
    }
  }

  lemma KeptByHeapWrite(m: seq<Entry>, w: View, mem: Memory, l: nat, g: nat)
    requires Good(m, w, 4) && SameBelow(m, w, mem) && l < 4 && First(l) <= g < Count(w, l)
    ensures EntrySet(m, w.(mem := mem), l, g)
  {
    hide Frame, Linked, WellFormed;
    TablesThere(w, 4, l, g);
    RootIndex(w, 4);
    assert EntrySet(m, w, l, g);
    assert mem[FrameOf(m, w, l, g / ENTRIES)] == w.mem[FrameOf(m, w, l, g / ENTRIES)];
  }
}
