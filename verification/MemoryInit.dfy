/** init_memory, end to end: from the e820 list to page tables and a heap behind them
    (kernel/src/memory.rs). */
module MemoryInit {
  import opened Options
  import opened Arithmetic
  import opened DynMap
  import opened PageTables
  import BuddyInfo
  import BuddyAllocator

  /** Every page the kernel may use, and the root table, is there as memory. */
  ghost predicate Ram(e820: seq<Entry>, mem: Memory) {
    && ROOT in mem && |mem[ROOT]| == ENTRIES
    && forall p: nat :: Aligned(p) && Offered(e820, p) ==> p in mem && |mem[p]| == ENTRIES
  }

  /** What create_tmp_page leaves: tables on the first three frames of dynamic memory that map them. */
  predicate TmpState(mem: Memory) {
    var s := DYNMEM_START_PHYS;
    && Lookup(mem, ROOT, 0) == Some(s)
    && Lookup(mem, s, 0) == Some(s + PAGE_SIZE)
    && Lookup(mem, s + PAGE_SIZE, 1) == Some(s + 2 * PAGE_SIZE)
    && Lookup(mem, s + 2 * PAGE_SIZE, 0) == Some(s)
    && Lookup(mem, s + 2 * PAGE_SIZE, 1) == Some(s + PAGE_SIZE)
    && Lookup(mem, s + 2 * PAGE_SIZE, 2) == Some(s + 2 * PAGE_SIZE)
  }

  /** Besides, these tables and the lower half of the root are empty, which create_tmp_page does not see to. */
  ghost predicate TmpClean(mem: Memory) {
    var s := DYNMEM_START_PHYS;
    && NoneFrom(mem, ROOT, 1, 256)
    && NoneFrom(mem, s, 1, ENTRIES)
    && NoneFrom(mem, s + PAGE_SIZE, 0, 1) && NoneFrom(mem, s + PAGE_SIZE, 2, ENTRIES)
    && NoneFrom(mem, s + 2 * PAGE_SIZE, 3, ENTRIES)
  }

  /** The first three pages of dynamic memory are usable, as create_tmp_page takes for granted. */
  predicate FirstPagesOffered(e820: seq<Entry>) {
    && Offered(e820, DYNMEM_START_PHYS)
    && Offered(e820, DYNMEM_START_PHYS + PAGE_SIZE)
    && Offered(e820, DYNMEM_START_PHYS + 2 * PAGE_SIZE)
  }

  lemma MapReady(e820: seq<Entry>, m: seq<Entry>, mem: Memory)
    requires WellFormed(m) && Ram(e820, mem) && TmpState(mem) && FirstPagesOffered(e820)
    requires forall p: nat :: Aligned(p) ==> (HasPage(m, p) <==> Offered(e820, p))
    ensures Pages(m) >= 3 && Frames(m, mem) && TmpPages(m, mem) && (TmpClean(mem) ==> CleanTmp(m, mem))
  {
    hide WellFormed, Frame, HasPage, Offered, Lookup, Pages;
    var s := DYNMEM_START_PHYS;
    forall i: nat | i < 3 ensures HasPage(m, s + i * PAGE_SIZE) {
      assert Aligned(s + i * PAGE_SIZE);
    }
    FirstFrames(m);
    assert Frame(m, 0) == s + 0 * PAGE_SIZE && Frame(m, 1) == s + 1 * PAGE_SIZE && Frame(m, 2) == s + 2 * PAGE_SIZE;
    forall n: nat | n < Pages(m) ensures Frame(m, n) in mem && |mem[Frame(m, n)]| == ENTRIES {
      FrameInMap(m, n);
    }
  }

  /** Pages left for the heap. */
  function HeapPages(n: nat): int { n - TablePages(n) }

  lemma HeapPagesFacts(n: nat)
    requires n >= 3
    ensures HeapPages(n) >= 0
  {
  }

  /** The heap can be set up: the root table is large enough, and BuddyBlock::new does not panic. */
  predicate Enough(n: nat) {
    FIRST_VPN + n <= Cap(3) && HeapPages(n) >= 3 && !BuddyInfo.MetadataFillsPages(HeapPages(n))
  }

  /** A machine with 15499 pages of dynamic memory, 60.5 MB, does not boot: the tables leave 15466 for the
      heap. */
  lemma BootPanics()
    ensures HeapPages(15499) == 15466 && !Enough(15499)
  {
    hide BuddyInfo.MetadataFillsPages;
    BuddyInfo.NewPanics();
  }

  /** init_dyn_page, with create_tmp_page's work given; ok == false stands for a panic of the walker. */
  method InitDynPage(m: seq<Entry>, mem0: Memory)
    returns (ok: bool, walker: PageInitWalker, totalLen: nat, pageTableLen: nat)
    requires WellFormed(m) && Pages(m) >= 3 && Frames(m, mem0) && TmpPages(m, mem0)
    ensures fresh(walker) && walker.memoryMap == m
    ensures ok <==> FIRST_VPN + Pages(m) <= Cap(3)
    ensures ok ==> walker.Valid(4)
    ensures ok ==> TranslatesAs(walker.mem, m) && (CleanTmp(m, mem0) ==> NothingElse(walker.mem, m))
    ensures ok ==> totalLen == Pages(m) * PAGE_SIZE
    ensures ok ==> pageTableLen == TablePages(Pages(m)) * PAGE_SIZE == walker.nextTable * PAGE_SIZE
  {
    hide WellFormed, Frame, Frames, TmpPages, Pages, TranslatesAs, NothingElse, CleanTmp, OnlySet, TablePages, PageInitWalker.Told, PageInitWalker.Valid, Good;
    walker := new PageInitWalker(m, mem0);
    ok, totalLen, pageTableLen := walker.CreateDynPage();
    TotalOf(m);
  }

  /** init_dyn_alloc; a null heap stands for a panic of BuddyBlock::new. */
  method InitDynAlloc(totalLen: nat, pageTableLen: nat) returns (heap: BuddyAllocator.BuddyBlock?)
    requires pageTableLen <= totalLen <= BuddyAllocator.MAX_LEN && totalLen % PAGE_SIZE == 0 && pageTableLen % PAGE_SIZE == 0
    ensures heap == null <==> var n := (totalLen - pageTableLen) / PAGE_SIZE; n < 3 || BuddyInfo.MetadataFillsPages(n)
    ensures heap != null ==>
              && fresh(heap) && fresh(heap.bits) && fresh(heap.counts)
              && heap.Valid() && heap.live == map[]
              && heap.info.rawAddr == DYNMEM_START_VIRT + pageTableLen
              && heap.info.totalLen == totalLen - pageTableLen
  {
    hide BuddyInfo.MetadataFillsPages, BuddyAllocator.BuddyBlock.Valid;
    var start := DYNMEM_START_VIRT + pageTableLen;
    var len := totalLen - pageTableLen;
    assert CeilDiv(len, PAGE_SIZE) == len / PAGE_SIZE;
    heap := BuddyAllocator.BuddyBlock.Create(start, len);
  }

  /** init_memory, with create_tmp_page's work given. It panics, shown as ok == false, exactly if there is
      not enough memory, too much of it, or an amount on which BuddyBlock::new panics. Otherwise the pages
      mapped are exactly those that the e820 list offers, a hardware walk finds for each what the linear
      search finds, and the heap is empty and starts behind the tables. */
  method InitMemory(e820: seq<Entry>, buffer: array<Entry>, mem0: Memory)
    returns (ok: bool, m: seq<Entry>, walker: PageInitWalker?, heap: BuddyAllocator.BuddyBlock?)
    requires |e820| <= buffer.Length && forall i :: 0 <= i < |e820| ==> NoWrap(e820[i])
    requires Ram(e820, mem0) && TmpState(mem0) && FirstPagesOffered(e820)
    modifies buffer
    ensures WellFormed(m) && Pages(m) >= 3
    ensures forall p: nat :: Aligned(p) ==> (HasPage(m, p) <==> Offered(e820, p))
    ensures ok <==> Enough(Pages(m))
    ensures ok ==>
              && walker != null && heap != null && walker.memoryMap == m && walker.Valid(4)
              && TranslatesAs(walker.mem, m) && (TmpClean(mem0) ==> NothingElse(walker.mem, m))
              && heap.Valid() && heap.live == map[]
              && heap.info.rawAddr == DYNMEM_START_VIRT + walker.nextTable * PAGE_SIZE
              && heap.info.rawAddr + heap.info.totalLen == DYNMEM_START_VIRT + TotalLen(m)
              && forall a: nat :: heap.info.rawAddr <= a < heap.info.rawAddr + heap.info.totalLen ==>
                   Translate(walker.mem, a).Some? && Translate(walker.mem, a) == PhysAt(m, a - DYNMEM_START_VIRT)
  {
    hide WellFormed, HasPage, Offered, Pages, Translate, TranslatesAs, NothingElse, TmpClean, CleanTmp, PhysAt, TotalLen, TablePages, Ram, TmpState, NoWrap, Good, Frames, TmpPages;
    hide BuddyInfo.MetadataFillsPages, BuddyAllocator.BuddyBlock.Valid, PageInitWalker.Valid, FirstPagesOffered, Aligned;
    var len := CreateDynmemMap(e820, buffer);
    m := buffer[..len];
    MapReady(e820, m, mem0);
    heap := null;
    var totalLen, pageTableLen;
    ok, walker, totalLen, pageTableLen := InitDynPage(m, mem0);
    if !ok {
      return;
    }
    HeapLengths(Pages(m), totalLen, pageTableLen);
    heap := InitDynAlloc(totalLen, pageTableLen);
    ok := heap != null;
    if ok {
      TotalOf(m);
      HeapTranslated(m, walker.mem, heap.info.rawAddr, heap.info.totalLen);
    }
  }

  /** Every byte of the heap is mapped. */
  lemma HeapTranslated(m: seq<Entry>, mem: Memory, start: nat, len: nat)
    requires WellFormed(m) && TranslatesAs(mem, m)
    requires DYNMEM_START_VIRT <= start && start + len == DYNMEM_START_VIRT + TotalLen(m)
    ensures forall a: nat :: start <= a < start + len ==>
              Translate(mem, a).Some? && Translate(mem, a) == PhysAt(m, a - DYNMEM_START_VIRT)
  {
    hide WellFormed, PhysAt, Translate, TotalLen;
    forall a: nat | start <= a < start + len
      ensures Translate(mem, a).Some? && Translate(mem, a) == PhysAt(m, a - DYNMEM_START_VIRT)
    {
      PhysAtInverse(m, a - DYNMEM_START_VIRT);
    }
  }

  lemma HeapLengths(pages: nat, totalLen: nat, pageTableLen: nat)
    requires 3 <= pages && FIRST_VPN + pages <= Cap(3)
    requires totalLen == pages * PAGE_SIZE && pageTableLen == TablePages(pages) * PAGE_SIZE
    ensures pageTableLen <= totalLen <= BuddyAllocator.MAX_LEN
    ensures totalLen % PAGE_SIZE == 0 && pageTableLen % PAGE_SIZE == 0
    ensures (totalLen - pageTableLen) / PAGE_SIZE == HeapPages(pages)
  {
    hide TablePages;
    HeapPagesFacts(pages);
  }

  lemma TotalOf(m: seq<Entry>)
    requires WellFormed(m)
    ensures TotalLen(m) == Pages(m) * PAGE_SIZE
  {
    TotalAligned(m);
  }
}
