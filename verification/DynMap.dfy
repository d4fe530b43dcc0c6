/** The map of dynamic memory (kernel/src/memory.rs): normalising the BIOS e820 list into disjoint
    runs of pages, and translating between the two address spaces of that memory. */
module DynMap {
  import opened Options

  const DYNMEM_START_PHYS: nat := 0x00800000
  const PAGE_SIZE: nat := 4096
  const USABLE: nat := 1
  const WORD: nat := 0x1_0000_0000_0000_0000

  datatype Entry = Entry(base: nat, size: nat, memType: nat, attrib: nat)
  {
    function End(): nat { base + size }
  }

  function RoundUp(x: nat): nat { (x + PAGE_SIZE - 1) / PAGE_SIZE * PAGE_SIZE }

  function RoundDown(x: nat): nat { x / PAGE_SIZE * PAGE_SIZE }

  function Max(x: nat, y: nat): nat { if x < y then y else x }

  predicate Aligned(x: nat) { x % PAGE_SIZE == 0 }

  // ---------------------------------------------------------------- slice_remove

  /** The elements that p does not remove, in order. */
  function Kept<T>(s: seq<T>, p: T -> bool): seq<T> {
    if s == [] then []
    else
      var rest := Kept(s[..|s| - 1], p);
      if p(s[|s| - 1]) then rest else rest + [s[|s| - 1]]
  }

  lemma {:induction false} KeptFront<T>(x: T, s: seq<T>, p: T -> bool)
    ensures Kept([x] + s, p) == (if p(x) then [] else [x]) + Kept(s, p)
  {
    if s == [] {
      assert [x] + s == [x];
      assert Kept([x][..0], p) == [];
    } else {
      KeptFront(x, s[..|s| - 1], p);
      assert ([x] + s)[..|s|] == [x] + s[..|s| - 1];
    }
  }

  lemma {:induction false} KeptAll<T>(s: seq<T>, p: T -> bool)
    requires forall i :: 0 <= i < |s| ==> !p(s[i])
    ensures Kept(s, p) == s
  {
    if s != [] {
      KeptAll(s[..|s| - 1], p);
    }
  }

  /** The index of the first element among the first len that p removes, or len. */
  method Position<T>(a: array<T>, len: nat, p: T -> bool) returns (first: nat)
    requires len <= a.Length
    ensures first <= len && (first < len ==> p(a[first]))
    ensures forall i :: 0 <= i < first ==> !p(a[i])
  {
    first := 0;
    while first < len && !p(a[first])
      invariant 0 <= first <= len
      invariant forall i :: 0 <= i < first ==> !p(a[i])
    {
      first := first + 1;
    }
  }

  method Swap<T>(a: array<T>, i: nat, j: nat)
    requires i < a.Length && j < a.Length
    modifies a
    ensures a[i] == old(a[j]) && a[j] == old(a[i])
    ensures forall k :: 0 <= k < a.Length && k != i && k != j ==> a[k] == old(a[k])
    ensures multiset(a[..]) == multiset(old(a[..]))
  {
    a[i], a[j] := a[j], a[i];
  }

  /** slice_remove on the first len elements: what is kept moves to the front, in order, by swaps. */
  method SliceRemove<T>(a: array<T>, len: nat, p: T -> bool) returns (first: nat)
    requires len <= a.Length
    modifies a
    ensures first <= len && a[..first] == Kept(old(a[..len]), p)
    ensures multiset(a[..]) == multiset(old(a[..]))
  {
    hide Kept;
    ghost var s := a[..];
    first := Position(a, len, p);
    KeptAll(a[..first], p);
    if first == len {
      return;
    }
    KeptStep(s, first, p);
    var i := first + 1;
    while i < len
      invariant first < i <= len
      invariant a[..first] == Kept(s[..i], p)
      invariant forall k :: i <= k < a.Length ==> a[k] == s[k]
      invariant multiset(a[..]) == multiset(s)
    {
      KeptStep(s, i, p);
      if !p(a[i]) {
        ghost var front := a[..first];
        Swap(a, first, i);
        assert a[..first + 1] == front + [s[i]];
        first := first + 1;
      }
      i := i + 1;
    }
    assert old(a[..len]) == s[..len];
  }

  lemma KeptStep<T>(s: seq<T>, i: nat, p: T -> bool)
    requires i < |s|
    ensures Kept(s[..i + 1], p) == if p(s[i]) then Kept(s[..i], p) else Kept(s[..i], p) + [s[i]]
  {
    assert s[..i + 1][..i] == s[..i];
  }

  // ---------------------------------------------------------------- sorting

  predicate SortedByBase(s: seq<Entry>) {
    forall i, j :: 0 <= i < j < |s| ==> s[i].base <= s[j].base
  }

  /** sort_unstable_by_key: some rearrangement sorted by base. Callers see only this contract, so
      what is proved of them holds for any order of entries with the same base. */
  method SortByBase(a: array<Entry>, len: nat)
    requires len <= a.Length
    modifies a
    ensures SortedByBase(a[..len]) && multiset(a[..len]) == multiset(old(a[..len]))
  {
    var s := Sorted(a[..len]);
    assert |s| == |multiset(s)| == |multiset(a[..len])| == len;
    forall i | 0 <= i < len {
      a[i] := s[i];
    }
    assert a[..len] == s;
  }

  method Sorted(s: seq<Entry>) returns (r: seq<Entry>)
    ensures SortedByBase(r) && multiset(r) == multiset(s)
  {
    r := [];
    var n := 0;
    while n < |s|
      invariant 0 <= n <= |s|
      invariant SortedByBase(r) && multiset(r) == multiset(s[..n])
    {
      assert s[..n + 1] == s[..n] + [s[n]];
      r := Insert(s[n], r);
      n := n + 1;
    }
    assert s[..n] == s;
  }

  method Insert(x: Entry, s: seq<Entry>) returns (r: seq<Entry>)
    requires SortedByBase(s)
    ensures SortedByBase(r) && multiset(r) == multiset(s) + multiset{x}
  {
    var i := 0;
    while i < |s| && s[i].base < x.base
      invariant 0 <= i <= |s|
      invariant forall k :: 0 <= k < i ==> s[k].base < x.base
    {
      i := i + 1;
    }
    r := s[..i] + [x] + s[i..];
    InsertedSorted(x, s, i);
    assert multiset(r) == multiset(s) + multiset{x} by {
      assert s == s[..i] + s[i..];
    }
  }

  lemma InsertedSorted(x: Entry, s: seq<Entry>, i: nat)
    requires SortedByBase(s) && i <= |s|
    requires (forall k :: 0 <= k < i ==> s[k].base < x.base) && (i < |s| ==> x.base <= s[i].base)
    ensures SortedByBase(s[..i] + [x] + s[i..])
  {
    var r := s[..i] + [x] + s[i..];
    forall j, k | 0 <= j < k < |r| ensures r[j].base <= r[k].base {
      var a, b := if j < i then j else j - 1, if k < i then k else k - 1;
      assert j != i ==> r[j] == s[a];
      assert k != i ==> r[k] == s[b];
    }
  }

  // ---------------------------------------------------------------- normalising

  predicate Usable(e: Entry) { e.memType == USABLE }

  /** What becomes of the entries of a sorted list once everything below `prevEnd` is taken. */
  function Normalised(s: seq<Entry>, prevEnd: nat): (r: seq<Entry>)
    ensures |r| == |s|
  {
    if s == [] then [] else
    var e := s[0];
    if !Usable(e) then [e] + Normalised(s[1..], prevEnd) else
    var start, end := Max(prevEnd, RoundUp(e.base)), RoundDown(e.End());
    if start < end then [e.(base := start, size := end - start)] + Normalised(s[1..], end)
    else [e.(memType := 0)] + Normalised(s[1..], prevEnd)
  }

  function Runs(s: seq<Entry>, prevEnd: nat): seq<Entry> {
    Kept(Normalised(s, prevEnd), (e: Entry) => e.memType != USABLE)
  }

  /** No arithmetic on the entry leaves 64 bits. */
  predicate NoWrap(e: Entry) {
    Usable(e) ==> e.base + e.size < 0x1_0000_0000_0000_0000 && RoundUp(e.base) < 0x1_0000_0000_0000_0000
  }

  /** The loop of create_dynmem_map over the sorted entries. */
  method NormaliseInPlace(buffer: array<Entry>, n: nat)
    requires n <= buffer.Length
    requires forall i :: 0 <= i < n ==> NoWrap(buffer[i])
    modifies buffer
    ensures buffer[..n] == Normalised(old(buffer[..n]), DYNMEM_START_PHYS)
  {
    hide RoundUp, RoundDown, Normalised;
    ghost var sorted := buffer[..n];
    var prevEnd := DYNMEM_START_PHYS;
    ghost var goal := Normalised(sorted, prevEnd);
    assert sorted[0..] == sorted && buffer[..0] + goal == goal;
    var i := 0;
    while i < n
      invariant 0 <= i <= n
      invariant forall k :: i <= k < n ==> buffer[k] == sorted[k]
      invariant buffer[..i] + Normalised(sorted[i..], prevEnd) == goal
    {
      ghost var done := buffer[..i];
      NormalisedStep(sorted, i, prevEnd);
      var entry := buffer[i];
      if entry.memType == USABLE {
        assert NoWrap(sorted[i]);
        var start := entry.base;
        var end := entry.base + entry.size;
        assert end < WORD;
        var alignStart := Max(prevEnd, RoundUp(start));
        var alignEnd := RoundDown(end);
        if alignStart < alignEnd {
          buffer[i] := entry.(base := alignStart, size := alignEnd - alignStart);
          prevEnd := alignEnd;
        } else {
          buffer[i] := entry.(memType := 0);
        }
      }
      assert buffer[..i + 1] == done + [buffer[i]];
      Associate(done, buffer[i], Normalised(sorted[i + 1..], prevEnd));
      i := i + 1;
    }
    NormalisedNil(prevEnd);
    assert sorted[n..] == [] && buffer[..n] + [] == buffer[..n];
  }

  lemma Associate<T>(s: seq<T>, x: T, t: seq<T>)
    ensures s + ([x] + t) == (s + [x]) + t
  {
  }

  /** create_dynmem_map: the map is buffer[..len]. The list must fit the buffer. */
  method CreateDynmemMap(e820: seq<Entry>, buffer: array<Entry>) returns (len: nat)
    requires |e820| <= buffer.Length
    requires forall i :: 0 <= i < |e820| ==> NoWrap(e820[i])
    modifies buffer
    ensures len <= buffer.Length && WellFormed(buffer[..len])
    ensures forall p: nat :: Aligned(p) ==> (HasPage(buffer[..len], p) <==> Offered(e820, p))
  {
    hide RoundUp, RoundDown, Normalised, Kept, HasPage, WellFormed;
    var n := |e820|;
    forall i | 0 <= i < n {
      buffer[i] := e820[i];
    }
    assert buffer[..n] == e820;
    SortByBase(buffer, n);
    ghost var sorted := buffer[..n];
    SameElements(sorted, e820);
    NormaliseInPlace(buffer, n);
    len := SliceRemove(buffer, n, (e: Entry) => e.memType != USABLE);
    assert buffer[..len] == Runs(sorted, DYNMEM_START_PHYS);
    RunsWellFormed(sorted, DYNMEM_START_PHYS);
    forall p: nat | Aligned(p) ensures HasPage(buffer[..len], p) <==> Offered(e820, p) {
      RunsExact(sorted, DYNMEM_START_PHYS, p);
      OfferedIsPage(sorted, p);
      OfferedSame(sorted, e820, p);
    }
  }

  lemma OfferedIsPage(s: seq<Entry>, p: nat)
    ensures Offered(s, p) <==> p >= DYNMEM_START_PHYS && HasPage(s, p)
  {
  }

  lemma SameElements(s: seq<Entry>, t: seq<Entry>)
    requires multiset(s) == multiset(t)
    ensures forall e :: e in s <==> e in t
    ensures (forall i :: 0 <= i < |t| ==> NoWrap(t[i])) ==> forall i :: 0 <= i < |s| ==> NoWrap(s[i])
  {
    forall e ensures e in s <==> e in t {
      assert e in s <==> e in multiset(s);
      assert e in t <==> e in multiset(t);
    }
    if forall i :: 0 <= i < |t| ==> NoWrap(t[i]) {
      forall i | 0 <= i < |s| ensures NoWrap(s[i]) {
        assert s[i] in t;
      }
    }
  }

  lemma NormalisedNil(prevEnd: nat)
    ensures Normalised([], prevEnd) == []
  {
  }

  lemma NormalisedStep(s: seq<Entry>, i: nat, prevEnd: nat)
    requires i < |s|
    ensures var e := s[i];
            var start, end := Max(prevEnd, RoundUp(e.base)), RoundDown(e.End());
            Normalised(s[i..], prevEnd) ==
            if !Usable(e) then [e] + Normalised(s[i + 1..], prevEnd)
            else if start < end then [e.(base := start, size := end - start)] + Normalised(s[i + 1..], end)
            else [e.(memType := 0)] + Normalised(s[i + 1..], prevEnd)
  {
    assert s[i..][0] == s[i] && s[i..][1..] == s[i + 1..];
  }

  // ---------------------------------------------------------------- what the map is

  /** Page-aligned, nonempty, usable runs above the start of dynamic memory, in increasing order and
      without overlap. */
  predicate WellFormed(m: seq<Entry>) {
    && (forall i :: 0 <= i < |m| ==> GoodRun(m[i]))
    && (forall i, j :: 0 <= i < j < |m| ==> m[i].base + m[i].size <= m[j].base)
  }

  predicate GoodRun(e: Entry) {
    Usable(e) && Aligned(e.base) && Aligned(e.size) && e.size > 0 && e.base >= DYNMEM_START_PHYS
  }

  /** The page at p lies inside the entry. */
  predicate Holds(e: Entry, p: nat) {
    e.memType == 1 && e.base <= p && p + 4096 <= e.base + e.size
  }

  predicate HasPage(m: seq<Entry>, p: nat) {
    exists i :: 0 <= i < |m| && Holds(m[i], p)
  }

  /** The page at p is one the kernel may use: above the start of dynamic memory and wholly inside a
      single usable entry. */
  predicate Offered(e820: seq<Entry>, p: nat) {
    p >= 0x00800000 && exists i :: 0 <= i < |e820| && Holds(e820[i], p)
  }

  lemma OfferedSame(s: seq<Entry>, t: seq<Entry>, p: nat)
    requires forall e :: e in s <==> e in t
    ensures Offered(s, p) <==> Offered(t, p)
  {
    if Offered(s, p) {
      var i :| 0 <= i < |s| && Holds(s[i], p);
      assert s[i] in t;
    }
    if Offered(t, p) {
      var i :| 0 <= i < |t| && Holds(t[i], p);
      assert t[i] in s;
    }
  }

  lemma Rounding(x: nat, p: nat)
    requires Aligned(p)
    ensures Aligned(RoundUp(x)) && Aligned(RoundDown(x))
    ensures x <= p <==> RoundUp(x) <= p
    ensures p <= x <==> p <= RoundDown(x)
    ensures p + PAGE_SIZE <= x <==> p < RoundDown(x)
  {
  }

  lemma RunsCons(s: seq<Entry>, prevEnd: nat)
    requires s != []
    ensures var e := s[0];
            var start, end := Max(prevEnd, RoundUp(e.base)), RoundDown(e.End());
            Runs(s, prevEnd) ==
            if Usable(e) && start < end then
              [e.(base := start, size := end - start)] + Runs(s[1..], end)
            else Runs(s[1..], prevEnd)
  {
    hide RoundUp, RoundDown;
    var p := (e: Entry) => e.memType != USABLE;
    var n := Normalised(s, prevEnd);
    KeptFront(n[0], n[1..], p);
    assert n == [n[0]] + n[1..];
  }

  lemma {:induction false} RunsWellFormed(s: seq<Entry>, prevEnd: nat)
    requires Aligned(prevEnd) && prevEnd >= DYNMEM_START_PHYS
    ensures WellFormed(Runs(s, prevEnd))
    ensures forall i :: 0 <= i < |Runs(s, prevEnd)| ==> prevEnd <= Runs(s, prevEnd)[i].base
    decreases |s|
  {
    hide RoundUp, RoundDown, WellFormed, Runs;
    if s == [] {
      NoRuns(prevEnd);
    } else {
      var e := s[0];
      var start, end := Max(prevEnd, RoundUp(e.base)), RoundDown(e.End());
      RunsCons(s, prevEnd);
      Rounding(e.base, prevEnd);
      Rounding(e.End(), prevEnd);
      if Usable(e) && start < end {
        RunsWellFormed(s[1..], end);
        AlignedDifference(start, end);
        WellFormedCons(e.(base := start, size := end - start), Runs(s[1..], end));
      } else {
        RunsWellFormed(s[1..], prevEnd);
      }
    }
  }

  lemma NoRuns(prevEnd: nat)
    ensures Runs([], prevEnd) == [] && WellFormed([])
  {
  }

  lemma WellFormedCons(e: Entry, m: seq<Entry>)
    requires GoodRun(e) && WellFormed(m)
    requires forall i :: 0 <= i < |m| ==> e.End() <= m[i].base
    ensures WellFormed([e] + m)
  {
  }

  lemma AlignedDifference(x: nat, y: nat)
    requires Aligned(x) && Aligned(y) && x <= y
    ensures Aligned(y - x)
  {
  }

  lemma HasPageCons(e: Entry, m: seq<Entry>, p: nat)
    ensures HasPage([e] + m, p) <==> Holds(e, p) || HasPage(m, p)
  {
    var s := [e] + m;
    assert s[0] == e;
    if HasPage(m, p) {
      var i :| 0 <= i < |m| && Holds(m[i], p);
      assert s[i + 1] == m[i];
    }
    if HasPage(s, p) {
      var i :| 0 <= i < |s| && Holds(s[i], p);
      assert i > 0 ==> s[i] == m[i - 1];
    }
  }

  /** The runs of a sorted list hold exactly the pages from prevEnd on that lie wholly inside some
      usable entry of the list. */
  lemma {:induction false} RunsExact(s: seq<Entry>, prevEnd: nat, p: nat)
    requires SortedByBase(s) && Aligned(prevEnd) && Aligned(p)
    ensures HasPage(Runs(s, prevEnd), p) <==> prevEnd <= p && HasPage(s, p)
    decreases |s|
  {
    hide RoundUp, RoundDown, Runs, HasPage;
    if s == [] {
      RunsNil(prevEnd, p);
    } else {
      var e := s[0];
      var start, end := Max(prevEnd, RoundUp(e.base)), RoundDown(e.End());
      RunsCons(s, prevEnd);
      assert s == [e] + s[1..];
      HasPageCons(e, s[1..], p);
      Rounding(e.base, p);
      Rounding(e.End(), p);
      Rounding(e.End(), prevEnd);
      HoldsAligned(e, p);
      if Usable(e) && start < end {
        var r := e.(base := start, size := end - start);
        HasPageCons(r, Runs(s[1..], end), p);
        RunsExact(s[1..], end, p);
        HoldsAligned(r, p);
        Rounding(end, p);
        NotBefore(s, p);
      } else {
        RunsExact(s[1..], prevEnd, p);
      }
    }
  }

  lemma RunsNil(prevEnd: nat, p: nat)
    ensures !HasPage(Runs([], prevEnd), p) && !HasPage([], p)
  {
  }

  lemma HoldsAligned(e: Entry, p: nat)
    requires Aligned(p)
    ensures Holds(e, p) <==> Usable(e) && RoundUp(e.base) <= p < RoundDown(e.End())
  {
    hide RoundUp, RoundDown;
    Rounding(e.base, p);
    Rounding(e.End(), p);
  }

  /** In a sorted list no later entry holds a page below the first entry. */
  lemma NotBefore(s: seq<Entry>, p: nat)
    requires s != [] && SortedByBase(s)
    ensures HasPage(s[1..], p) ==> s[0].base <= p
  {
    if HasPage(s[1..], p) {
      var i :| 0 <= i < |s[1..]| && Holds(s[1..][i], p);
      assert s[1..][i] == s[i + 1];
    }
  }

  // ---------------------------------------------------------------- translation

  /** Bytes of memory in the map. */
  function TotalLen(m: seq<Entry>): nat {
    if m == [] then 0 else m[0].size + TotalLen(m[1..])
  }

  /** The physical address at an offset into the mapped memory, by walking down the runs. */
  function PhysAt(m: seq<Entry>, offset: nat): Option<nat> {
    if m == [] then None
    else if offset < m[0].size then Some(m[0].base + offset)
    else PhysAt(m[1..], offset - m[0].size)
  }

  function OffsetOf(m: seq<Entry>, phys: nat): Option<nat> {
    if m == [] then None
    else if m[0].base <= phys < m[0].End() then Some(phys - m[0].base)
    else match OffsetOf(m[1..], phys)
         case None => None
         case Some(o) => Some(m[0].size + o)
  }

  /** virt_to_phys_dynmem; None is its panic. */
  method VirtToPhys(virt: nat, m: seq<Entry>, startVirt: nat) returns (r: Option<nat>)
    requires startVirt <= virt
    ensures r == PhysAt(m, virt - startVirt)
  {
    var offset := virt - startVirt;
    var sum, i := 0, 0;
    assert m[0..] == m;
    while i < |m|
      invariant 0 <= i <= |m| && sum <= offset
      invariant PhysAt(m, offset) == PhysAt(m[i..], offset - sum)
    {
      var oldSum := sum;
      sum := sum + m[i].size;
      assert m[i..][1..] == m[i + 1..];
      if offset < sum {
        return Some(m[i].base + (offset - oldSum));
      }
      i := i + 1;
    }
    return None;
  }

  /** phys_to_virt_dynmem; None is its panic. */
  method PhysToVirt(phys: nat, m: seq<Entry>, startVirt: nat) returns (r: Option<nat>)
    ensures r == match OffsetOf(m, phys) case None => None case Some(o) => Some(startVirt + o)
  {
    var sum, i := 0, 0;
    assert m[0..] == m;
    while i < |m|
      invariant 0 <= i <= |m|
      invariant OffsetOf(m, phys) ==
                match OffsetOf(m[i..], phys) case None => None case Some(o) => Some(sum + o)
    {
      assert m[i..][1..] == m[i + 1..];
      if m[i].base <= phys < m[i].End() {
        return Some(startVirt + sum + (phys - m[i].base));
      }
      sum := sum + m[i].size;
      i := i + 1;
    }
    return None;
  }

  /** Every offset below the total length has a physical address, inside a run of the map, and that
      address leads back; no other offset has one. */
  lemma {:induction false} PhysAtInverse(m: seq<Entry>, offset: nat)
    requires WellFormed(m)
    ensures PhysAt(m, offset).Some? <==> offset < TotalLen(m)
    ensures offset < TotalLen(m) ==>
              var p := PhysAt(m, offset).value;
              && InMap(m, p)
              && OffsetOf(m, p) == Some(offset)
  {
    if m == [] {
    } else if offset < m[0].size {
    } else {
      PhysAtInverse(m[1..], offset - m[0].size);
      if offset < TotalLen(m) {
        var p := PhysAt(m, offset).value;
        InMapTail(m, p);
      }
    }
  }

  /** The address lies in some run of the map. */
  predicate InMap(m: seq<Entry>, phys: nat) {
    exists i :: 0 <= i < |m| && m[i].base <= phys < m[i].base + m[i].size
  }

  lemma InMapTail(m: seq<Entry>, phys: nat)
    requires m != [] && WellFormed(m)
    ensures InMap(m, phys) <==> m[0].base <= phys < m[0].End() || InMap(m[1..], phys)
    ensures InMap(m[1..], phys) ==> m[0].End() <= phys
  {
    if InMap(m[1..], phys) {
      var i :| 0 <= i < |m[1..]| && m[1..][i].base <= phys < m[1..][i].End();
      assert m[1..][i] == m[i + 1];
    }
    if InMap(m, phys) {
      var i :| 0 <= i < |m| && m[i].base <= phys < m[i].End();
      assert i > 0 ==> m[i] == m[1..][i - 1];
    }
  }

  /** Every physical address in a run of the map has an offset, below the total length, that leads
      back; no other address has one. */
  lemma {:induction false} OffsetOfInverse(m: seq<Entry>, phys: nat)
    requires WellFormed(m)
    ensures OffsetOf(m, phys).Some? <==> InMap(m, phys)
    ensures InMap(m, phys) ==>
              var o := OffsetOf(m, phys).value;
              o < TotalLen(m) && PhysAt(m, o) == Some(phys)
  {
    if m == [] {
    } else {
      InMapTail(m, phys);
      OffsetOfInverse(m[1..], phys);
    }
  }

  /** Page n of the mapped memory is one page: its bytes are contiguous and it is page-aligned. */
  lemma {:induction false} WholePage(m: seq<Entry>, n: nat, d: nat)
    requires WellFormed(m) && n * PAGE_SIZE < TotalLen(m) && d < PAGE_SIZE
    ensures PhysAt(m, n * PAGE_SIZE).Some? && Aligned(PhysAt(m, n * PAGE_SIZE).value)
    ensures PhysAt(m, n * PAGE_SIZE + d) == Some(PhysAt(m, n * PAGE_SIZE).value + d)
    ensures PhysAt(m, n * PAGE_SIZE).value >= DYNMEM_START_PHYS
    decreases |m|
  {
    var k := m[0].size / PAGE_SIZE;
    assert GoodRun(m[0]);
    assert m[0].size == k * PAGE_SIZE;
    if n < k {
    } else {
      WholePage(m[1..], n - k, d);
    }
  }

  lemma {:induction false} TotalAligned(m: seq<Entry>)
    requires WellFormed(m)
    ensures Aligned(TotalLen(m))
  {
    if m != [] {
      assert GoodRun(m[0]);
      TotalAligned(m[1..]);
    }
  }

  /** The bytes before run i, and what is found d bytes into it. */
  lemma {:induction false} PhysAtRun(m: seq<Entry>, i: nat, d: nat)
    requires i < |m| && d < m[i].size
    ensures PhysAt(m, TotalLen(m[..i]) + d) == Some(m[i].base + d)
    ensures TotalLen(m[..i]) + m[i].size == TotalLen(m[..i + 1]) <= TotalLen(m)
  {
    if i == 0 {
      assert m[..1] == [m[0]] && m[..1][1..] == [];
    } else {
      PhysAtRun(m[1..], i - 1, d);
      assert m[..i][1..] == m[1..][..i - 1] && m[..i + 1][1..] == m[1..][..i];
    }
  }

  /** Translation keeps the order of addresses. */
  lemma {:induction false} PhysAtIncreases(m: seq<Entry>, a: nat, b: nat)
    requires WellFormed(m) && a < b < TotalLen(m)
    ensures PhysAt(m, a).Some? && PhysAt(m, b).Some? && PhysAt(m, a).value < PhysAt(m, b).value
    decreases |m|
  {
    hide OffsetOf, InMap, Aligned;
    PhysAtInverse(m, a);
    PhysAtInverse(m, b);
    if a >= m[0].size {
      PhysAtIncreases(m[1..], a - m[0].size, b - m[0].size);
    } else if b >= m[0].size {
      PhysAtInverse(m[1..], b - m[0].size);
      InMapTail(m, PhysAt(m, b).value);
    }
  }

  /** A page of the map holds its first byte, and conversely for an aligned address. */
  lemma PageInMap(m: seq<Entry>, p: nat)
    requires WellFormed(m) && Aligned(p)
    ensures HasPage(m, p) <==> InMap(m, p)
  {
    if InMap(m, p) {
      var i :| 0 <= i < |m| && m[i].base <= p < m[i].base + m[i].size;
      assert GoodRun(m[i]);
      AlignedBelow(p, m[i].base, m[i].size);
      assert Holds(m[i], p);
    }
    if HasPage(m, p) {
      var i :| 0 <= i < |m| && Holds(m[i], p);
      assert m[i].base <= p < m[i].base + m[i].size;
    }
  }

  lemma AlignedBelow(p: nat, base: nat, size: nat)
    requires Aligned(p) && Aligned(base) && Aligned(size) && p < base + size
    ensures p + PAGE_SIZE <= base + size
  {
  }

  /** The offset of a page is a whole number of pages. */
  lemma {:induction false} OffsetAligned(m: seq<Entry>, p: nat)
    requires WellFormed(m) && Aligned(p) && OffsetOf(m, p).Some?
    ensures Aligned(OffsetOf(m, p).value)
  {
    assert GoodRun(m[0]);
    if m[0].base <= p < m[0].End() {
      AlignedDifference(m[0].base, p);
    } else {
      OffsetAligned(m[1..], p);
    }
  }
}
