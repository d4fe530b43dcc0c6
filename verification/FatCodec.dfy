/** Packed forms of the file allocation table: FAT12 and "efat" (tools/edimg/edimg.c). */
module FatCodec {
  import opened Fat

  predicate Bytes(b: seq<nat>) {
    forall i :: 0 <= i < |b| ==> b[i] < 256
  }

  predicate Words(f: seq<nat>) {
    forall i :: 0 <= i < |f| ==> f[i] < 0x10000
  }

  /** FAT12 entry e as Microsoft's FAT File System Specification 1.03 reads it ("FAT Data Structure"):
      the 16-bit word at byte e + e / 2, its high 12 bits for an odd entry, its low 12 for an even one. */
  function Entry12(b: seq<nat>, e: nat): nat
    requires e + e / 2 + 1 < |b|
  {
    var word := b[e + e / 2] + 256 * b[e + e / 2 + 1];
    if e % 2 == 1 then word / 16 else word % 4096
  }

  /** The 12-bit reserved values, from 0xff7 on, become the 16-bit ones. */
  function Expand(v: nat): nat { if v >= 0xff7 then v + 0xf000 else v }

  lemma ExpandLow(v: nat)
    requires v < 4096
    ensures Expand(v) % 4096 == v && Expand(v) < 0x10000
  {
  }

  /** A 16-bit value survives being cut to 12 bits exactly if it is below 0xff7 or at least 0xfff7. */
  lemma ExpandCut(v: nat)
    requires v < 0x10000
    ensures Expand(v % 4096) == v <==> v < 0xff7 || v >= 0xfff7
  {
  }

  lemma EvenEntry(b: seq<nat>, n: nat)
    requires Bytes(b) && 3 * n + 1 < |b|
    ensures 2 * n + 2 * n / 2 == 3 * n && Entry12(b, 2 * n) == b[3 * n] + b[3 * n + 1] % 16 * 256 < 4096
  {
    assert 2 * n / 2 == n && 2 * n % 2 == 0;
    Word(b[3 * n], b[3 * n + 1]);
  }

  lemma OddEntry(b: seq<nat>, n: nat)
    requires Bytes(b) && 3 * n + 2 < |b|
    ensures 2 * n + 1 + (2 * n + 1) / 2 == 3 * n + 1
    ensures Entry12(b, 2 * n + 1) == b[3 * n + 1] / 16 + b[3 * n + 2] * 16 < 4096
  {
    assert (2 * n + 1) / 2 == n && (2 * n + 1) % 2 == 1;
    Word(b[3 * n + 1], b[3 * n + 2]);
  }

  /** Both entries of a group of three bytes. */
  lemma Group(b: seq<nat>, i: nat)
    requires Bytes(b) && i % 3 == 0 && i + 2 < |b|
    ensures var e := i / 3 * 2;
            && e + e / 2 == i && e + 1 + (e + 1) / 2 == i + 1
            && Entry12(b, e) == b[i] + b[i + 1] % 16 * 256
            && Entry12(b, e + 1) == b[i + 1] / 16 + b[i + 2] * 16
  {
    hide Entry12;
    EvenEntry(b, i / 3);
    OddEntry(b, i / 3);
  }

  lemma Word(x: nat, y: nat)
    requires x < 256 && y < 256
    ensures (x + 256 * y) % 4096 == x + y % 16 * 256
    ensures (x + 256 * y) / 16 == x / 16 + y * 16
  {
  }

  /** Loading a FAT12 table of len bytes from b, which goes on behind the table: the group loop reads up
      to the end of the group that the table ends in. */
  method Load12(b: seq<nat>, len: nat, fat: array<nat>)
    requires Bytes(b) && len > 0 && len + 2 <= |b| && fat.Length == FAT_ENTRIES && (len + 2) / 3 * 2 <= FAT_ENTRIES
    modifies fat
    ensures forall e :: 0 <= e < (len + 2) / 3 * 2 ==> e + e / 2 + 1 < |b| && fat[e] == Expand(Entry12(b, e))
    ensures forall e :: (len + 2) / 3 * 2 <= e < fat.Length ==> fat[e] == old(fat[e])
  {
    hide Entry12;
    var i, s := 0, 0;
    while i < len
      invariant 0 <= i && i % 3 == 0 && s == i / 3 * 2 && i <= (len + 2) / 3 * 3
      invariant forall e :: 0 <= e < s ==> e + e / 2 + 1 < |b| && fat[e] == Expand(Entry12(b, e))
      invariant forall e :: s <= e < fat.Length ==> fat[e] == old(fat[e])
    {
      GroupBounds(i, len);
      Group(b, i);
      var lo := b[i] + b[i + 1] % 16 * 256;
      var hi := b[i + 1] / 16 + b[i + 2] * 16;
      fat[s] := Expand(lo);
      fat[s + 1] := Expand(hi);
      i := i + 3;
      s := s + 2;
    }
  }

  lemma GroupBounds(i: nat, len: nat)
    requires i % 3 == 0 && i < len
    ensures i / 3 * 2 + 1 < (len + 2) / 3 * 2 && i + 3 <= (len + 2) / 3 * 3 && i + 2 < len + 2
    ensures (i + 3) / 3 * 2 == i / 3 * 2 + 2
  {
  }

  /** An entry that lies in the first len bytes. */
  predicate Fits(e: nat, len: nat) { e + e / 2 + 1 < len }

  /** What storing leaves alone: everything behind the table, a last byte that belongs to no entry, and the
      half of a last byte that belongs to none. */
  predicate LeftAlone(before: seq<nat>, after: seq<nat>, len: nat)
    requires |after| == |before| && len <= |before|
  {
    && (forall k :: len <= k < |before| ==> after[k] == before[k])
    && (len % 3 == 1 ==> after[len - 1] == before[len - 1])
    && (len % 3 == 2 ==> after[len - 1] / 16 == before[len - 1] / 16)
  }

  /** One group of the store loop of opt_imgout, starting at byte i. */
  function StoreGroup(b: seq<nat>, len: nat, i: nat, x: nat, y: nat): (r: seq<nat>)
    requires Bytes(b) && i < len <= |b|
    ensures |r| == |b| && Bytes(r)
  {
    var b1 := if i + 1 < len then b[i := x % 256][i + 1 := b[i + 1] / 16 * 16 + x / 256 % 16] else b;
    if i + 2 < len then b1[i + 1 := b1[i + 1] % 16 + y % 16 * 16][i + 2 := y / 16 % 256] else b1
  }

  /** The three bytes of a group after storing. */
  lemma StoreGroupBytes(b: seq<nat>, len: nat, i: nat, x: nat, y: nat)
    requires Bytes(b) && i < len <= |b|
    ensures var r := StoreGroup(b, len, i, x, y);
            && (i + 1 < len ==> r[i] == x % 256 && r[i + 1] % 16 == x / 256 % 16)
            && (i + 2 < len ==> r[i + 1] / 16 == y % 16 && r[i + 2] == y / 16 % 256)
            && (i + 1 == len ==> r == b) && (i + 2 == len ==> r[i + 1] / 16 == b[i + 1] / 16)
            && (forall k :: 0 <= k < |b| && !(i <= k < i + 3 && k < len) ==> r[k] == b[k])
  {
    if i + 1 < len {
      Mix(b[i + 1] / 16, x / 256 % 16);
      Mix(y % 16, x / 256 % 16);
    }
  }

  lemma Mix(h: nat, l: nat)
    requires l < 16
    ensures (h * 16 + l) % 16 == l && (h * 16 + l) / 16 == h
  {
  }

  lemma StoreGroupEntries(b: seq<nat>, len: nat, i: nat, x: nat, y: nat)
    requires Bytes(b) && i % 3 == 0 && i < len <= |b|
    ensures var r, e := StoreGroup(b, len, i, x, y), i / 3 * 2;
            && (forall k :: 0 <= k < |b| && !(i <= k < i + 3 && k < len) ==> r[k] == b[k])
            && (Fits(e, len) ==> Entry12(r, e) == x % 4096)
            && (Fits(e + 1, len) ==> Entry12(r, e + 1) == y % 4096)
            && (i + 1 == len ==> r == b) && (i + 2 == len ==> r[i + 1] / 16 == b[i + 1] / 16)
  {
    hide Entry12, StoreGroup, Bytes;
    var n, r := i / 3, StoreGroup(b, len, i, x, y);
    StoreGroupBytes(b, len, i, x, y);
    if i + 1 < len {
      EvenEntry(r, n);
      Nibbles(x);
    }
    if i + 2 < len {
      OddEntry(r, n);
      Nibbles(y);
    }
    WhereEntriesAre(n);
  }

  lemma WhereEntriesAre(n: nat)
    ensures 2 * n + 2 * n / 2 == 3 * n && 2 * n + 1 + (2 * n + 1) / 2 == 3 * n + 1
  {
  }

  lemma Nibbles(x: nat)
    ensures x % 256 + x / 256 % 16 * 256 == x % 4096
    ensures x % 16 + x / 16 % 256 * 16 == x % 4096
  {
    Cut(x, x / 256 / 16, x / 256 % 16 * 256 + x % 256);
    Cut(x, x / 16 / 256, x / 16 % 256 * 16 + x % 16);
  }

  lemma Cut(x: nat, h: nat, r: nat)
    requires x == 4096 * h + r && r < 4096
    ensures x % 4096 == r
  {
  }

  /** The writes of one group. */
  method WriteGroup(b: array<nat>, len: nat, i: nat, x: nat, y: nat)
    requires Bytes(b[..]) && i < len <= b.Length
    modifies b
    ensures b[..] == StoreGroup(old(b[..]), len, i, x, y)
  {
    if i + 1 < len {
      b[i] := x % 256;
      b[i + 1] := b[i + 1] / 16 * 16 + x / 256 % 16;
    }
    if i + 2 < len {
      b[i + 1] := b[i + 1] % 16 + y % 16 * 16;
      b[i + 2] := y / 16 % 256;
    }
  }

  /** Storing a FAT12 table: every entry that fits can be read back, cut to 12 bits. */
  method Store12(b: array<nat>, len: nat, f: seq<nat>)
    requires Bytes(b[..]) && len <= b.Length && (len + 2) / 3 * 2 <= |f|
    modifies b
    ensures Bytes(b[..]) && LeftAlone(old(b[..]), b[..], len)
    ensures forall e :: 0 <= e < |f| && Fits(e, len) ==> Entry12(b[..], e) == f[e] % 4096
  {
    hide Entry12, LeftAlone, StoreGroup, Bytes;
    ghost var before := b[..];
    NothingStored(before, len);
    var i, j := 0, 0;
    while i < len
      invariant 0 <= i && i % 3 == 0 && j == i / 3 * 2 && i <= (len + 2) / 3 * 3
      invariant Bytes(b[..])
      invariant forall k :: i <= k < b.Length ==> b[k] == before[k]
      invariant forall e :: 0 <= e < j && Fits(e, len) ==> Entry12(b[..], e) == f[e] % 4096
      invariant i >= len ==> LeftAlone(before, b[..], len)
    {
      GroupBounds(i, len);
      ghost var was: seq<nat> := b[..];
      StoreGroupEntries(was, len, i, f[j], f[j + 1]);
      WriteGroup(b, len, i, f[j], f[j + 1]);
      EarlierEntries(was, b[..], i, len);
      LastGroup(before, was, b[..], len, i);
      i := i + 3;
      j := j + 2;
    }
    EntriesInTable(len);
  }

  lemma NothingStored(b: seq<nat>, len: nat)
    requires len <= |b|
    ensures LeftAlone(b, b, len)
  {
  }

  /** The entries before a group lie before its bytes. */
  lemma EarlierEntries(was: seq<nat>, now: seq<nat>, i: nat, len: nat)
    requires |was| == |now| && i % 3 == 0 && i < len <= |was|
    requires forall k :: 0 <= k < i ==> now[k] == was[k]
    ensures forall e :: 0 <= e < i / 3 * 2 ==> Fits(e, len) && Entry12(now, e) == Entry12(was, e)
  {
    forall e | 0 <= e < i / 3 * 2 ensures Fits(e, len) && Entry12(now, e) == Entry12(was, e) {
      EntryBefore(e, i / 3);
    }
  }

  lemma EntryBefore(e: nat, k: nat)
    requires e < 2 * k
    ensures e + e / 2 + 1 < 3 * k
  {
  }

  lemma LastGroup(before: seq<nat>, was: seq<nat>, now: seq<nat>, len: nat, i: nat)
    requires |was| == |now| == |before| && i % 3 == 0 && i < len <= |was|
    requires forall k :: i <= k < |was| ==> was[k] == before[k]
    requires forall k :: 0 <= k < |was| && !(i <= k < i + 3 && k < len) ==> now[k] == was[k]
    requires (i + 1 == len ==> now == was) && (i + 2 == len ==> now[i + 1] / 16 == was[i + 1] / 16)
    ensures i + 3 >= len ==> LeftAlone(before, now, len)
  {
  }

  lemma EntriesInTable(len: nat)
    ensures forall e: nat :: Fits(e, len) ==> e < (len + 2) / 3 * 2
  {
    forall e: nat | Fits(e, len) ensures e < (len + 2) / 3 * 2 {
      if e >= (len + 2) / 3 * 2 {
        EntryBehind(e, (len + 2) / 3);
      }
    }
  }

  lemma EntryBehind(e: nat, k: nat)
    requires e >= 2 * k
    ensures e + e / 2 >= 3 * k
  {
  }

  /** A table is determined by the entries that fit and what belongs to no entry. */
  lemma SameTable(a: seq<nat>, b: seq<nat>, len: nat)
    requires Bytes(a) && Bytes(b) && |a| == |b| && len <= |a| && LeftAlone(a, b, len)
    requires forall e: nat :: Fits(e, len) ==> Entry12(a, e) == Entry12(b, e)
    ensures a == b
  {
    hide Entry12;
    forall k | 0 <= k < len ensures a[k] == b[k] {
      SameByte(a, b, len, k, k / 3);
    }
  }

  lemma SameByte(a: seq<nat>, b: seq<nat>, len: nat, k: nat, n: nat)
    requires Bytes(a) && Bytes(b) && |a| == |b| && len <= |a| && LeftAlone(a, b, len)
    requires forall e: nat :: Fits(e, len) ==> Entry12(a, e) == Entry12(b, e)
    requires k < len && n == k / 3
    ensures a[k] == b[k]
  {
    hide Entry12, Bytes;
    var i := 3 * n;
    WhereEntriesAre(n);
    if i + 1 < len {
      assert Fits(2 * n, len);
      SameLow(a, b, n);
    }
    if i + 2 < len {
      assert Fits(2 * n + 1, len);
      SameHigh(a, b, n);
    }
    if k == i + 1 {
      SameNibbles(a[k], b[k]);
    }
  }

  lemma SameLow(a: seq<nat>, b: seq<nat>, n: nat)
    requires Bytes(a) && Bytes(b) && 3 * n + 1 < |a| == |b|
    requires 2 * n + 2 * n / 2 + 1 < |a| && Entry12(a, 2 * n) == Entry12(b, 2 * n)
    ensures a[3 * n] == b[3 * n] && a[3 * n + 1] % 16 == b[3 * n + 1] % 16
  {
    hide Entry12, Bytes;
    var i := 3 * n;
    EvenEntry(a, n);
    EvenEntry(b, n);
    ByteFacts(a, i);
    ByteFacts(b, i);
    SplitLow(a[i], a[i + 1], b[i], b[i + 1]);
  }

  lemma SameHigh(a: seq<nat>, b: seq<nat>, n: nat)
    requires Bytes(a) && Bytes(b) && 3 * n + 2 < |a| == |b|
    requires 2 * n + 1 + (2 * n + 1) / 2 + 1 < |a| && Entry12(a, 2 * n + 1) == Entry12(b, 2 * n + 1)
    ensures a[3 * n + 1] / 16 == b[3 * n + 1] / 16 && a[3 * n + 2] == b[3 * n + 2]
  {
    hide Entry12, Bytes;
    var i := 3 * n;
    OddEntry(a, n);
    OddEntry(b, n);
    ByteFacts(a, i + 1);
    ByteFacts(b, i + 1);
    SplitHigh(a[i + 1], a[i + 2], b[i + 1], b[i + 2]);
  }

  lemma ByteFacts(a: seq<nat>, i: nat)
    requires Bytes(a) && i < |a|
    ensures a[i] < 256
  {
  }

  lemma SameNibbles(x: nat, y: nat)
    requires x / 16 == y / 16 && x % 16 == y % 16
    ensures x == y
  {
  }

  lemma SplitLow(x: nat, y: nat, u: nat, v: nat)
    requires x < 256 && u < 256 && x + y % 16 * 256 == u + v % 16 * 256
    ensures x == u && y % 16 == v % 16
  {
  }

  lemma SplitHigh(x: nat, y: nat, u: nat, v: nat)
    requires x < 256 && u < 256 && x / 16 + y * 16 == u / 16 + v * 16
    ensures x / 16 == u / 16 && y == v
  {
  }

  /** Unpack, then pack: the bytes are restored. */
  method RepackTable(b: array<nat>, len: nat, fat: array<nat>)
    requires b != fat && Bytes(b[..]) && len > 0 && len + 2 <= b.Length
    requires fat.Length == FAT_ENTRIES && (len + 2) / 3 * 2 <= FAT_ENTRIES
    modifies b, fat
    ensures b[..] == old(b[..])
  {
    hide Entry12, LeftAlone;
    ghost var before := b[..];
    Load12(b[..], len, fat);
    Store12(b, len, fat[..]);
    EntriesInTable(len);
    forall e: nat | Fits(e, len) ensures Entry12(before, e) == Entry12(b[..], e) {
      EntryBound(before, e);
      ExpandLow(Entry12(before, e));
    }
    SameTable(before, b[..], len);
  }

  lemma EntryBound(b: seq<nat>, e: nat)
    requires Bytes(b) && e + e / 2 + 1 < |b|
    ensures Entry12(b, e) < 4096
  {
    Word(b[e + e / 2], b[e + e / 2 + 1]);
  }

  /** Pack, then unpack: an entry that fits the table is restored exactly if it is below 0xff7 or at least
      0xfff7. */
  method ReloadTable(b: array<nat>, len: nat, fat: array<nat>, ghost e: nat)
    requires b != fat && Bytes(b[..]) && len > 0 && len + 2 <= b.Length && Words(fat[..])
    requires fat.Length == FAT_ENTRIES && (len + 2) / 3 * 2 <= FAT_ENTRIES && Fits(e, len)
    modifies b, fat
    ensures e < fat.Length
    ensures fat[e] == old(fat[e]) <==> old(fat[e]) < 0xff7 || old(fat[e]) >= 0xfff7
  {
    hide Entry12, LeftAlone;
    EntriesInTable(len);
    ExpandCut(fat[e]);
    Store12(b, len, fat[..]);
    Load12(b[..], len, fat);
  }

  // ---------------------------------------------------------------- efat

  const RUN: nat := 0xfffe        // "the next cluster follows"
  const FIRST: nat := 2
  const LAST: nat := 0xfff6

  /** x ^ 7 */
  function FlipLow(x: nat): (r: nat)
    ensures r / 8 == x / 8 && r % 8 == 7 - x % 8
  {
    x / 8 * 8 + (7 - x % 8)
  }

  lemma FlipTwice(x: nat)
    ensures FlipLow(FlipLow(x)) == x
  {
  }

  /** The efat option: links to the following cluster become a mark. False is error 33: the mark is in use. */
  method EncodeEfat(fat: array<nat>) returns (ok: bool)
    requires fat.Length == FAT_ENTRIES
    modifies fat
    ensures ok <==> forall i :: 2 <= i < 0xfff6 ==> old(fat[i]) != 0xfffe
    ensures ok ==> fat[0] == FlipLow(old(fat[0]))
    ensures ok ==> forall i :: 2 <= i < 0xfff6 ==> fat[i] == if old(fat[i]) == i + 1 then 0xfffe else old(fat[i])
    ensures ok ==> forall i :: 0 < i < fat.Length && !(2 <= i < 0xfff6) ==> fat[i] == old(fat[i])
  {
    fat[0] := FlipLow(fat[0]);
    var i := FIRST;
    while i < LAST
      invariant FIRST <= i <= LAST
      invariant forall k :: FIRST <= k < i ==> old(fat[k]) != RUN
      invariant forall k :: 0 <= k < fat.Length ==>
                  fat[k] == if k == 0 then FlipLow(old(fat[0])) else if FIRST <= k < i && old(fat[k]) == k + 1 then RUN else old(fat[k])
    {
      if fat[i] == RUN {
        return false;
      }
      if fat[i] == i + 1 {
        fat[i] := RUN;
      }
      i := i + 1;
    }
    return true;
  }

  /** Loading an efat image: marks become links again. */
  method DecodeEfat(fat: array<nat>)
    requires fat.Length == FAT_ENTRIES
    modifies fat
    ensures fat[0] == FlipLow(old(fat[0]))
    ensures forall i :: 2 <= i < 0xfff6 ==> fat[i] == if old(fat[i]) == 0xfffe then i + 1 else old(fat[i])
    ensures forall i :: 0 < i < fat.Length && !(2 <= i < 0xfff6) ==> fat[i] == old(fat[i])
  {
    fat[0] := FlipLow(fat[0]);
    var i := FIRST;
    while i < LAST
      invariant FIRST <= i <= LAST
      invariant forall k :: 0 <= k < fat.Length ==>
                  fat[k] == if k == 0 then FlipLow(old(fat[0])) else if FIRST <= k < i && old(fat[k]) == RUN then k + 1 else old(fat[k])
    {
      if fat[i] == RUN {
        fat[i] := i + 1;
      }
      i := i + 1;
    }
  }

  /** Encoding, when it does not fail, then decoding restores the table. */
  method EfatRoundTrip(fat: array<nat>) returns (ok: bool)
    requires fat.Length == FAT_ENTRIES
    modifies fat
    ensures ok <==> forall i :: 2 <= i < 0xfff6 ==> old(fat[i]) != 0xfffe
    ensures ok ==> fat[..] == old(fat[..])
  {
    ok := EncodeEfat(fat);
    if ok {
      DecodeEfat(fat);
      FlipTwice(old(fat[0]));
    }
  }
}
