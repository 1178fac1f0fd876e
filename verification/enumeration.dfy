/** `get_va_pages_ia32e` (tiny-vmi/arch/amd64.c): listing every page of an address space, and the
    proof that the list and the page-table walk agree. */
module Enumeration {
  import opened Bits
  import opened Sequences
  import opened Paging
  import opened ReadStack

  const VA48 := 0x1_0000_0000_0000   // 2^48 bytes are translated

  /** The fields of `page_info_t` that identify a page. */
  datatype PageInfo = PageInfo(vaddr: u64, paddr: u64, kind: Level)

  /** The translated part of an address. */
  function Low48(va: u64): (v: int)
    ensures 0 <= v < VA48
  {
    va % VA48
  }

  /** Bit 47 copied into the bits above it. */
  function Canonical(v: int): u64
    requires 0 <= v < VA48
  {
    if v >= VA48 / 2 then v + (WORD - VA48) else v
  }

  predicate IsCanonical(va: u64) { Canonical(Low48(va)) == va }

  predicate Covers(p: PageInfo, v: int) { Low48(p.vaddr) <= v < Low48(p.vaddr) + Span(p.kind) }

  /** Every address of page `p` is translated, from the level-`l` table at `root`, to the frame the
      page records, at its own offset. */
  ghost predicate Maps(g: Guest, flags: Flags, root: u64, l: Level, p: PageInfo) {
    forall v: u64 :: Covers(p, v) ==>
      && Walk(g, flags, root, l, v).Some?
      && Place(Walk(g, flags, root, l, v).value, v).kind == p.kind
      && Place(Walk(g, flags, root, l, v).value, v).paddr == p.paddr + (v - Low48(p.vaddr))
  }

  ghost predicate InRegion(p: PageInfo, lo: int, hi: int) {
    && lo <= Low48(p.vaddr) && Low48(p.vaddr) + Span(p.kind) <= hi
    && IsCanonical(p.vaddr) && p.kind < 3 && SpanOffset(p.kind, Low48(p.vaddr)) == 0
  }

  /** `pages` lists, highest first and without overlap, exactly the translated addresses of [lo, hi). */
  ghost predicate Lists(g: Guest, flags: Flags, root: u64, l: Level, lo: int, hi: int, pages: seq<PageInfo>) {
    && 0 <= lo <= hi <= VA48
    && (forall i :: 0 <= i < |pages| ==> InRegion(pages[i], lo, hi) && Maps(g, flags, root, l, pages[i]))
    && (forall i, j :: 0 <= i < j < |pages| ==>
          Low48(pages[j].vaddr) + Span(pages[j].kind) <= Low48(pages[i].vaddr))
    && (forall v: u64 :: lo <= v < hi && Walk(g, flags, root, l, v).Some? ==>
          exists i :: 0 <= i < |pages| && Covers(pages[i], v))
  }

  // ---------------------------------------------------------------- one table

  /** Bytes that a level-`l` table covers. */
  function Reach(l: Level): int {
    if l == 0 then 0x20_0000 else if l == 1 then 0x4000_0000 else if l == 2 then 0x80_0000_0000 else VA48
  }

  /** First address of entry `i` of the table that covers the region from `lo`. */
  function Slot(l: Level, lo: int, i: int): int {
    if l == 0 then lo + i * 0x1000 else if l == 1 then lo + i * 0x20_0000
    else if l == 2 then lo + i * 0x4000_0000 else lo + i * 0x80_0000_0000
  }

  ghost predicate Aligned(l: Level, lo: int) {
    && 0 <= lo && lo + Reach(l) <= VA48
    && if l == 0 then lo % 0x20_0000 == 0 else if l == 1 then lo % 0x4000_0000 == 0
       else if l == 2 then lo % 0x80_0000_0000 == 0 else lo == 0
  }

  // Entry i of the table decides exactly the addresses of its slot.
  lemma SlotAddresses(l: Level, lo: int, i: int, v: int)
    requires Aligned(l, lo) && 0 <= i < ENTRIES && Slot(l, lo, i) <= v < Slot(l, lo, i + 1)
    ensures 0 <= v < VA48 && Index(l, v) == i && SpanOffset(l, v) == v - Slot(l, lo, i)
  {
    var o := v - Slot(l, lo, i);
    if l == 0 { InSlot(lo, 0x1000, i, o, v); }
    if l == 1 { InSlot(lo, 0x20_0000, i, o, v); }
    if l == 2 { InSlot(lo, 0x4000_0000, i, o, v); }
    if l == 3 { InSlot(lo, 0x80_0000_0000, i, o, v); }
  }

  lemma InSlot(lo: int, s: int, i: int, o: int, v: int)
    requires s > 0 && 0 <= lo && lo % (512 * s) == 0 && 0 <= i < 512 && 0 <= o < s && v == lo + i * s + o
    ensures v / s % 512 == i && v % s == o
  {
    var k := lo / (512 * s);
    assert lo == k * (512 * s) == (512 * k) * s;
    assert v == (512 * k + i) * s + o;
    DivModUnique(v, s, 512 * k + i, o);
    DivModUnique(512 * k + i, 512, k, i);
  }

  // Lists of neighbouring regions join, the higher one in front.
  lemma Joined(g: Guest, flags: Flags, root: u64, l: Level, lo: int, mid: int, hi: int,
               low: seq<PageInfo>, high: seq<PageInfo>)
    requires Lists(g, flags, root, l, lo, mid, low) && Lists(g, flags, root, l, mid, hi, high)
    ensures Lists(g, flags, root, l, lo, hi, high + low)
  {
    var pages := high + low;
    forall v: u64 | lo <= v < hi && Walk(g, flags, root, l, v).Some?
      ensures exists i :: 0 <= i < |pages| && Covers(pages[i], v)
    {
      if v < mid {
        var i :| 0 <= i < |low| && Covers(low[i], v);
        assert pages[|high| + i] == low[i];
      } else {
        var i :| 0 <= i < |high| && Covers(high[i], v);
        assert pages[i] == high[i];
      }
    }
  }

  lemma AbsentSlot(g: Guest, flags: Flags, root: u64, l: Level, lo: int, i: int)
    requires Aligned(l, lo) && 0 <= i < ENTRIES
    requires EntryAt(g, root, i).None? || !Present(flags.At(l), EntryAt(g, root, i).value)
    ensures Lists(g, flags, root, l, Slot(l, lo, i), Slot(l, lo, i + 1), [])
  {
    forall v: u64 | Slot(l, lo, i) <= v < Slot(l, lo, i + 1)
      ensures Walk(g, flags, root, l, v).None?
    {
      SlotAddresses(l, lo, i, v);
    }
    SlotInReach(l, lo, i);
  }

  lemma SlotInReach(l: Level, lo: int, i: int)
    requires Aligned(l, lo) && 0 <= i < ENTRIES
    ensures 0 <= Slot(l, lo, i) <= Slot(l, lo, i + 1) <= lo + Reach(l) <= VA48
    ensures Slot(l, lo, i + 1) == Slot(l, lo, i) + Span(l)
  {
  }

  lemma LeafSlot(g: Guest, flags: Flags, root: u64, l: Level, lo: int, i: int, p: PageInfo)
    requires Aligned(l, lo) && 0 <= i < ENTRIES && EntryAt(g, root, i).Some?
    requires var e := EntryAt(g, root, i).value;
      Present(flags.At(l), e) && IsLeaf(l, e) && p.paddr == Frame(l, e)
    requires p.kind == l < 3 && Slot(l, lo, i) < VA48 && p.vaddr == Canonical(Slot(l, lo, i))
    ensures Lists(g, flags, root, l, Slot(l, lo, i), Slot(l, lo, i + 1), [p])
  {
    SlotInReach(l, lo, i);
    CanonicalLow(Slot(l, lo, i));
    SlotAddresses(l, lo, i, Slot(l, lo, i));
    forall v: u64 | Covers(p, v)
      ensures Walk(g, flags, root, l, v).Some?
      ensures Place(Walk(g, flags, root, l, v).value, v).kind == p.kind
      ensures Place(Walk(g, flags, root, l, v).value, v).paddr == p.paddr + (v - Low48(p.vaddr))
    {
      SlotAddresses(l, lo, i, v);
    }
    assert Maps(g, flags, root, l, p);
    assert [p][0] == p;
  }

  lemma CanonicalLow(v: int)
    requires 0 <= v < VA48
    ensures Low48(Canonical(v)) == v
  {
  }

  lemma TableSlot(g: Guest, flags: Flags, root: u64, l: Level, lo: int, i: int, pages: seq<PageInfo>)
    requires l > 0 && Aligned(l, lo) && 0 <= i < ENTRIES && EntryAt(g, root, i).Some?
    requires var e := EntryAt(g, root, i).value;
      && Present(flags.At(l), e) && !IsLeaf(l, e)
      && Lists(g, flags, Base(e), l - 1, Slot(l, lo, i), Slot(l, lo, i + 1), pages)
    ensures Lists(g, flags, root, l, Slot(l, lo, i), Slot(l, lo, i + 1), pages)
  {
    var e := EntryAt(g, root, i).value;
    forall v: u64 | Slot(l, lo, i) <= v < Slot(l, lo, i + 1)
      ensures Walk(g, flags, root, l, v) == Walk(g, flags, Base(e), l - 1, v)
    {
      SlotAddresses(l, lo, i, v);
    }
    forall k | 0 <= k < |pages| ensures Maps(g, flags, root, l, pages[k]) {
      assert InRegion(pages[k], Slot(l, lo, i), Slot(l, lo, i + 1)) && Maps(g, flags, Base(e), l - 1, pages[k]);
    }
  }

  // A table whose page cannot be read lists nothing.
  lemma UnreadableTable(g: Guest, flags: Flags, root: u64, l: Level, lo: int)
    requires FetchPage(g, root).None? && Aligned(l, lo)
    ensures Lists(g, flags, root, l, lo, lo + Reach(l), [])
  {
  }

  // The table below entry i covers exactly the entry's slot.
  lemma SlotIsReach(l: Level, lo: int, i: int)
    requires l > 0 && Aligned(l, lo) && 0 <= i < ENTRIES
    ensures Aligned(l - 1, Slot(l, lo, i)) && Slot(l, lo, i + 1) == Slot(l, lo, i) + Reach(l - 1)
  {
    SlotInReach(l, lo, i);
    if l == 1 { SlotAligned(lo, 0x20_0000, i); }
    if l == 2 { SlotAligned(lo, 0x4000_0000, i); }
    if l == 3 { SlotAligned(lo, 0x80_0000_0000, i); }
  }

  lemma SlotAligned(lo: int, s: int, i: int)
    requires s > 0 && 0 <= lo && lo % (512 * s) == 0 && 0 <= i
    ensures (lo + i * s) % s == 0
  {
    var k := lo / (512 * s);
    assert lo == k * (512 * s) == (512 * k) * s;
    assert lo + i * s == (512 * k + i) * s;
    DivModUnique(lo + i * s, s, 512 * k + i, 0);
  }

  // ---------------------------------------------------------------- the four loops

  /** canonical_addr. */
  function CanonicalAddr(va: u64): nat {
    if GetBit(va, 47) then Or(va, 0xffff_0000_0000_0000) else va
  }

  lemma CanonicalAddrIsCanonical(va: u64)
    requires va < VA48
    ensures CanonicalAddr(va) == Canonical(va)
  {
    Powers();
    Pow2Add(40, 7);
    Pow2Add(47, 1);
    GetBitIsDigit(va, 47);
    OrCommutes(va, 0xffff_0000_0000_0000);
    Disjoint(0xffff_0000_0000_0000, va, 48, VA48);
  }

  /** The lower half of the 48 bits stays where it is, the upper half moves to the top. */
  lemma CanonicalHalves(va: u64)
    requires va < VA48
    ensures CanonicalAddr(va) == if va < 0x8000_0000_0000 then va else va + 0xffff_0000_0000_0000
  {
    CanonicalAddrIsCanonical(va);
    hide CanonicalAddr;
  }

  // OR-ing an index into place below an aligned prefix adds its slot.
  lemma AppendIndex(l: Level, prefix: u64, i: int)
    requires Aligned(l, prefix) && 0 <= i < ENTRIES
    ensures Or(prefix, Shl(i, 12 + 9 * l)) == Slot(l, prefix, i) < VA48
  {
    SlotInReach(l, prefix, i);
    if l == 0 { AppendAt(prefix, i, 12, 0x1000); }
    if l == 1 { AppendAt(prefix, i, 21, 0x20_0000); }
    if l == 2 { AppendAt(prefix, i, 30, 0x4000_0000); }
    if l == 3 { AppendAt(prefix, i, 39, 0x80_0000_0000); }
  }

  lemma AppendAt(prefix: u64, i: int, n: nat, unit: nat)
    requires 0 <= i < 512 && (n == 12 || n == 21 || n == 30 || n == 39)
    requires unit ==
      if n == 12 then 0x1000 else if n == 21 then 0x20_0000 else if n == 30 then 0x4000_0000 else 0x80_0000_0000
    requires prefix % (512 * unit) == 0
    ensures Or(prefix, Shl(i, n)) == prefix + i * unit
  {
    Powers();
    Pow2Add(n, 9);
    assert unit == Pow2(n);
    assert Shl(i, n) == i * unit;
    Disjoint(prefix, i * unit, n + 9, 512 * unit);
  }

  // A slot's own address has offset zero in every span it starts.
  lemma SlotStartsSpan(l: Level, lo: int, i: int)
    requires l < 3 && Aligned(l, lo) && 0 <= i < ENTRIES && Slot(l, lo, i) < VA48
    ensures SpanOffset(l, Canonical(Slot(l, lo, i))) == 0
  {
    SlotInReach(l, lo, i);
    SlotAddresses(l, lo, i, Slot(l, lo, i));
    var v := Slot(l, lo, i);
    if l == 0 { OffsetOfCanonical(v, 0x1000); }
    if l == 1 { OffsetOfCanonical(v, 0x20_0000); }
    if l == 2 { OffsetOfCanonical(v, 0x4000_0000); }
  }

  lemma OffsetOfCanonical(v: int, s: int)
    requires 0 <= v < VA48 && s > 0 && v % s == 0 && (WORD - VA48) % s == 0
    ensures Canonical(v) % s == 0
  {
    var q, t := v / s, (WORD - VA48) / s;
    assert v == q * s && WORD - VA48 == t * s;
    assert v + (WORD - VA48) == (q + t) * s;
    DivModUnique(v + (WORD - VA48), s, q + t, 0);
  }

  /** vmi_read_pa of one whole paging structure. */
  method ReadTable(vmi: Vmi, location: u64) returns (ok: bool, table: Page)
    requires vmi.Valid() && location % PAGE_SIZE == 0 && location + PAGE_SIZE <= PHYS_LIMIT
    modifies vmi`v2pCache, vmi.cache
    ensures vmi.Valid()
    ensures ok == FetchPage(vmi.guest, location).Some? && (ok ==> table == FetchPage(vmi.guest, location).value)
  {
    var buf := new byte[PAGE_SIZE](_ => 0);
    var n;
    ghost var rounds;
    ok, n, rounds := vmi.Read(Some(TmNone(location)), PAGE_SIZE, buf);
    table := buf[..];
    ghost var start := Start(0, location);
    forall k | 0 <= k < PAGE_SIZE
      ensures vmi.ByteAfter(start, k) ==
        match FetchPage(vmi.guest, location) case None => None case Some(page) => Some(page[k])
    {
      StepInPage(location, k);
    }
    if ok {
      assert buf[..n] == table;
      assert forall k :: 0 <= k < PAGE_SIZE ==> vmi.ByteAfter(start, k) == Some(table[k]);
      assert vmi.ByteAfter(start, 0).Some?;
    }
  }

  ghost function ListFlags(g: Guest): Flags { Flags(g.transitionPages, g.osTypeSet) }

  /** The entry of a table read as an array of 64-bit words. */
  function Word(table: Page, i: int): u64
    requires 0 <= i < ENTRIES
  {
    Word64(table[8 * i..8 * i + 8])
  }

  /** The table address in an entry. */
  method TableLocation(e: u64) returns (location: u64)
    ensures location == Base(e)
  {
    Powers();
    AndMask(e, 12, 51, 0x1000, 0x100_0000_0000);
    location := And(e, BitMask(12, 51));
  }

  /** The indices so far with index `i` of level `l` put in its place. */
  method SlotAddress(l: Level, prefix: u64, i: int) returns (v: u64)
    requires Aligned(l, prefix) && 0 <= i < ENTRIES
    ensures v == Slot(l, prefix, i)
  {
    AppendIndex(l, prefix, i);
    v := Or(prefix, Shl(i, 12 + 9 * l));
  }

  /** The record made for the page that entry `i` maps. */
  method DescribePage(l: Level, prefix: u64, i: int, entry: u64) returns (page: PageInfo)
    requires l < 3 && Aligned(l, prefix) && 0 <= i < ENTRIES
    ensures Slot(l, prefix, i) < VA48 && page == PageInfo(Canonical(Slot(l, prefix, i)), Frame(l, entry), l)
  {
    SlotInReach(l, prefix, i);
    SlotStartsSpan(l, prefix, i);
    var v := SlotAddress(l, prefix, i);
    CanonicalAddrIsCanonical(v);
    var vaddr := CanonicalAddr(v);
    var paddr := PagePaddr(l, vaddr, entry);
    page := PageInfo(vaddr, paddr, l);
  }

  // Loop body: what entry `i` of the table lists.
  method ListPageTableEntry(vmi: Vmi, ghost root: u64, prefix: u64, i: int, entry: u64) returns (listed: seq<PageInfo>)
    requires vmi.Valid() && Aligned(0, prefix) && 0 <= i < ENTRIES && EntryAt(vmi.guest, root, i) == Some(entry)
    ensures Lists(vmi.guest, ListFlags(vmi.guest), root, 0, Slot(0, prefix, i), Slot(0, prefix, i + 1), listed)
  {
    ghost var g, flags := vmi.guest, ListFlags(vmi.guest);
    listed := [];
    var present := IsPresent(vmi.guest.osTypeSet, entry);
    if !present {
      AbsentSlot(g, flags, root, 0, prefix, i);
      return;
    }
    var page := DescribePage(0, prefix, i, entry);
    LeafSlot(g, flags, root, 0, prefix, i, page);
    listed := [page];
  }

  /** The page-table loop: 4 KB pages. */
  method ListPageTable(vmi: Vmi, pde: u64, prefix: u64) returns (pages: seq<PageInfo>)
    requires vmi.Valid() && Aligned(0, prefix)
    modifies vmi`v2pCache, vmi.cache
    ensures vmi.Valid()
    ensures Lists(vmi.guest, ListFlags(vmi.guest), Base(pde), 0, prefix, prefix + Reach(0), pages)
  {
    ghost var g, flags, root := vmi.guest, ListFlags(vmi.guest), Base(pde);
    pages := [];
    var location := TableLocation(pde);
    var ok, table := ReadTable(vmi, location);
    if !ok { UnreadableTable(g, flags, root, 0, prefix); return; }
    for i := 0 to ENTRIES
      invariant vmi.Valid()
      invariant Lists(g, flags, root, 0, prefix, Slot(0, prefix, i), pages)
    {
      var listed := ListPageTableEntry(vmi, root, prefix, i, Word(table, i));
      Joined(g, flags, root, 0, prefix, Slot(0, prefix, i), Slot(0, prefix, i + 1), pages, listed);
      pages := listed + pages;
    }
  }

  // Loop body: what entry `i` of the table lists.
  method ListPageDirectoryEntry(vmi: Vmi, ghost root: u64, prefix: u64, i: int, entry: u64)
    returns (listed: seq<PageInfo>)
    requires vmi.Valid() && Aligned(1, prefix) && 0 <= i < ENTRIES && EntryAt(vmi.guest, root, i) == Some(entry)
    modifies vmi`v2pCache, vmi.cache
    ensures vmi.Valid()
    ensures Lists(vmi.guest, ListFlags(vmi.guest), root, 1, Slot(1, prefix, i), Slot(1, prefix, i + 1), listed)
  {
    ghost var g, flags := vmi.guest, ListFlags(vmi.guest);
    listed := [];
    var present := IsPresent(vmi.guest.osTypeSet, entry);
    if !present {
      AbsentSlot(g, flags, root, 1, prefix, i);
      return;
    }
    var large := MapsLargePage(entry);
    if large {
      var page := DescribePage(1, prefix, i, entry);
      LeafSlot(g, flags, root, 1, prefix, i, page);
      return [page];
    }
    SlotIsReach(1, prefix, i);
    var below := SlotAddress(1, prefix, i);
    listed := ListPageTable(vmi, entry, below);
    TableSlot(g, flags, root, 1, prefix, i, listed);
  }

  /** The page-directory loop: 2 MB pages and page tables. */
  method ListPageDirectory(vmi: Vmi, pdpte: u64, prefix: u64) returns (pages: seq<PageInfo>)
    requires vmi.Valid() && Aligned(1, prefix)
    modifies vmi`v2pCache, vmi.cache
    ensures vmi.Valid()
    ensures Lists(vmi.guest, ListFlags(vmi.guest), Base(pdpte), 1, prefix, prefix + Reach(1), pages)
  {
    ghost var g, flags, root := vmi.guest, ListFlags(vmi.guest), Base(pdpte);
    pages := [];
    var location := TableLocation(pdpte);
    var ok, table := ReadTable(vmi, location);
    if !ok { UnreadableTable(g, flags, root, 1, prefix); return; }
    for i := 0 to ENTRIES
      invariant vmi.Valid()
      invariant Lists(g, flags, root, 1, prefix, Slot(1, prefix, i), pages)
    {
      var listed := ListPageDirectoryEntry(vmi, root, prefix, i, Word(table, i));
      Joined(g, flags, root, 1, prefix, Slot(1, prefix, i), Slot(1, prefix, i + 1), pages, listed);
      pages := listed + pages;
    }
  }

  // Loop body: what entry `i` of the table lists.
  method ListPointerTableEntry(vmi: Vmi, ghost root: u64, prefix: u64, i: int, entry: u64)
    returns (listed: seq<PageInfo>)
    requires vmi.Valid() && Aligned(2, prefix) && 0 <= i < ENTRIES && EntryAt(vmi.guest, root, i) == Some(entry)
    modifies vmi`v2pCache, vmi.cache
    ensures vmi.Valid()
    ensures Lists(vmi.guest, ListFlags(vmi.guest), root, 2, Slot(2, prefix, i), Slot(2, prefix, i + 1), listed)
  {
    ghost var g, flags := vmi.guest, ListFlags(vmi.guest);
    listed := [];
    var present := IsPresent(vmi.guest.transitionPages, entry);
    if !present {
      AbsentSlot(g, flags, root, 2, prefix, i);
      return;
    }
    var large := MapsLargePage(entry);
    if large {
      var page := DescribePage(2, prefix, i, entry);
      LeafSlot(g, flags, root, 2, prefix, i, page);
      return [page];
    }
    SlotIsReach(2, prefix, i);
    var below := SlotAddress(2, prefix, i);
    listed := ListPageDirectory(vmi, entry, below);
    TableSlot(g, flags, root, 2, prefix, i, listed);
  }

  /** The page-directory-pointer loop: 1 GB pages and page directories. */
  method ListPointerTable(vmi: Vmi, pml4e: u64, prefix: u64) returns (pages: seq<PageInfo>)
    requires vmi.Valid() && Aligned(2, prefix)
    modifies vmi`v2pCache, vmi.cache
    ensures vmi.Valid()
    ensures Lists(vmi.guest, ListFlags(vmi.guest), Base(pml4e), 2, prefix, prefix + Reach(2), pages)
  {
    ghost var g, flags, root := vmi.guest, ListFlags(vmi.guest), Base(pml4e);
    pages := [];
    var location := TableLocation(pml4e);
    var ok, table := ReadTable(vmi, location);
    if !ok { UnreadableTable(g, flags, root, 2, prefix); return; }
    for i := 0 to ENTRIES
      invariant vmi.Valid()
      invariant Lists(g, flags, root, 2, prefix, Slot(2, prefix, i), pages)
    {
      var listed := ListPointerTableEntry(vmi, root, prefix, i, Word(table, i));
      Joined(g, flags, root, 2, prefix, Slot(2, prefix, i), Slot(2, prefix, i + 1), pages, listed);
      pages := listed + pages;
    }
  }

  // Loop body: what entry `i` of the table lists.
  method ListPml4Entry(vmi: Vmi, ghost root: u64, i: int, entry: u64) returns (listed: seq<PageInfo>)
    requires vmi.Valid() && 0 <= i < ENTRIES && EntryAt(vmi.guest, root, i) == Some(entry)
    modifies vmi`v2pCache, vmi.cache
    ensures vmi.Valid()
    ensures Lists(vmi.guest, ListFlags(vmi.guest), root, 3, Slot(3, 0, i), Slot(3, 0, i + 1), listed)
  {
    ghost var g, flags := vmi.guest, ListFlags(vmi.guest);
    listed := [];
    var present := IsPresent(vmi.guest.transitionPages, entry);
    if !present {
      AbsentSlot(g, flags, root, 3, 0, i);
      return;
    }
    SlotIsReach(3, 0, i);
    var below := SlotAddress(3, 0, i);
    listed := ListPointerTable(vmi, entry, below);
    TableSlot(g, flags, root, 3, 0, i, listed);
  }

  /** get_va_pages_ia32e: the PML4 loop. */
  method GetVaPages(vmi: Vmi, dtb: u64) returns (pages: seq<PageInfo>)
    requires vmi.Valid()
    modifies vmi`v2pCache, vmi.cache
    ensures vmi.Valid()
    ensures Lists(vmi.guest, ListFlags(vmi.guest), Base(dtb), 3, 0, VA48, pages)
  {
    ghost var g, flags, root := vmi.guest, ListFlags(vmi.guest), Base(dtb);
    pages := [];
    var location := TableLocation(dtb);
    var ok, table := ReadTable(vmi, location);
    if !ok { UnreadableTable(g, flags, root, 3, 0); return; }
    for i := 0 to ENTRIES
      invariant vmi.Valid()
      invariant Lists(g, flags, root, 3, 0, Slot(3, 0, i), pages)
    {
      var listed := ListPml4Entry(vmi, root, i, Word(table, i));
      Joined(g, flags, root, 3, 0, Slot(3, 0, i), Slot(3, 0, i + 1), pages, listed);
      pages := listed + pages;
    }
  }

  // ---------------------------------------------------------------- agreement with the walk

  /** Bits above 47 do not take part in translation. */
  lemma {:induction false} WalkLow48(g: Guest, flags: Flags, root: u64, l: Level, va: u64)
    ensures Walk(g, flags, root, l, va) == Walk(g, flags, root, l, Low48(va))
    decreases l
  {
    IndexLow48(l, va);
    match EntryAt(g, root, Index(l, va))
    case None =>
    case Some(e) =>
      if Present(flags.At(l), e) && !IsLeaf(l, e) { WalkLow48(g, flags, Base(e), l - 1, va); }
  }

  lemma IndexLow48(l: Level, va: u64)
    ensures Index(l, va) == Index(l, Low48(va)) && SpanOffset(l, va) == SpanOffset(l, Low48(va))
  {
    var q, v := va / VA48, va % VA48;
    if l == 0 { DropHigh(va, q, v, 0x1000, 0x10_0000_0000); }
    if l == 1 { DropHigh(va, q, v, 0x20_0000, 0x800_0000); }
    if l == 2 { DropHigh(va, q, v, 0x4000_0000, 0x4_0000); }
    if l == 3 { DropHigh(va, q, v, 0x80_0000_0000, 0x200); }
  }

  lemma DropHigh(va: int, q: int, v: int, s: int, c: int)
    requires s > 0 && c > 0 && c % 512 == 0 && v >= 0 && va == q * (s * c) + v
    ensures va / s % 512 == v / s % 512 && va % s == v % s
  {
    var k := c / 512;
    assert q * (s * c) == (q * c) * s;
    DivModUnique(va, s, q * c + v / s, v % s);
    assert q * c == (q * k) * 512;
    var t := v / s;
    DivModUnique((q * k) * 512 + t, 512, q * k + t / 512, t % 512);
  }

  /** An address lies in a listed page. */
  predicate InPage(p: PageInfo, va: u64) { p.vaddr <= va < p.vaddr + Span(p.kind) }

  /** Each address of a listed page translates to that page, at its own offset ... */
  ghost predicate ListedTranslate(g: Guest, dtb: u64, pages: seq<PageInfo>) {
    forall i, va: u64 :: 0 <= i < |pages| && InPage(pages[i], va) ==>
      var t := Translate(g, dtb, va);
      t.Some? && t.value.kind == pages[i].kind && t.value.paddr == pages[i].paddr + (va - pages[i].vaddr)
  }

  ghost predicate OnlyIn(pages: seq<PageInfo>, i: int, va: u64) {
    0 <= i < |pages| && InPage(pages[i], va) && forall j :: 0 <= j < |pages| && InPage(pages[j], va) ==> j == i
  }

  /** ... and each canonical address that translates lies in exactly one listed page. */
  ghost predicate TranslatedAreListed(g: Guest, dtb: u64, pages: seq<PageInfo>) {
    forall va: u64 :: IsCanonical(va) && Translate(g, dtb, va).Some? ==> exists i :: OnlyIn(pages, i, va)
  }

  // Canonical addresses are the lowest and the highest 2^47.
  lemma CanonicalCases(va: u64)
    ensures IsCanonical(va) <==> va < VA48 / 2 || va >= WORD - VA48 / 2
    ensures va < VA48 / 2 ==> Low48(va) == va
    ensures va >= WORD - VA48 / 2 ==> Low48(va) == va - (WORD - VA48)
  {
    if va < VA48 / 2 { DivModUnique(va, VA48, 0, va); }
    if va >= WORD - VA48 / 2 { DivModUnique(va, VA48, 0xffff, va - (WORD - VA48)); }
  }

  // No page straddles the middle of the space.
  lemma PageInOneHalf(p: PageInfo)
    requires InRegion(p, 0, VA48)
    ensures Low48(p.vaddr) < VA48 / 2 ==> Low48(p.vaddr) + Span(p.kind) <= VA48 / 2
  {
    var low := Low48(p.vaddr);
    if low < VA48 / 2 {
      if p.kind == 0 { RoundBelow(low, 0x1000, 0x8_0000_0000); }
      if p.kind == 1 { RoundBelow(low, 0x20_0000, 0x400_0000); }
      if p.kind == 2 { RoundBelow(low, 0x4000_0000, 0x2_0000); }
    }
  }

  // So canonical form keeps distances inside a page.
  lemma InPageIsCovers(p: PageInfo, va: u64)
    requires InRegion(p, 0, VA48)
    ensures InPage(p, va) <==> IsCanonical(va) && Covers(p, Low48(va))
    ensures InPage(p, va) ==> va - p.vaddr == Low48(va) - Low48(p.vaddr)
  {
    PageInOneHalf(p);
    CanonicalCases(va);
    CanonicalCases(p.vaddr);
  }

  /** Some entry on the path of `va` in a page directory or page table is not plainly present. */
  predicate PassesTransition(g: Guest, root: u64, l: Level, va: u64)
    decreases l
  {
    match EntryAt(g, root, Index(l, va))
    case None => false
    case Some(e) =>
      (l < 2 && !Present(false, e)) || (!IsLeaf(l, e) && PassesTransition(g, Base(e), l - 1, va))
  }

  /** Address `v` is mapped when the two lower levels honour transition pages, and only then. */
  predicate MappedInTransition(g: Guest, dtb: u64, v: u64) {
    && Walk(g, Flags(g.transitionPages, true), Base(dtb), 3, v).Some?
    && PassesTransition(g, Base(dtb), 3, v)
  }

  // Not honouring transition pages at the lower levels loses exactly these addresses.
  lemma {:induction false} TransitionLoses(g: Guest, upper: bool, root: u64, l: Level, va: u64)
    ensures var honoured := Walk(g, Flags(upper, true), root, l, va);
      Walk(g, Flags(upper, false), root, l, va) ==
        if honoured.Some? && PassesTransition(g, root, l, va) then None else honoured
    decreases l
  {
    match EntryAt(g, root, Index(l, va))
    case None =>
    case Some(e) =>
      if !IsLeaf(l, e) { TransitionLoses(g, upper, Base(e), l - 1, va); }
  }

  ghost predicate SameWalks(g: Guest, dtb: u64) {
    forall v: u64 :: v < VA48 ==>
      Walk(g, ListFlags(g), Base(dtb), 3, v) == Walk(g, WalkFlags(g), Base(dtb), 3, v)
  }

  ghost function WalkFlags(g: Guest): Flags { Flags(g.transitionPages, g.transitionPages) }

  // A listing along the paths that the translation takes agrees with it.
  lemma SameWalksAgree(g: Guest, dtb: u64, pages: seq<PageInfo>)
    requires SameWalks(g, dtb)
    requires Lists(g, ListFlags(g), Base(dtb), 3, 0, VA48, pages)
    ensures ListedTranslate(g, dtb, pages) && TranslatedAreListed(g, dtb, pages)
  {
    var flags := ListFlags(g);
    forall i, va: u64 | 0 <= i < |pages| && InPage(pages[i], va)
      ensures var t := Translate(g, dtb, va);
        t.Some? && t.value.kind == pages[i].kind && t.value.paddr == pages[i].paddr + (va - pages[i].vaddr)
    {
      InPageIsCovers(pages[i], va);
      assert Maps(g, flags, Base(dtb), 3, pages[i]);
      WalkLow48(g, WalkFlags(g), Base(dtb), 3, va);
      IndexLow48(pages[i].kind, va);
    }
    forall va: u64 | IsCanonical(va) && Translate(g, dtb, va).Some?
      ensures exists i :: OnlyIn(pages, i, va)
    {
      WalkLow48(g, WalkFlags(g), Base(dtb), 3, va);
      var i :| 0 <= i < |pages| && Covers(pages[i], Low48(va));
      InPageIsCovers(pages[i], va);
      forall j | 0 <= j < |pages| && InPage(pages[j], va) ensures j == i {
        InPageIsCovers(pages[j], va);
      }
      assert OnlyIn(pages, i, va);
    }
  }

  // An address that only one of the two walks maps is missing from the list, or listed wrongly.
  lemma DifferentWalksDisagree(g: Guest, dtb: u64, pages: seq<PageInfo>, v: u64)
    requires Lists(g, ListFlags(g), Base(dtb), 3, 0, VA48, pages) && v < VA48
    requires Walk(g, ListFlags(g), Base(dtb), 3, v).Some? != Walk(g, WalkFlags(g), Base(dtb), 3, v).Some?
    ensures !ListedTranslate(g, dtb, pages) || !TranslatedAreListed(g, dtb, pages)
  {
    hide Walk, InPage, Lists;
    var va := Canonical(v);
    CanonicalTranslates(g, dtb, v);
    if Walk(g, ListFlags(g), Base(dtb), 3, v).Some? {
      var i := SomewhereListed(g, dtb, pages, v);
      assert InPage(pages[i], va) && Translate(g, dtb, va).None?;
    } else {
      NowhereListed(g, dtb, pages, v);
      assert forall i :: !OnlyIn(pages, i, va);
    }
  }

  lemma CanonicalTranslates(g: Guest, dtb: u64, v: u64)
    requires v < VA48
    ensures IsCanonical(Canonical(v))
    ensures Translate(g, dtb, Canonical(v)).Some? <==> Walk(g, WalkFlags(g), Base(dtb), 3, v).Some?
  {
    CanonicalLow(v);
    WalkLow48(g, WalkFlags(g), Base(dtb), 3, Canonical(v));
  }

  lemma SomewhereListed(g: Guest, dtb: u64, pages: seq<PageInfo>, v: u64) returns (i: int)
    requires Lists(g, ListFlags(g), Base(dtb), 3, 0, VA48, pages) && v < VA48
    requires Walk(g, ListFlags(g), Base(dtb), 3, v).Some?
    ensures 0 <= i < |pages| && InPage(pages[i], Canonical(v))
  {
    CanonicalLow(v);
    i :| 0 <= i < |pages| && Covers(pages[i], v);
    InPageIsCovers(pages[i], Canonical(v));
  }

  lemma NowhereListed(g: Guest, dtb: u64, pages: seq<PageInfo>, v: u64)
    requires Lists(g, ListFlags(g), Base(dtb), 3, 0, VA48, pages) && v < VA48
    requires Walk(g, ListFlags(g), Base(dtb), 3, v).None?
    ensures forall i :: 0 <= i < |pages| ==> !InPage(pages[i], Canonical(v))
  {
    CanonicalLow(v);
    forall i | 0 <= i < |pages| ensures !InPage(pages[i], Canonical(v)) {
      InPageIsCovers(pages[i], Canonical(v));
      hide Walk, InPage;
      assert Maps(g, ListFlags(g), Base(dtb), 3, pages[i]);
    }
  }

  /** The exact condition, guest by guest: the listing and the walk agree, in both directions, just when
      the flag tested for the lower levels is the right one or no address is mapped through a lower-level
      entry in transition. */
  lemma ListingAgreesIff(g: Guest, dtb: u64, pages: seq<PageInfo>)
    requires Lists(g, ListFlags(g), Base(dtb), 3, 0, VA48, pages)
    ensures ListedTranslate(g, dtb, pages) && TranslatedAreListed(g, dtb, pages) <==>
      g.transitionPages == g.osTypeSet || forall v: u64 :: v < VA48 ==> !MappedInTransition(g, dtb, v)
  {
    forall v: u64 | v < VA48
      ensures Walk(g, Flags(g.transitionPages, false), Base(dtb), 3, v) ==
        if MappedInTransition(g, dtb, v) then None
        else Walk(g, Flags(g.transitionPages, true), Base(dtb), 3, v)
    {
      TransitionLoses(g, g.transitionPages, Base(dtb), 3, v);
    }
    if g.transitionPages == g.osTypeSet || forall v: u64 :: v < VA48 ==> !MappedInTransition(g, dtb, v) {
      SameWalksAgree(g, dtb, pages);
    } else {
      var v: u64 :| v < VA48 && MappedInTransition(g, dtb, v);
      DifferentWalksDisagree(g, dtb, pages, v);
    }
  }

  /** With one transition flag at all levels the listing and the walk agree, in both directions. */
  lemma ListingAgrees(g: Guest, dtb: u64, pages: seq<PageInfo>)
    requires g.transitionPages == g.osTypeSet
    requires Lists(g, ListFlags(g), Base(dtb), 3, 0, VA48, pages)
    ensures ListedTranslate(g, dtb, pages) && TranslatedAreListed(g, dtb, pages)
  {
    ListingAgreesIff(g, dtb, pages);
  }

  // ---------------------------------------------------------------- and when the flags differ

  // A table whose only entry is entry 0, with the three given low bytes.
  function OneEntryTable(b0: byte, b1: byte, b2: byte): Page {
    [b0, b1, b2] + seq(PAGE_SIZE - 3, _ => 0)
  }

  lemma {:induction false} ZeroWord(s: seq<byte>)
    requires forall k :: 0 <= k < |s| ==> s[k] == 0
    ensures LittleEndian(s) == 0
  {
    if s == [] {
    } else {
      ZeroWord(s[1..]);
    }
  }

  lemma OneEntry(b0: byte, b1: byte, b2: byte, i: int)
    requires 0 <= i < ENTRIES
    ensures Word(OneEntryTable(b0, b1, b2), i) == if i == 0 then b0 as int + 0x100 * b1 + 0x1_0000 * b2 else 0
  {
    var t := OneEntryTable(b0, b1, b2);
    var s := t[8 * i..8 * i + 8];
    if i == 0 {
      assert s[0] == t[0] == b0 && s[1] == t[1] == b1 && s[2] == t[2] == b2;
      var s1 := s[1..];
      var s2 := s1[1..];
      ZeroWord(s2[1..]);
      assert s1[0] == s[1] && s2[0] == s1[1] == s[2];
      assert LittleEndian(s2) == b2 as int;
      assert LittleEndian(s1) == b1 as int + 0x100 * LittleEndian(s2);
      assert LittleEndian(s) == b0 as int + 0x100 * LittleEndian(s1);
    } else {
      ZeroWord(s);
    }
  }

  /** A guest whose address 0 is mapped by a 2 MB page-directory entry in transition. */
  function TransitionGuest(transitionPages: bool, osTypeSet: bool): Guest {
    Guest(map[1 := OneEntryTable(0x01, 0x20, 0), 2 := OneEntryTable(0x01, 0x30, 0),
              3 := OneEntryTable(0x80, 0x08, 0x20)],
          false, 0, transitionPages, osTypeSet)
  }

  lemma TransitionEntries(g: Guest, i: int)
    requires g == TransitionGuest(g.transitionPages, g.osTypeSet) && 0 <= i < ENTRIES
    ensures EntryAt(g, 0x1000, i) == Some(if i == 0 then 0x2001 else 0)
    ensures EntryAt(g, 0x2000, i) == Some(if i == 0 then 0x3001 else 0)
    ensures EntryAt(g, 0x3000, i) == Some(if i == 0 then 0x20_0880 else 0)
  {
    OneEntry(0x01, 0x20, 0, i);
    OneEntry(0x01, 0x30, 0, i);
    OneEntry(0x80, 0x08, 0x20, i);
  }

  lemma WalkStep(g: Guest, flags: Flags, root: u64, l: Level, va: u64, i: int, e: u64)
    requires i == Index(l, va) && EntryAt(g, root, i) == Some(e)
    ensures Walk(g, flags, root, l, va) ==
      if !Present(flags.At(l), e) then None
      else if IsLeaf(l, e) then Some(Leaf(l, e))
      else Walk(g, flags, Base(e), l - 1, va)
  {
  }

  lemma TransitionWalk(g: Guest, flags: Flags, v: u64, i3: int, i2: int, i1: int)
    requires g == TransitionGuest(g.transitionPages, g.osTypeSet)
    requires i3 == Index(3, v) && i2 == Index(2, v) && i1 == Index(1, v)
    ensures Walk(g, flags, 0x1000, 3, v) ==
      if flags.lower && i3 == 0 && i2 == 0 && i1 == 0 then Some(Leaf(1, 0x20_0880)) else None
  {
    TransitionEntries(g, i3);
    TransitionEntries(g, i2);
    TransitionEntries(g, i1);
    var e3, e2, e1 := if i3 == 0 then 0x2001 else 0, if i2 == 0 then 0x3001 else 0, if i1 == 0 then 0x20_0880 else 0;
    EntryBits(e3, e2, e1);
    WalkStep(g, flags, 0x1000, 3, v, i3, e3);
    WalkStep(g, flags, 0x2000, 2, v, i2, e2);
    WalkStep(g, flags, 0x3000, 1, v, i1, e1);
  }

  lemma EntryBits(e3: u64, e2: u64, e1: u64)
    requires (e3 == 0x2001 || e3 == 0) && (e2 == 0x3001 || e2 == 0) && (e1 == 0x20_0880 || e1 == 0)
    ensures forall t :: Present(t, e3) == (e3 != 0) && Present(t, e2) == (e2 != 0) && Present(t, e1) == (t && e1 != 0)
    ensures !IsLeaf(3, e3) && !IsLeaf(2, e2) && (e1 != 0 ==> IsLeaf(1, e1))
    ensures (e3 != 0 ==> Base(e3) == 0x2000) && (e2 != 0 ==> Base(e2) == 0x3000)
  {
  }

  lemma LowestSlot(v: u64)
    requires v < VA48
    ensures Index(3, v) == 0 && Index(2, v) == 0 && Index(1, v) == 0 <==> v < 0x20_0000
  {
    var a := v / 0x20_0000;
    DivModUnique(v, 0x4000_0000, a / 512, a % 512 * 0x20_0000 + v % 0x20_0000);
    var b := v / 0x4000_0000;
    DivModUnique(v, 0x80_0000_0000, b / 512, b % 512 * 0x4000_0000 + v % 0x4000_0000);
  }

  lemma TransitionAt(g: Guest, flags: Flags, v: u64)
    requires g == TransitionGuest(g.transitionPages, g.osTypeSet) && v < VA48
    ensures Walk(g, flags, 0x1000, 3, v) == if flags.lower && v < 0x20_0000 then Some(Leaf(1, 0x20_0880)) else None
  {
    TransitionWalk(g, flags, v, Index(3, v), Index(2, v), Index(1, v));
    LowestSlot(v);
  }

  lemma TransitionMaps(g: Guest, flags: Flags)
    requires g == TransitionGuest(g.transitionPages, g.osTypeSet) && flags.lower
    ensures Maps(g, flags, 0x1000, 3, PageInfo(0, 0x20_0000, 1))
  {
    var page := PageInfo(0, 0x20_0000, 1);
    forall v: u64 | Covers(page, v)
      ensures var w := Walk(g, flags, 0x1000, 3, v);
        w.Some? && Place(w.value, v).kind == 1 && Place(w.value, v).paddr == 0x20_0000 + v
    {
      TransitionAt(g, flags, v);
      TransitionPlace(v);
      hide Walk, Place;
    }
  }

  lemma TransitionPlace(v: u64)
    requires v < 0x20_0000
    ensures Place(Leaf(1, 0x20_0880), v) == Mapping(0x20_0000 + v, 1)
  {
    assert Frame(1, 0x20_0880) == 0x20_0000;
  }

  // Listing honours transition for the entry: exactly the first 2 MB are listed.
  lemma TransitionListed(g: Guest, flags: Flags)
    requires g == TransitionGuest(g.transitionPages, g.osTypeSet)
    ensures Lists(g, flags, 0x1000, 3, 0, VA48, if flags.lower then [PageInfo(0, 0x20_0000, 1)] else [])
  {
    var pages := if flags.lower then [PageInfo(0, 0x20_0000, 1)] else [];
    forall v: u64 | v < VA48 && Walk(g, flags, 0x1000, 3, v).Some?
      ensures exists i :: 0 <= i < |pages| && Covers(pages[i], v)
    {
      TransitionAt(g, flags, v);
      assert Covers(pages[0], v);
    }
    if flags.lower {
      TransitionMaps(g, flags);
      assert InRegion(pages[0], 0, VA48);
    }
  }

  /** When the flags differ, the listing is wrong for some guest: it misses a translated page, or
      lists one that does not translate. */
  lemma ListingDisagrees(g: Guest, pages: seq<PageInfo>)
    requires g == TransitionGuest(g.transitionPages, g.osTypeSet) && g.transitionPages != g.osTypeSet
    requires pages == if g.osTypeSet then [PageInfo(0, 0x20_0000, 1)] else []
    ensures Lists(g, ListFlags(g), Base(0x1000), 3, 0, VA48, pages)
    ensures if g.osTypeSet then !ListedTranslate(g, 0x1000, pages) else !TranslatedAreListed(g, 0x1000, pages)
  {
    assert Base(0x1000) == 0x1000;
    TransitionListed(g, ListFlags(g));
    LowestSlot(0);
    TransitionWalk(g, Flags(g.transitionPages, g.transitionPages), 0, 0, 0, 0);
    if g.osTypeSet {
      assert InPage(pages[0], 0) && Translate(g, 0x1000, 0).None?;
    } else {
      assert IsCanonical(0) && Translate(g, 0x1000, 0).Some?;
    }
  }

  /** The condition that does not look at the guest: the listing can be relied on for every guest and
      address space just when `vmi->os_type` happens to have the truth value of the transition flag. */
  lemma ListingReliableIff(transitionPages: bool, osTypeSet: bool)
    ensures transitionPages == osTypeSet <==>
      forall g: Guest, dtb, pages ::
        g.transitionPages == transitionPages && g.osTypeSet == osTypeSet
        && Lists(g, ListFlags(g), Base(dtb), 3, 0, VA48, pages)
        ==> ListedTranslate(g, dtb, pages) && TranslatedAreListed(g, dtb, pages)
  {
    if transitionPages == osTypeSet {
      forall g: Guest, dtb, pages |
        g.transitionPages == transitionPages && g.osTypeSet == osTypeSet
        && Lists(g, ListFlags(g), Base(dtb), 3, 0, VA48, pages)
        ensures ListedTranslate(g, dtb, pages) && TranslatedAreListed(g, dtb, pages)
      {
        ListingAgrees(g, dtb, pages);
      }
    } else {
      var g := TransitionGuest(transitionPages, osTypeSet);
      ListingDisagrees(g, if osTypeSet then [PageInfo(0, 0x20_0000, 1)] else []);
    }
  }
}
