/** The read stack: `vmi_read` (tiny-vmi/read.c), the cached page-table lookup
    (tiny-vmi/accessors.c), the translation cache (tiny-vmi/cache.c) and the page-table walk
    (tiny-vmi/arch/amd64.c), which call each other in a circle that ends at physical reads. */
module ReadStack {
  import opened Bits
  import opened Sequences
  import opened Paging
  import opened PageCache

  /** access_context_t. */
  datatype AccessContext =
    | TmNone(addr: u64)
    | KernelSymbol(ksym: string)
    | ProcessPid(addr: u64, pid: int)
    | ProcessDtb(addr: u64, dtb: u64)
    | Undefined

  /** Where a read starts: an address space (0: physical memory) and an address in it. */
  datatype Start = Start(dtb: u64, addr: u64)

  /** The number of pages that `count` bytes from page offset `offset` touch. */
  function PagesTouched(offset: nat, count: nat): nat {
    if count == 0 then 0 else (offset + count - 1) / PAGE_SIZE + 1
  }

  /** How much of a request one page can serve from `offset` on. */
  function ChunkLength(offset: nat, count: nat): nat
    requires offset < PAGE_SIZE
  {
    if offset + count > PAGE_SIZE then PAGE_SIZE - offset else count
  }

  /** Byte `i` after physical address `paddr`, in 64-bit arithmetic. */
  function PhysByteAfter(g: Guest, paddr: u64, i: nat): Option<byte> { PhysByte(g, (paddr + i) % WORD) }

  /** The `n` bytes from `paddr` on, when all of them are readable. */
  function PhysBytes(g: Guest, paddr: u64, n: nat): (r: Option<seq<byte>>)
    ensures r.Some? ==> |r.value| == n && forall i :: 0 <= i < n ==> PhysByteAfter(g, paddr, i) == Some(r.value[i])
    ensures r.None? ==> exists i :: 0 <= i < n && PhysByteAfter(g, paddr, i).None?
  {
    if n == 0 then Some([])
    else match PhysBytes(g, paddr, n - 1)
      case None => None
      case Some(s) =>
        match PhysByteAfter(g, paddr, n - 1)
        case None => None
        case Some(b) => Some(s + [b])
  }

  /** A 64-bit word read from physical memory, byte by byte. */
  function PhysWord(g: Guest, paddr: u64): Option<u64> {
    match PhysBytes(g, paddr, 8)
    case None => None
    case Some(s) => Some(Word64(s))
  }

  lemma BytesAreThese(g: Guest, paddr: u64, s: seq<byte>)
    requires forall i :: 0 <= i < |s| ==> PhysByteAfter(g, paddr, i) == Some(s[i])
    ensures PhysBytes(g, paddr, |s|) == Some(s)
  {
    var r := PhysBytes(g, paddr, |s|);
    assert r.Some?;
    assert forall i :: 0 <= i < |s| ==> r.value[i] == s[i];
    assert r.value == s;
  }

  // A paging-structure entry is the word its eight bytes spell.
  lemma EntryIsWord(g: Guest, base: u64, i: int)
    requires base % PAGE_SIZE == 0 && base + PAGE_SIZE <= PHYS_LIMIT && 0 <= i < ENTRIES
    ensures PhysWord(g, base + 8 * i) == EntryAt(g, base, i)
  {
    EntryStaysInPage(base, i);
    var fetched, o := FetchPage(g, base), 8 * i;
    var a := base + o;
    forall k | 0 <= k < 8
      ensures PhysByteAfter(g, a, k) == if fetched.None? then None else Some(fetched.value[o + k])
    {
      StepInPage(a, k);
    }
    if fetched.Some? {
      BytesAreThese(g, a, fetched.value[o..o + 8]);
    }
  }

  /** The parts of a virtual address: an index for each level and an offset, below the sign bits. */
  datatype Parts = Parts(sign: nat, i3: nat, i2: nat, i1: nat, i0: nat, offset: nat) {
    predicate Fit() { i3 < 512 && i2 < 512 && i1 < 512 && i0 < 512 && offset < 4096 }

    function Address(): nat { ((((sign * 512 + i3) * 512 + i2) * 512 + i1) * 512 + i0) * 4096 + offset }
  }

  /** Entry `i` of the table whose address is in bits 12..51 of `pointer` reads as `e`. */
  predicate EntryReads(g: Guest, pointer: u64, i: nat, e: u64)
    requires i < 512
  {
    PhysWord(g, pointer / 0x1000 % 0x100_0000_0000 * 0x1000 + 8 * i) == Some(e)
  }

  lemma PartsOf(p: Parts, va: u64)
    requires p.Fit() && va == p.Address()
    ensures Index(3, va) == p.i3 && Index(2, va) == p.i2 && Index(1, va) == p.i1 && Index(0, va) == p.i0
    ensures SpanOffset(0, va) == p.offset && SpanOffset(1, va) == p.i0 * 0x1000 + p.offset
    ensures SpanOffset(2, va) == p.i1 * 0x20_0000 + p.i0 * 0x1000 + p.offset
  {
    var n3 := p.sign * 512 + p.i3;
    var n2 := n3 * 512 + p.i2;
    var n1 := n2 * 512 + p.i1;
    var n0 := n1 * 512 + p.i0;
    DivModUnique(va, 0x1000, n0, p.offset);
    DivModUnique(va, 0x20_0000, n1, p.i0 * 0x1000 + p.offset);
    DivModUnique(va, 0x4000_0000, n2, p.i1 * 0x20_0000 + p.i0 * 0x1000 + p.offset);
    DivModUnique(va, 0x80_0000_0000, n3, p.i2 * 0x4000_0000 + p.i1 * 0x20_0000 + p.i0 * 0x1000 + p.offset);
    DivModUnique(n0, 512, n1, p.i0);
    DivModUnique(n1, 512, n2, p.i1);
    DivModUnique(n2, 512, n3, p.i2);
    DivModUnique(n3, 512, p.sign, p.i3);
  }

  // One level down, from the table in bits 12..51 of `pointer` to the one in those of its entry `e`.
  lemma Descend(g: Guest, l: Level, pointer: u64, va: u64, e: u64)
    requires EntryReads(g, pointer, Index(l, va), e) && e % 2 == 1
    ensures var flags := Flags(g.transitionPages, g.transitionPages);
      Walk(g, flags, Base(pointer), l, va) ==
        if IsLeaf(l, e) then Some(Leaf(l, e)) else Walk(g, flags, Base(e), l - 1, va)
  {
    EntryIsWord(g, Base(pointer), Index(l, va));
    hide EntryAt, Index, Base;
  }

  lemma DescendTwice(g: Guest, dtb: u64, va: u64, e3: u64, e2: u64)
    requires EntryReads(g, dtb, Index(3, va), e3) && e3 % 2 == 1
    requires EntryReads(g, e3, Index(2, va), e2) && e2 % 2 == 1 && e2 / 0x80 % 2 == 0
    ensures var flags := Flags(g.transitionPages, g.transitionPages);
      Walk(g, flags, Base(dtb), 3, va) == Walk(g, flags, Base(e2), 1, va)
  {
    hide Walk, Index, EntryReads, Base;
    Descend(g, 3, dtb, va, e3);
    Descend(g, 2, e3, va, e2);
  }

  /** The reference walk in bits, through entries with the present bit set: two of them lead to a 1 GB
      page if bit 7 of the second is set, ... */
  lemma GigPageInBits(g: Guest, dtb: u64, va: u64, p: Parts, e3: u64, e2: u64)
    requires p.Fit() && va == p.Address() && e3 % 2 == 1 && e2 % 2 == 1
    requires EntryReads(g, dtb, p.i3, e3) && EntryReads(g, e3, p.i2, e2) && e2 / 0x80 % 2 == 1
    ensures Translate(g, dtb, va) == Some(
      Mapping(e2 / 0x4000_0000 % 0x40_0000 * 0x4000_0000 + p.i1 * 0x20_0000 + p.i0 * 0x1000 + p.offset, 2))
  {
    PartsOf(p, va);
    hide Walk, Index, SpanOffset, EntryReads, Base, Frame, Parts.Address;
    Descend(g, 3, dtb, va, e3);
    Descend(g, 2, e3, va, e2);
    FrameIsField(2, e2);
  }

  /** ... three to a 2 MB page if it is not and that of the third is, ... */
  lemma TwoMegPageInBits(g: Guest, dtb: u64, va: u64, p: Parts, e3: u64, e2: u64, e1: u64)
    requires p.Fit() && va == p.Address() && e3 % 2 == 1 && e2 % 2 == 1 && e1 % 2 == 1
    requires EntryReads(g, dtb, p.i3, e3) && EntryReads(g, e3, p.i2, e2) && e2 / 0x80 % 2 == 0
    requires EntryReads(g, e2, p.i1, e1) && e1 / 0x80 % 2 == 1
    ensures Translate(g, dtb, va) ==
      Some(Mapping(e1 / 0x20_0000 % 0x8000_0000 * 0x20_0000 + p.i0 * 0x1000 + p.offset, 1))
  {
    PartsOf(p, va);
    hide Walk, Index, SpanOffset, EntryReads, Base, Frame, Parts.Address;
    DescendTwice(g, dtb, va, e3, e2);
    Descend(g, 1, e2, va, e1);
    FrameIsField(1, e1);
  }

  /** ... and four to a 4 KB page if neither is. */
  lemma SmallPageInBits(g: Guest, dtb: u64, va: u64, p: Parts, e3: u64, e2: u64, e1: u64, e0: u64)
    requires p.Fit() && va == p.Address() && e3 % 2 == 1 && e2 % 2 == 1 && e1 % 2 == 1 && e0 % 2 == 1
    requires EntryReads(g, dtb, p.i3, e3) && EntryReads(g, e3, p.i2, e2) && e2 / 0x80 % 2 == 0
    requires EntryReads(g, e2, p.i1, e1) && e1 / 0x80 % 2 == 0 && EntryReads(g, e1, p.i0, e0)
    ensures Translate(g, dtb, va) == Some(Mapping(e0 / 0x1000 % 0x100_0000_0000 * 0x1000 + p.offset, 0))
  {
    PartsOf(p, va);
    hide Walk, Index, SpanOffset, EntryReads, Base, Frame, Parts.Address;
    DescendTwice(g, dtb, va, e3, e2);
    Descend(g, 1, e2, va, e1);
    Descend(g, 0, e1, va, e0);
    FrameIsField(0, e0);
  }

  // Moving on inside a page neither wraps around nor changes the page.
  lemma StepInPage(a: u64, i: nat)
    requires a % PAGE_SIZE + i < PAGE_SIZE
    ensures a + i < WORD && (a + i) % WORD == a + i
    ensures (a + i) / PAGE_SIZE == a / PAGE_SIZE && (a + i) % PAGE_SIZE == a % PAGE_SIZE + i
  {
    AddOffset(a - a % PAGE_SIZE, a % PAGE_SIZE + i);
  }

  lemma ByteInFrame(g: Guest, p: u64, q: u64, k: nat)
    requires p / PAGE_SIZE == q / PAGE_SIZE && q % PAGE_SIZE == p % PAGE_SIZE + k
    ensures PhysByte(g, q) ==
      match FetchPage(g, p / PAGE_SIZE * PAGE_SIZE)
      case None => None
      case Some(page) => Some(page[p % PAGE_SIZE + k])
  {
  }

  // The page offset of an address, as `vmi_read` masks it, and its frame number.
  lemma OffsetAndFrame(paddr: u64)
    ensures And(paddr, PAGE_SIZE - 1) == paddr % PAGE_SIZE && Shr(paddr, 12) == paddr / PAGE_SIZE
  {
    Powers();
    AndLow(paddr, 12);
    ShiftIsDivision(paddr, 12);
  }

  /** The address of the page that `pa` lies in. */
  function PageOf(pa: u64): u64 { pa - pa % PAGE_SIZE }

  // What the translation cache stores: the address without its page offset ...
  lemma StoredAddress(pa: u64)
    ensures BitMask(0, 11) < WORD && And(pa, Not(BitMask(0, 11))) == PageOf(pa)
  {
    LowMask();
    AlignDown(pa);
  }

  lemma LowMask()
    ensures BitMask(0, 11) == PAGE_SIZE - 1
  {
    Powers();
    MaskValue(0, 11);
    assert Shr(BitMask(0, 11), 0) == BitMask(0, 11);
  }

  // ... and what it gives back: the offset of the virtual address put in its place.
  lemma RestoredAddress(pa: u64, va: u64)
    requires pa % PAGE_SIZE == va % PAGE_SIZE
    ensures Or(PageOf(pa), And(va, BitMask(0, 11))) == pa
  {
    Powers();
    hide And, Or, BitMask, Pow2;
    LowField(va, 11, 0x1000);
    Disjoint(pa - pa % PAGE_SIZE, va % PAGE_SIZE, 12, 0x1000);
  }

  /** The translation cache with the page address of `pa` recorded for `va`. */
  function Stored(c: map<u64, map<u64, u64>>, dtb: u64, va: u64, pa: u64): map<u64, map<u64, u64>> {
    var space: map<u64, u64> := if dtb in c then c[dtb] else map[];
    c[dtb := space[va := PageOf(pa)]]
  }

  /** v2p_cache_set never records a zero address. */
  function Recorded(c: map<u64, map<u64, u64>>, dtb: u64, va: u64, pa: u64): map<u64, map<u64, u64>> {
    if va == 0 || dtb == 0 || pa == 0 then c else Stored(c, dtb, va, pa)
  }

  predicate IsCached(c: map<u64, map<u64, u64>>, dtb: u64, va: u64) {
    dtb in c && va in c[dtb]
  }

  lemma WrapAdd(a: nat, b: nat, k: nat)
    ensures (a + (b + k)) % WORD == ((a + b) % WORD + k) % WORD
  {
    var t := (a + b) % WORD + k;
    DivModUnique(a + (b + k), WORD, (a + b) / WORD + t / WORD, t % WORD);
  }

  /** The translation cache without `va`; an address space left empty is dropped. */
  function Dropped(c: map<u64, map<u64, u64>>, dtb: u64, va: u64): map<u64, map<u64, u64>>
    requires dtb in c
  {
    var space: map<u64, u64> := c[dtb] - {va};
    if |space| == 0 then c - {dtb} else c[dtb := space]
  }

  /** Apart from `va` in the space `dtb`, the same addresses are cached, with the same pages. */
  ghost predicate SameElsewhere(c: map<u64, map<u64, u64>>, after: map<u64, map<u64, u64>>, dtb: u64, va: u64) {
    forall d, a :: d != dtb || a != va ==>
      (IsCached(after, d, a) <==> IsCached(c, d, a)) && (IsCached(c, d, a) ==> after[d][a] == c[d][a])
  }

  lemma ElsewhereItself(c: map<u64, map<u64, u64>>, dtb: u64, va: u64)
    ensures SameElsewhere(c, c, dtb, va)
  {
  }

  lemma StoredThere(c: map<u64, map<u64, u64>>, dtb: u64, va: u64, pa: u64)
    ensures var after := Stored(c, dtb, va, pa);
      IsCached(after, dtb, va) && after[dtb][va] == PageOf(pa) && SameElsewhere(c, after, dtb, va)
  {
  }

  // An address space stays exactly when another of its addresses was cached.
  lemma DroppedThere(c: map<u64, map<u64, u64>>, dtb: u64, va: u64)
    requires IsCached(c, dtb, va)
    ensures var after := Dropped(c, dtb, va);
      && !IsCached(after, dtb, va) && SameElsewhere(c, after, dtb, va)
      && (dtb in after <==> exists a :: a != va && IsCached(c, dtb, a))
      && after.Keys - {dtb} == c.Keys - {dtb}
  {
  }

  lemma DroppedInSteps(c: map<u64, map<u64, u64>>, dtb: u64, va: u64)
    requires dtb in c
    ensures var space: map<u64, u64> := c[dtb] - {va};
      Dropped(c, dtb, va) == if |space| == 0 then c[dtb := space] - {dtb} else c[dtb := space]
  {
  }

  /** time(NULL): any reading, in any order. */
  method Time() returns (now: int) { now := *; }

  /** ENTRY_PRESENT(transition, e). */
  method IsPresent(transition: bool, e: u64) returns (present: bool)
    ensures present == Present(transition, e)
    ensures present <==> e % 2 == 1 || (transition && e / 0x800 % 2 == 1 && e / 0x400 % 2 == 0)
  {
    EntryPresentIsPresent(transition, e);
    present := EntryPresent(transition, e);
  }

  /** PAGE_SIZE(e). */
  method MapsLargePage(e: u64) returns (large: bool)
    ensures large == Bit(e, 0x80)
    ensures large <==> e / 0x80 % 2 == 1
  {
    EntryPresentIsPresent(false, e);
    large := GetBit(e, 7);
  }

  /** get_paddr_ia32e, get_2megpage_ia32e, get_gigpage_ia32e. */
  method PagePaddr(l: Level, va: u64, e: u64) returns (paddr: u64)
    requires l < 3
    ensures paddr == Place(Leaf(l, e), va).paddr
  {
    PageAddressIsSum(l, va, e);
    paddr := PageAddress(l, va, e);
  }

  /** memcpy into a buffer. */
  method CopyBytes(buf: array<byte>, at: nat, src: seq<byte>)
    requires at + |src| <= buf.Length
    modifies buf
    ensures forall i :: at <= i < at + |src| ==> buf[i] == src[i - at]
    ensures forall i :: 0 <= i < buf.Length && !(at <= i < at + |src|) ==> buf[i] == old(buf[i])
  {
    forall i | at <= i < at + |src| {
      buf[i] := src[i - at];
    }
  }

  class Vmi {
    const guest: Guest
    const cache: MemoryCache
    const hasArch: bool               // vmi->arch_interface is set, with v2p == v2p_ia32e
    const hasOs: bool                 // vmi->os_interface is set
    const kpgd: u64
    const pidToDtb: map<int, u64>     // vmi_pid_to_dtb
    const ksymToVa: map<string, u64>  // vmi_translate_ksym2v
    var v2pCache: map<u64, map<u64, u64>>

    constructor (cache: MemoryCache, hasArch: bool, hasOs: bool, kpgd: u64,
                 pidToDtb: map<int, u64>, ksymToVa: map<string, u64>)
      requires cache.Valid()
      ensures Valid() && v2pCache == map[] && this.cache == cache && guest == cache.guest
      ensures this.hasArch == hasArch && this.hasOs == hasOs && this.kpgd == kpgd
      ensures this.pidToDtb == pidToDtb && this.ksymToVa == ksymToVa
    {
      guest, this.cache, this.hasArch, this.hasOs := cache.guest, cache, hasArch, hasOs;
      this.kpgd, this.pidToDtb, this.ksymToVa := kpgd, pidToDtb, ksymToVa;
      v2pCache := map[];
    }

    /** The page cache is coherent and every cached translation is the one the page tables give. */
    ghost predicate Valid()
      reads this, cache
    {
      && cache.guest == guest && cache.Valid()
      && AllSound(v2pCache)
    }

    ghost predicate AllSound(c: map<u64, map<u64, u64>>) {
      forall dtb, va :: dtb in c && va in c[dtb] ==> Sound(dtb, va, c[dtb][va])
    }

    ghost predicate Sound(dtb: u64, va: u64, stored: u64) {
      && Translation(dtb, va).Some?
      && var pa := Translation(dtb, va).value.paddr; stored == PageOf(pa) && pa % PAGE_SIZE == va % PAGE_SIZE
    }

    /** Uncached translation; without an architecture interface there is none. */
    function Translation(dtb: u64, va: u64): Option<Mapping> {
      if hasArch then Translate(guest, dtb, va) else None
    }

    /** The byte a byte-by-byte reader without caches finds. */
    function Byte(dtb: u64, a: u64): Option<byte> {
      if dtb == 0 then PhysByte(guest, a)
      else match Translation(dtb, a)
        case None => None
        case Some(m) => PhysByte(guest, m.paddr)
    }

    /** Byte `i` of a range, in 64-bit address arithmetic. */
    function ByteAfter(start: Start, i: nat): Option<byte> { Byte(start.dtb, (start.addr + i) % WORD) }

    // -------------------------------------------------------------- translation cache

    /** v2p_cache_get. */
    function V2pCacheGet(va: u64, dtb: u64): (r: Option<u64>)
      requires Valid()
      reads this, cache
      ensures r.Some? ==> Translation(dtb, va).Some? && r.value == Translation(dtb, va).value.paddr
      ensures r.Some? <==> IsCached(v2pCache, dtb, va)
    {
      if IsCached(v2pCache, dtb, va) then
        assert Sound(dtb, va, v2pCache[dtb][va]);
        RestoredAddress(Translation(dtb, va).value.paddr, va);
        Some(Or(v2pCache[dtb][va], And(va, BitMask(0, 11))))
      else None
    }

    /** v2p_cache_set. Whatever address is recorded, the cache stays sound exactly when its page is the
        one that the page tables give, or nothing is recorded. */
    method V2pCacheSet(va: u64, dtb: u64, pa: u64)
      requires Valid()
      modifies this`v2pCache
      ensures va == 0 || dtb == 0 || pa == 0 ==> v2pCache == old(v2pCache)
      ensures va != 0 && dtb != 0 && pa != 0 ==>
        IsCached(v2pCache, dtb, va) && v2pCache[dtb][va] == pa - pa % 4096
      ensures SameElsewhere(old(v2pCache), v2pCache, dtb, va)
      ensures v2pCache == Recorded(old(v2pCache), dtb, va, pa)
      ensures Valid() <==> va == 0 || dtb == 0 || pa == 0 || Sound(dtb, va, PageOf(pa))
    {
      hide SameElsewhere;
      ElsewhereItself(v2pCache, dtb, va);
      if va == 0 || dtb == 0 || pa == 0 { return; }
      StoredSoundIff(v2pCache, dtb, va, pa);
      StoredThere(v2pCache, dtb, va, pa);
      hide Vmi.AllSound, And, BitMask;
      ghost var before := v2pCache;
      if dtb !in v2pCache {
        v2pCache := v2pCache[dtb := map[]];
      }
      var space: map<u64, u64> := v2pCache[dtb];
      var stored: u64 := And(pa, Not(BitMask(0, 11)));
      v2pCache := v2pCache[dtb := space[va := stored]];
      assert v2pCache == Stored(before, dtb, va, pa);
    }

    lemma StoredSoundIff(c: map<u64, map<u64, u64>>, dtb: u64, va: u64, pa: u64)
      requires AllSound(c)
      ensures AllSound(Stored(c, dtb, va, pa)) <==> Sound(dtb, va, PageOf(pa))
      ensures BitMask(0, 11) < WORD && And(pa, Not(BitMask(0, 11))) == PageOf(pa)
    {
      var after := Stored(c, dtb, va, pa);
      assert dtb in after && va in after[dtb] && after[dtb][va] == PageOf(pa);
      StoredAddress(pa);
    }

    // A translation is always sound to record.
    lemma TranslationIsSound(dtb: u64, va: u64, pa: u64)
      requires Translation(dtb, va).Some? && Translation(dtb, va).value.paddr == pa
      ensures Sound(dtb, va, PageOf(pa))
    {
      TranslateWithinPage(guest, dtb, va, va);
    }

    /** v2p_cache_del. Afterwards nothing is cached for the address, so that a second deletion fails; an
        address space goes with the last address cached for it. */
    method V2pCacheDel(va: u64, dtb: u64) returns (ok: bool)
      requires Valid()
      modifies this`v2pCache
      ensures Valid()
      ensures ok <==> IsCached(old(v2pCache), dtb, va)
      ensures !IsCached(v2pCache, dtb, va) && SameElsewhere(old(v2pCache), v2pCache, dtb, va)
      ensures !ok ==> v2pCache == old(v2pCache)
      ensures ok ==> (dtb in v2pCache <==> exists a :: a != va && IsCached(old(v2pCache), dtb, a))
      ensures ok ==> v2pCache.Keys - {dtb} == old(v2pCache).Keys - {dtb}
      ensures v2pCache == if ok then Dropped(old(v2pCache), dtb, va) else old(v2pCache)
    {
      hide SameElsewhere;
      ElsewhereItself(v2pCache, dtb, va);
      if IsCached(v2pCache, dtb, va) {
        DroppedIsSound(v2pCache, dtb, va);
        DroppedThere(v2pCache, dtb, va);
        DroppedInSteps(v2pCache, dtb, va);
        hide Vmi.AllSound, Dropped, IsCached;
        var space: map<u64, u64> := v2pCache[dtb] - {va};
        v2pCache := v2pCache[dtb := space];
        if |space| == 0 {
          v2pCache := v2pCache - {dtb};
        }
        return true;
      }
      return false;
    }

    lemma DroppedIsSound(c: map<u64, map<u64, u64>>, dtb: u64, va: u64)
      requires AllSound(c) && dtb in c
      ensures AllSound(Dropped(c, dtb, va))
    {
    }

    /** v2p_cache_flush; all ones flushes every address space. */
    method V2pCacheFlush(dtb: u64)
      requires Valid()
      modifies this`v2pCache
      ensures Valid()
      ensures v2pCache ==
        if dtb == WORD - 1 then map[]
        else if dtb in old(v2pCache) then old(v2pCache)[dtb := map[]]
        else old(v2pCache)
    {
      if dtb == WORD - 1 {
        v2pCache := map[];
      } else if dtb in v2pCache {
        v2pCache := v2pCache[dtb := map[]];
      }
    }

    // -------------------------------------------------------------- reading

    /** vmi_read_page: the driver shifts the frame number back into an address. */
    method ReadPage(pfn: u64) returns (page: Option<Page>)
      requires Valid() && pfn < WORD / PAGE_SIZE
      modifies cache
      ensures Valid() && page == FetchPage(guest, pfn * PAGE_SIZE)
    {
      Powers();
      var now := Time();
      page := cache.Insert(Shl(pfn, 12), now, Enough);
    }

    // Measure of the circular calls: a read that still has to translate is larger.
    ghost function Needs(dtb: u64): int { if dtb == 0 then 0 else 1 }

    /** vmi_read. Without a context, a buffer or a start that can be resolved nothing is read. Otherwise
        exactly the longest readable prefix of the range arrives in the buffer, each byte the one found at
        its own uncached translation; the call succeeds when that is all of it. */
    method Read(ctx: Option<AccessContext>, count: nat, buf: array?<byte>)
      returns (ok: bool, bytesRead: nat, ghost rounds: nat)
      requires Valid()
      requires buf != null ==> count <= buf.Length && count + PAGE_SIZE <= WORD
      modifies this`v2pCache, cache, buf
      ensures Valid()
      ensures buf == null || ctx.None? ==> Refused(ok, bytesRead)
      ensures buf != null ==> bytesRead <= count && buf[bytesRead..] == old(buf[bytesRead..])
      ensures buf != null && ctx.Some? ==>
        match ctx.value
        case TmNone(addr) => Delivered(Start(0, addr), count, ok, buf[..bytesRead], rounds)
        case KernelSymbol(ksym) =>
          if hasArch && hasOs && kpgd != 0 && ksym in ksymToVa
          then Delivered(Start(kpgd, ksymToVa[ksym]), count, ok, buf[..bytesRead], rounds)
          else Refused(ok, bytesRead)
        case ProcessPid(addr, pid) =>
          if hasArch && hasOs && pid == 0 && kpgd != 0
          then Delivered(Start(kpgd, addr), count, ok, buf[..bytesRead], rounds)
          else if hasArch && hasOs && pid > 0 && pid in pidToDtb && pidToDtb[pid] != 0
          then Delivered(Start(pidToDtb[pid], addr), count, ok, buf[..bytesRead], rounds)
          else Refused(ok, bytesRead)
        case ProcessDtb(addr, dtb) =>
          if hasArch then Delivered(Start(dtb, addr), count, ok, buf[..bytesRead], rounds)
          else Refused(ok, bytesRead)
        case Undefined => Refused(ok, bytesRead)
      ensures ctx.None? || ctx.value.TmNone? || ctx.value == Undefined ==> v2pCache == old(v2pCache)
      ensures ctx.Some? && ctx.value.ProcessDtb? && ctx.value.dtb == 0 ==> v2pCache == old(v2pCache)
      decreases if ctx.Some? && !ctx.value.TmNone? then 1 else 0, 8
    {
      ok, bytesRead, rounds := false, 0, 0;
      if ctx.None? { return; }
      if buf == null { return; }
      var dtb: u64, start: u64 := 0, 0;
      match ctx.value {
        case TmNone(addr) =>
          start := addr;
        case KernelSymbol(ksym) =>
          if !hasArch || !hasOs || kpgd == 0 { return; }
          dtb := kpgd;
          if ksym !in ksymToVa { return; }
          start := ksymToVa[ksym];
        case ProcessPid(addr, pid) =>
          if !hasArch { return; }
          if !hasOs { return; }
          if pid == 0 {
            dtb := kpgd;
          } else if pid > 0 {
            if pid !in pidToDtb { return; }
            dtb := pidToDtb[pid];
          }
          if dtb == 0 { return; }
          start := addr;
        case ProcessDtb(addr, d) =>
          if !hasArch { return; }
          dtb, start := d, addr;
        case Undefined =>
          return;
      }
      ok, bytesRead, rounds := ReadFrom(dtb, start, count, buf);
    }

    /** Nothing is read. */
    ghost predicate Refused(ok: bool, bytesRead: nat) { !ok && bytesRead == 0 }

    /** What one read of `count` bytes from `start` promises of its outcome. */
    ghost predicate Delivered(start: Start, count: nat, ok: bool, got: seq<byte>, rounds: nat) {
      && |got| <= count
      && Arrived(start, got)
      && (ok <==> |got| == count)
      && (!ok ==> ByteAfter(start, |got|).None?)
      && (ok ==> rounds == PagesTouched(start.addr % PAGE_SIZE, count))
    }

    /** `got` are the first bytes of the range. */
    ghost predicate Arrived(start: Start, got: seq<byte>) {
      forall i :: 0 <= i < |got| ==> ByteAfter(start, i) == Some(got[i])
    }

    /** The outcome of reading each of the first bytes of a range by itself. */
    ghost predicate Wanted(start: Start, want: seq<Option<byte>>) {
      forall i {:trigger ByteAfter(start, i)} :: 0 <= i < |want| ==> ByteAfter(start, i) == want[i]
    }

    lemma Want(start: Start, n: nat) returns (want: seq<Option<byte>>)
      ensures |want| == n && Wanted(start, want)
    {
      want := seq(n, i requires 0 <= i => ByteAfter(start, i));
    }

    // Translating the first byte of a chunk is enough for the rest of its page.
    lemma ChunkBytes(dtb: u64, va: u64, paddr: u64, k: nat)
      requires va % PAGE_SIZE + k < PAGE_SIZE
      requires if dtb == 0 then paddr == va
               else Translation(dtb, va).Some? && Translation(dtb, va).value.paddr == paddr
      ensures paddr % PAGE_SIZE == va % PAGE_SIZE
      ensures ByteAfter(Start(dtb, va), k) ==
        match FetchPage(guest, paddr / PAGE_SIZE * PAGE_SIZE)
        case None => None
        case Some(page) => Some(page[va % PAGE_SIZE + k])
    {
      StepInPage(va, k);
      var vb: u64 := (va + k) % WORD;
      if dtb == 0 {
        ByteInFrame(guest, va, vb, k);
      } else {
        TranslateWithinPage(guest, dtb, va, vb);
        ByteInFrame(guest, paddr, Translation(dtb, vb).value.paddr, k);
      }
    }

    /** The first half of a round of `vmi_read`: one lookup and one page, which hold every byte from
        `va` to the end of its page. */
    method Locate(dtb: u64, va: u64) returns (ok: bool, memory: Page, offset: int)
      requires Valid()
      modifies this`v2pCache, cache
      ensures Valid() && (dtb == 0 ==> v2pCache == old(v2pCache))
      ensures ok == Byte(dtb, va).Some? && offset == va % PAGE_SIZE
      ensures ok ==> Arrived(Start(dtb, va), memory[offset..])
      decreases Needs(dtb), 5
    {
      ok, memory, offset := false, seq(PAGE_SIZE, _ => 0), va % PAGE_SIZE;
      var paddr := va;
      if dtb != 0 {
        var found;
        found, paddr := LookupCache(dtb, va);
        if !found { return; }
      }
      OffsetAndFrame(paddr);
      ChunkBytes(dtb, va, paddr, 0);
      var page := ReadPage(Shr(paddr, 12));
      if page.None? { return; }
      ok, memory, offset := true, page.value, And(paddr, PAGE_SIZE - 1);
      PageBytes(dtb, va, paddr, memory, offset);
    }

    lemma ChunkByte(dtb: u64, va: u64, paddr: u64, page: Page, o: nat, k: nat)
      requires if dtb == 0 then paddr == va
               else Translation(dtb, va).Some? && Translation(dtb, va).value.paddr == paddr
      requires FetchPage(guest, paddr / PAGE_SIZE * PAGE_SIZE) == Some(page)
      requires o == paddr % PAGE_SIZE && o + k < PAGE_SIZE
      ensures ByteAfter(Start(dtb, va), k) == Some(page[o + k])
    {
      hide Vmi.ByteAfter, Vmi.Translation, FetchPage;
      ChunkBytes(dtb, va, paddr, 0);
      ChunkBytes(dtb, va, paddr, k);
    }

    lemma PageBytes(dtb: u64, va: u64, paddr: u64, page: Page, o: nat)
      requires if dtb == 0 then paddr == va
               else Translation(dtb, va).Some? && Translation(dtb, va).value.paddr == paddr
      requires FetchPage(guest, paddr / PAGE_SIZE * PAGE_SIZE) == Some(page)
      requires o == paddr % PAGE_SIZE
      ensures Arrived(Start(dtb, va), page[o..])
    {
      var rest, start := page[o..], Start(dtb, va);
      forall k | 0 <= k < |rest| ensures ByteAfter(start, k) == Some(rest[k]) {
        ChunkByte(dtb, va, paddr, page, o, k);
      }
    }

    /** One round of the loop of `vmi_read`: the rest of one page, or of the request. */
    method ReadRound(start: Start, ghost want: seq<Option<byte>>, count: nat, buf: array<byte>, bufOffset: nat)
      returns (ok: bool, readLen: nat)
      requires Valid() && bufOffset + count <= buf.Length && count > 0
      requires Wanted(start, want) && |want| == bufOffset + count
      modifies this`v2pCache, cache, buf
      ensures Valid() && (start.dtb == 0 ==> v2pCache == old(v2pCache))
      ensures !ok ==> buf[..] == old(buf[..]) && Byte(start.dtb, (start.addr + bufOffset) % WORD).None?
      ensures ok ==> readLen == ChunkLength((start.addr + bufOffset) % WORD % PAGE_SIZE, count)
      ensures ok ==> forall i :: bufOffset <= i < bufOffset + readLen ==> want[i] == Some(buf[i])
      ensures ok ==> forall i :: 0 <= i < buf.Length && !(bufOffset <= i < bufOffset + readLen) ==>
        buf[i] == old(buf[i])
      decreases Needs(start.dtb), 6
    {
      var va: u64 := (start.addr + bufOffset) % WORD;
      readLen := 0;
      var memory, offset;
      ok, memory, offset := Locate(start.dtb, va);
      if ok {
        readLen := ChunkLength(offset, count);
        var rest := memory[offset..];
        Continues(start, want, bufOffset, va, rest);
        CopyBytes(buf, bufOffset, rest[..readLen]);
      }
    }

    /** The loop of `vmi_read`: one page per round. */
    method ReadFrom(dtb: u64, addr: u64, total: nat, buf: array<byte>)
      returns (ok: bool, bufOffset: nat, ghost rounds: nat)
      requires Valid() && total <= buf.Length && total + PAGE_SIZE <= WORD
      modifies this`v2pCache, cache, buf
      ensures Valid() && bufOffset <= total
      ensures buf[bufOffset..] == old(buf[bufOffset..])
      ensures Delivered(Start(dtb, addr), total, ok, buf[..bufOffset], rounds)
      ensures dtb == 0 ==> v2pCache == old(v2pCache)
      decreases Needs(dtb), 7
    {
      hide ChunkLength, Vmi.AllSound, Vmi.Wanted, Vmi.Delivered, Vmi.Byte;
      var count := total;
      var start := Start(dtb, addr);
      ghost var want := Want(start, total);
      bufOffset, rounds := 0, 0;
      while count > 0
        invariant Valid() && 0 <= count && bufOffset + count == total
        invariant dtb == 0 ==> v2pCache == old(v2pCache)
        invariant forall i :: bufOffset <= i < buf.Length ==> buf[i] == old(buf[i])
        invariant forall i :: 0 <= i < bufOffset ==> want[i] == Some(buf[i])
        invariant OnPageBoundary(addr, bufOffset, count, rounds)
        decreases count
      {
        var more, readLen := ReadRound(start, want, count, buf, bufOffset);
        if !more {
          Summary(start, want, total, false, buf[..bufOffset], rounds);
          return false, bufOffset, rounds;
        }
        NextBoundary(addr, bufOffset, count, rounds, readLen);
        rounds := rounds + 1;
        count := count - readLen;
        bufOffset := bufOffset + readLen;
      }
      Summary(start, want, total, true, buf[..total], rounds);
      ok := true;
    }

    // The bytes of a page that starts where the range has got to continue the range.
    lemma Continues(start: Start, want: seq<Option<byte>>, done: nat, va: u64, page: seq<byte>)
      requires Wanted(start, want) && va == (start.addr + done) % WORD && Arrived(Start(start.dtb, va), page)
      ensures forall i :: done <= i < done + |page| && i < |want| ==> want[i] == Some(page[i - done])
    {
      forall i | done <= i < done + |page| && i < |want| ensures want[i] == Some(page[i - done]) {
        MoveStart(start, done, i - done);
      }
    }

    lemma Summary(start: Start, want: seq<Option<byte>>, count: nat, ok: bool, got: seq<byte>, rounds: nat)
      requires Wanted(start, want) && |want| == count >= |got|
      requires forall i :: 0 <= i < |got| ==> want[i] == Some(got[i])
      requires ok ==> |got| == count && rounds == PagesTouched(start.addr % PAGE_SIZE, count)
      requires !ok ==> |got| < count && Byte(start.dtb, (start.addr + |got|) % WORD).None?
      ensures Delivered(start, count, ok, got, rounds)
    {
    }

    lemma MoveStart(start: Start, done: nat, k: nat)
      ensures ByteAfter(start, done + k) == ByteAfter(Start(start.dtb, (start.addr + done) % WORD), k)
    {
      WrapAdd(start.addr, done, k);
    }

    /** Between rounds: every page touched so far took one round, and the next round, if any, starts a
        page. */
    ghost predicate OnPageBoundary(addr: u64, done: nat, count: nat, rounds: nat) {
      && rounds == PagesTouched(addr % PAGE_SIZE, done)
      && (done > 0 && count > 0 ==> (addr % PAGE_SIZE + done) % PAGE_SIZE == 0)
    }

    lemma NextBoundary(addr: u64, done: nat, count: nat, rounds: nat, len: nat)
      requires OnPageBoundary(addr, done, count, rounds) && count > 0
      requires len == ChunkLength((addr + done) % WORD % PAGE_SIZE, count)
      ensures 0 < len <= count && OnPageBoundary(addr, done + len, count - len, rounds + 1)
    {
      var o, offset := addr % PAGE_SIZE, (addr + done) % WORD % PAGE_SIZE;
      OffsetOfSum(addr, done);
      if done == 0 {
        OnePage(o, len);
      } else {
        var q := (o + done) / PAGE_SIZE;
        assert o + done == q * PAGE_SIZE;
        DivModUnique(o + done - 1, PAGE_SIZE, q - 1, PAGE_SIZE - 1);
        DivModUnique(o + done + len - 1, PAGE_SIZE, q, len - 1);
        if len < count { DivModUnique(o + done + len, PAGE_SIZE, q + 1, 0); }
      }
    }

    lemma OnePage(o: nat, len: nat)
      requires 0 < len && o + len <= PAGE_SIZE
      ensures (o + len - 1) / PAGE_SIZE == 0
    {
    }

    lemma OffsetOfSum(addr: u64, done: nat)
      ensures (addr + done) % WORD % PAGE_SIZE == (addr % PAGE_SIZE + done) % PAGE_SIZE
    {
      var pages := WORD / PAGE_SIZE;
      SplitByPages(addr + done, pages);
      var r := (addr + done) / PAGE_SIZE % pages;
      DivModUnique(r * PAGE_SIZE + (addr + done) % PAGE_SIZE, PAGE_SIZE, r, (addr + done) % PAGE_SIZE);
      assert addr + done == addr / PAGE_SIZE * PAGE_SIZE + (addr % PAGE_SIZE + done);
      var t := addr % PAGE_SIZE + done;
      DivModUnique(addr + done, PAGE_SIZE, addr / PAGE_SIZE + t / PAGE_SIZE, t % PAGE_SIZE);
    }

    /** vmi_read_pa: succeeds exactly when each byte can be read, and then the bytes are these. */
    method ReadPa(paddr: u64, count: nat, buf: array<byte>) returns (ok: bool, bytesRead: nat, ghost rounds: nat)
      requires Valid() && count <= buf.Length && count + PAGE_SIZE <= WORD
      modifies this`v2pCache, cache, buf
      ensures Valid() && v2pCache == old(v2pCache)
      ensures ok <==> forall i :: 0 <= i < count ==> PhysByteAfter(guest, paddr, i).Some?
      ensures bytesRead <= count && (ok <==> bytesRead == count)
      ensures forall i :: 0 <= i < bytesRead ==> PhysByteAfter(guest, paddr, i) == Some(buf[i])
      ensures ok ==> rounds == PagesTouched(paddr % PAGE_SIZE, count)
      decreases 0, 9
    {
      ok, bytesRead, rounds := Read(Some(TmNone(paddr)), count, buf);
      PhysicalInFull(paddr, count, ok, buf[..bytesRead], rounds);
      forall i | 0 <= i < bytesRead ensures PhysByteAfter(guest, paddr, i) == Some(buf[i]) {
        assert buf[..bytesRead][i] == buf[i];
      }
    }

    /** vmi_read_va: process 0 stands for the kernel, whose page tables are at `kpgd`. The read succeeds
        exactly when there are page tables to walk and each byte is translated by them to one that can be
        read, and then the bytes are these. */
    method ReadVa(vaddr: u64, pid: int, count: nat, buf: array<byte>) returns (ok: bool, bytesRead: nat)
      requires Valid() && count <= buf.Length && count + PAGE_SIZE <= WORD
      modifies this`v2pCache, cache, buf
      ensures Valid() && bytesRead <= count
      ensures pid == 0 ==>
        (ok <==> hasArch && hasOs && kpgd != 0 && forall i :: 0 <= i < count ==> MappedByte(kpgd, vaddr, i).Some?)
      ensures pid > 0 ==>
        (ok <==> hasArch && hasOs && pid in pidToDtb && pidToDtb[pid] != 0 &&
                 forall i :: 0 <= i < count ==> MappedByte(pidToDtb[pid], vaddr, i).Some?)
      ensures pid < 0 ==> !ok
      ensures bytesRead > 0 ==> pid >= 0 && (pid > 0 ==> pid in pidToDtb)
      ensures forall i :: 0 <= i < bytesRead ==>
        MappedByte(if pid == 0 then kpgd else pidToDtb[pid], vaddr, i) == Some(buf[i])
      ensures ok ==> bytesRead == count
    {
      ghost var rounds;
      ok, bytesRead, rounds := Read(Some(ProcessPid(vaddr, pid)), count, buf);
      ghost var dtb := if pid == 0 then kpgd else if pid > 0 && pid in pidToDtb then pidToDtb[pid] else 0;
      if hasArch && hasOs && dtb != 0 {
        MappedInFull(Start(dtb, vaddr), count, ok, buf[..bytesRead], rounds);
        forall i | 0 <= i < bytesRead ensures MappedByte(dtb, vaddr, i) == Some(buf[i]) {
          assert buf[..bytesRead][i] == buf[i];
        }
      }
    }

    /** Byte `i` after a virtual address, through the page tables at `dtb`. */
    function MappedByte(dtb: u64, vaddr: u64, i: nat): Option<byte> {
      match Translate(guest, dtb, (vaddr + i) % WORD)
      case None => None
      case Some(m) => PhysByte(guest, m.paddr)
    }

    lemma PhysicalInFull(addr: u64, count: nat, ok: bool, got: seq<byte>, rounds: nat)
      requires Delivered(Start(0, addr), count, ok, got, rounds)
      ensures ok <==> forall i :: 0 <= i < count ==> PhysByteAfter(guest, addr, i).Some?
      ensures forall i :: 0 <= i < |got| ==> PhysByteAfter(guest, addr, i) == Some(got[i])
    {
      assert forall i: nat :: PhysByteAfter(guest, addr, i) == ByteAfter(Start(0, addr), i);
      hide Vmi.ByteAfter, PhysByteAfter;
    }

    lemma MappedInFull(start: Start, count: nat, ok: bool, got: seq<byte>, rounds: nat)
      requires Delivered(start, count, ok, got, rounds) && start.dtb != 0 && hasArch
      ensures ok <==> forall i :: 0 <= i < count ==> MappedByte(start.dtb, start.addr, i).Some?
      ensures forall i :: 0 <= i < |got| ==> MappedByte(start.dtb, start.addr, i) == Some(got[i])
    {
      forall i: nat ensures MappedByte(start.dtb, start.addr, i) == ByteAfter(start, i) {
        SameByte(start, i);
      }
      hide Vmi.ByteAfter, Vmi.MappedByte;
    }

    lemma SameByte(start: Start, i: nat)
      requires start.dtb != 0 && hasArch
      ensures MappedByte(start.dtb, start.addr, i) == ByteAfter(start, i)
    {
      hide Translate, PhysByte;
    }

    /** vmi_read_8_pa. */
    method Read8Pa(paddr: u64) returns (ok: bool, value: byte)
      requires Valid()
      modifies this`v2pCache, cache
      ensures Valid()
      ensures v2pCache == old(v2pCache)
      ensures ok == PhysByte(guest, paddr).Some? && (ok ==> value == PhysByte(guest, paddr).value)
      decreases 0, 10
    {
      var buf := new byte[1];
      var n;
      ghost var rounds;
      ok, n, rounds := ReadPa(paddr, 1, buf);
      assert (paddr + 0) % WORD == paddr;
      value := buf[0];
    }

    /** vmi_read_64_pa: eight bytes into a little-endian word; an aligned word takes one round. */
    method Read64Pa(paddr: u64) returns (ok: bool, value: u64, ghost rounds: nat)
      requires Valid()
      modifies this`v2pCache, cache
      ensures Valid()
      ensures v2pCache == old(v2pCache)
      ensures ok <==> forall k :: 0 <= k < 8 ==> PhysByteAfter(guest, paddr, k).Some?
      ensures ok ==> forall k :: 0 <= k < 8 ==> PhysByteAfter(guest, paddr, k) == Some(value / Pow2(8 * k) % 0x100)
      ensures ok == PhysWord(guest, paddr).Some? && (ok ==> value == PhysWord(guest, paddr).value)
      ensures ok && paddr % PAGE_SIZE + 8 <= PAGE_SIZE ==> rounds == 1
      decreases 0, 10
    {
      var buf := new byte[8](_ => 0);
      var n;
      ok, n, rounds := ReadPa(paddr, 8, buf);
      value := 0;
      if ok {
        assert buf[..n] == buf[..];
        BytesAreThese(guest, paddr, buf[..]);
        value := Word64(buf[..]);
        BytesOfWord64(buf[..]);
      }
    }

    /** One step of the walk: get_pml4e, get_pdpte_ia32e, get_pde_ia32e or get_pte_ia32e. */
    method GetEntry(l: Level, va: u64, table: u64) returns (ok: bool, value: u64)
      requires Valid()
      modifies this`v2pCache, cache
      ensures Valid()
      ensures v2pCache == old(v2pCache)
      ensures ok == EntryAt(guest, Base(table), Index(l, va)).Some?
      ensures ok ==> value == EntryAt(guest, Base(table), Index(l, va)).value
      decreases 0, 11
    {
      EntryAddressIsSum(l, table, va);
      EntryStaysInPage(Base(table), Index(l, va));
      EntryIsWord(guest, Base(table), Index(l, va));
      ghost var rounds;
      ok, value, rounds := Read64Pa(EntryAddress(l, table, va));
      assert ok ==> rounds == 1;
    }

    /** v2p_ia32e. */
    method V2p(dtb: u64, va: u64) returns (ok: bool, info: Mapping)
      requires Valid()
      modifies this`v2pCache, cache
      ensures Valid()
      ensures v2pCache == old(v2pCache)
      ensures ok == Translate(guest, dtb, va).Some?
      ensures ok ==> info == Translate(guest, dtb, va).value
      decreases 0, 12
    {
      info := Mapping(0, 0);
      var pml4e, pdpte, pgd, pte, present, large;
      ghost var flags := Flags(guest.transitionPages, guest.transitionPages);
      ghost var whole := Walk(guest, flags, Base(dtb), 3, va);

      ok, pml4e := GetEntry(3, va, dtb);
      if !ok { return; }
      present := IsPresent(guest.transitionPages, pml4e);
      if !present { return false, info; }
      assert whole == Walk(guest, flags, Base(pml4e), 2, va);

      ok, pdpte := GetEntry(2, va, pml4e);
      if !ok { return; }
      present := IsPresent(guest.transitionPages, pdpte);
      if !present { return false, info; }
      large := MapsLargePage(pdpte);
      if large {
        var paddr := PagePaddr(2, va, pdpte);
        return true, Mapping(paddr, 2);
      }
      assert whole == Walk(guest, flags, Base(pdpte), 1, va);

      ok, pgd := GetEntry(1, va, pdpte);
      if !ok { return; }
      present := IsPresent(guest.transitionPages, pgd);
      if !present { return false, info; }
      large := MapsLargePage(pgd);
      if large {
        var paddr := PagePaddr(1, va, pgd);
        return true, Mapping(paddr, 1);
      }
      assert whole == Walk(guest, flags, Base(pgd), 0, va);

      ok, pte := GetEntry(0, va, pgd);
      if !ok { return; }
      present := IsPresent(guest.transitionPages, pte);
      if !present { return false, info; }
      var paddr := PagePaddr(0, va, pte);
      info := Mapping(paddr, 0);
    }

    /** vmi_pagetable_lookup_cache: with or without a cached entry, with or without a readable page
        behind it, the outcome is the uncached translation. */
    method LookupCache(dtb: u64, va: u64) returns (ok: bool, paddr: u64)
      requires Valid()
      modifies this`v2pCache, cache
      ensures Valid()
      ensures ok == Translation(dtb, va).Some?
      ensures ok <==> hasArch && Translate(guest, dtb, va).Some?
      ensures paddr == if ok then Translate(guest, dtb, va).value.paddr else 0
      ensures paddr == if ok then Translation(dtb, va).value.paddr else 0
      ensures v2pCache ==
        var c := old(v2pCache);
        if !ok || (IsCached(c, dtb, va) && PhysByte(guest, paddr).Some?) then c
        else Recorded(if IsCached(c, dtb, va) then Dropped(c, dtb, va) else c, dtb, va, paddr)
      decreases 1, 4
    {
      hide Vmi.AllSound, Vmi.Sound, PageOf, Dropped, Stored;
      ok, paddr := false, 0;
      var hit := V2pCacheGet(va, dtb);
      if hit.Some? {
        var readable, value := Read8Pa(hit.value);
        if readable { return true, hit.value; }
        var deleted := V2pCacheDel(va, dtb);
        if !deleted { return; }
      }
      if !hasArch { return; }
      var info;
      ok, info := V2p(dtb, va);
      if ok {
        paddr := info.paddr;
        TranslationIsSound(dtb, va, info.paddr);
        V2pCacheSet(va, dtb, info.paddr);
      }
    }

    /** vmi_pagetable_lookup_extended. */
    method LookupExtended(dtb: u64, va: u64) returns (ok: bool, info: Mapping)
      requires Valid()
      modifies this`v2pCache, cache
      ensures Valid()
      ensures ok == Translation(dtb, va).Some? && (ok ==> info == Translation(dtb, va).value)
      ensures v2pCache == if ok then Recorded(old(v2pCache), dtb, va, info.paddr) else old(v2pCache)
    {
      info := Mapping(0, 0);
      if !hasArch { return false, info; }
      ok, info := V2p(dtb, va);
      if ok {
        TranslationIsSound(dtb, va, info.paddr);
        V2pCacheSet(va, dtb, info.paddr);
      }
    }
  }

  datatype Request =
    | Lookup(dtb: u64, va: u64)
    | Extended(dtb: u64, va: u64)
    | Delete(dtb: u64, va: u64)
    | Flush(dtb: u64)

  /** What a request returns when every lookup walks the page tables. */
  function Uncached(vmi: Vmi, request: Request): Option<u64> {
    match request
    case Lookup(dtb, va) =>
      (match vmi.Translation(dtb, va) case Some(m) => Some(m.paddr) case None => None)
    case Extended(dtb, va) =>
      (match vmi.Translation(dtb, va) case Some(m) => Some(m.paddr) case None => None)
    case _ => None
  }

  /** The translation cache is invisible: in any run of lookups, deletions and flushes, each lookup
      succeeds or fails, and with the address, that an uncached walk gives. */
  method Run(vmi: Vmi, requests: seq<Request>) returns (results: seq<Option<u64>>)
    requires vmi.Valid()
    modifies vmi`v2pCache, vmi.cache
    ensures vmi.Valid() && |results| == |requests|
    ensures forall i :: 0 <= i < |requests| ==> results[i] == Uncached(vmi, requests[i])
  {
    results := [];
    for i := 0 to |requests|
      invariant vmi.Valid() && |results| == i
      invariant forall j :: 0 <= j < i ==> results[j] == Uncached(vmi, requests[j])
    {
      var r: Option<u64> := None;
      match requests[i] {
        case Lookup(dtb, va) =>
          var ok, paddr := vmi.LookupCache(dtb, va);
          if ok { r := Some(paddr); }
        case Extended(dtb, va) =>
          var ok, info := vmi.LookupExtended(dtb, va);
          if ok { r := Some(info.paddr); }
        case Delete(dtb, va) => var _ := vmi.V2pCacheDel(va, dtb);
        case Flush(dtb) => vmi.V2pCacheFlush(dtb);
      }
      results := results + [r];
    }
  }
}
