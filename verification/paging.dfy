/** Guest physical memory and 4-level paging (section 4.5 of the Intel 64 and IA-32 Architectures
    SDM, Volume 3A). `Walk` is the reference: a recursive descent over the levels in plain
    arithmetic. The address helpers of tiny-vmi/arch/amd64.c follow, as the C masks and shifts them,
    with the lemmas that they compute the reference's addresses. */
module Paging {
  import opened Bits
  import opened Sequences

  type byte = b: int | 0 <= b < 256

  const PAGE_SIZE := 4096
  const ENTRIES := 512
  const PHYS_LIMIT := 0x10_0000_0000_0000   // 2^52

  type Page = p: seq<byte> | |p| == PAGE_SIZE witness seq(PAGE_SIZE, _ => 0)

  /** The guest as it stays during a run: the frames the driver can map, the bound that
      `create_new_entry` checks for HVM and NORMAL guests, and the two flags that decide whether a
      transition entry counts as present. `osTypeSet` is the truth value of `vmi->os_type`. */
  datatype Guest = Guest(frames: map<nat, Page>, bounded: bool, maxPhysicalAddress: u64,
                         transitionPages: bool, osTypeSet: bool)

  /** The check of `create_new_entry`; the sum is taken in 64 bits. */
  predicate InBounds(g: Guest, paddr: u64) {
    g.bounded ==> (paddr + PAGE_SIZE) % WORD <= g.maxPhysicalAddress
  }

  /** The driver's `get_data_callback` for one page. */
  function DriverPage(g: Guest, paddr: u64): Option<Page> {
    if paddr / PAGE_SIZE in g.frames then Some(g.frames[paddr / PAGE_SIZE]) else None
  }

  /** The page at an aligned address, fetched without any cache. */
  function FetchPage(g: Guest, paddr: u64): Option<Page> {
    if InBounds(g, paddr) then DriverPage(g, paddr) else None
  }

  function PhysByte(g: Guest, paddr: u64): Option<byte> {
    match FetchPage(g, paddr / PAGE_SIZE * PAGE_SIZE)
    case None => None
    case Some(page) => Some(page[paddr % PAGE_SIZE])
  }

  /** Which bytes can be read, and what they are: those of a frame that the driver maps and whose end, if
      the guest is bounded, lies within the bound. The end of the last page of all wraps around to 0. */
  lemma ReadableIff(g: Guest, a: u64)
    ensures PhysByte(g, a).Some? <==>
      var end := a - a % 4096 + 4096;
      a / 4096 in g.frames && (g.bounded ==> end <= g.maxPhysicalAddress || end == WORD)
    ensures PhysByte(g, a).Some? ==> PhysByte(g, a).value == g.frames[a / 4096][a % 4096]
  {
  }

  /** The value of bytes stored least significant first. */
  function LittleEndian(s: seq<byte>): nat {
    if s == [] then 0 else s[0] as int + 0x100 * LittleEndian(s[1..])
  }

  lemma {:induction false} LittleEndianBound(s: seq<byte>)
    ensures LittleEndian(s) < Pow2(8 * |s|)
  {
    if s == [] {
    } else {
      LittleEndianBound(s[1..]);
      Pow2Add(8, 8 * |s| - 8);
      assert Pow2(8) == 0x100 by { Pow2Add(4, 4); }
    }
  }

  function Word64(s: seq<byte>): u64
    requires |s| == 8
  {
    LittleEndianBound(s);
    WordSize();
    LittleEndian(s)
  }

  /** Byte `k` of a word is the `k`-th byte stored. */
  lemma {:induction false} ByteOfLittleEndian(s: seq<byte>, k: nat)
    requires k < |s|
    ensures LittleEndian(s) / Pow2(8 * k) % 0x100 == s[k]
  {
    var rest := LittleEndian(s[1..]);
    if k == 0 {
      DivModUnique(LittleEndian(s), 0x100, rest, s[0]);
    } else {
      ByteOfLittleEndian(s[1..], k - 1);
      DropLowByte(s[0], rest, 8 * k);
    }
  }

  lemma DropLowByte(b: byte, rest: nat, n: nat)
    requires n >= 8
    ensures (b + 0x100 * rest) / Pow2(n) == rest / Pow2(n - 8)
  {
    var p := Pow2(n - 8);
    Pow2Add(8, n - 8);
    assert Pow2(8) == 0x100 by { Pow2Add(4, 4); }
    var q, r := rest / p, rest % p;
    assert 0x100 * (q * p) == q * (0x100 * p);
    DivModUnique(b + 0x100 * rest, 0x100 * p, q, b + 0x100 * r);
  }

  lemma BytesOfWord64(s: seq<byte>)
    requires |s| == 8
    ensures forall k :: 0 <= k < 8 ==> Word64(s) / Pow2(8 * k) % 0x100 == s[k]
  {
    forall k | 0 <= k < 8 ensures Word64(s) / Pow2(8 * k) % 0x100 == s[k] {
      ByteOfLittleEndian(s, k);
    }
  }

  /** Entry `i` of the paging structure that fills the page at `base`. */
  function EntryAt(g: Guest, base: u64, i: int): Option<u64>
    requires 0 <= i < ENTRIES
  {
    match FetchPage(g, base)
    case None => None
    case Some(page) => Some(Word64(page[8 * i..8 * i + 8]))
  }

  // ---------------------------------------------------------------- the reference walk

  /** 0: page table, 1: page directory, 2: page-directory-pointer table, 3: PML4 table. The same
      number names the kind of page that an entry of that table maps: 4 KB, 2 MB or 1 GB. */
  type Level = l: int | 0 <= l < 4

  /** Bytes of virtual memory that one entry covers. */
  function Span(l: Level): (s: int)
    ensures s >= PAGE_SIZE && s % PAGE_SIZE == 0
  {
    if l == 0 then 0x1000 else if l == 1 then 0x20_0000
    else if l == 2 then 0x4000_0000 else 0x80_0000_0000
  }

  /** `va / Span(l)` and `va % Span(l)`, with the divisors spelled out. */
  function SpanNumber(l: Level, va: u64): (n: nat) {
    if l == 0 then va / 0x1000 else if l == 1 then va / 0x20_0000
    else if l == 2 then va / 0x4000_0000 else va / 0x80_0000_0000
  }

  function SpanOffset(l: Level, va: u64): (o: int)
    ensures 0 <= o < Span(l) && o <= va
  {
    if l == 0 then va % 0x1000 else if l == 1 then va % 0x20_0000
    else if l == 2 then va % 0x4000_0000 else va % 0x80_0000_0000
  }

  function Index(l: Level, va: u64): (i: int)
    ensures 0 <= i < ENTRIES
  {
    SpanNumber(l, va) % ENTRIES
  }

  /** The 4 KB aligned physical address held in bits 12..51. */
  function Base(e: u64): (b: u64)
    ensures b % PAGE_SIZE == 0 && b + PAGE_SIZE <= PHYS_LIMIT
  {
    e / PAGE_SIZE % (PHYS_LIMIT / PAGE_SIZE) * PAGE_SIZE
  }

  /** The frame of a page of kind `l` that entry `e` maps: the address, rounded down to the kind. */
  function Frame(l: Level, e: u64): (f: u64)
    ensures f % PAGE_SIZE == 0 && f + Span(l) <= PHYS_LIMIT
  {
    RoundDown(l, Base(e));
    Base(e) - SpanOffset(l, Base(e))
  }

  lemma RoundDown(l: Level, b: u64)
    requires b % PAGE_SIZE == 0 && b < PHYS_LIMIT
    ensures (b - SpanOffset(l, b)) % PAGE_SIZE == 0 && b - SpanOffset(l, b) + Span(l) <= PHYS_LIMIT
  {
    if l == 1 { RoundToPages(b, 512); RoundBelow(b, 0x20_0000, 0x8000_0000); }
    if l == 2 { RoundToPages(b, 0x4_0000); RoundBelow(b, 0x4000_0000, 0x40_0000); }
    if l == 3 { RoundToPages(b, 0x800_0000); RoundBelow(b, 0x80_0000_0000, 0x2000); }
  }

  lemma RoundBelow(b: nat, s: nat, n: nat)
    requires s > 0 && b < n * s
    ensures b - b % s + s <= n * s
  {
    var q := b / s;
    if q >= n { Scale(n, q, s); }
    Scale(q + 1, n, s);
  }

  lemma Scale(x: int, y: int, s: nat)
    requires x <= y
    ensures x * s <= y * s
  {
  }

  lemma RoundToPages(b: u64, c: nat)
    requires b % PAGE_SIZE == 0 && c > 0
    ensures (b - b % (c * PAGE_SIZE)) % PAGE_SIZE == 0
  {
    SplitByPages(b, c);
    var m := b / PAGE_SIZE - b / PAGE_SIZE % c;
    DivModUnique(m * PAGE_SIZE, PAGE_SIZE, m, 0);
  }

  predicate Bit(e: u64, weight: int)
    requires weight > 0
  {
    e / weight % 2 == 1
  }

  /** Present, or (when transition pages are honoured) in transition and not a prototype. */
  predicate Present(transition: bool, e: u64) {
    Bit(e, 1) || (transition && Bit(e, 0x800) && !Bit(e, 0x400))
  }

  /** Which entries honour transition pages: the two upper levels, and the two lower levels. */
  datatype Flags = Flags(upper: bool, lower: bool) {
    predicate At(l: Level) { if l >= 2 then upper else lower }
  }

  predicate IsLeaf(l: Level, e: u64) { l == 0 || (l < 3 && Bit(e, 0x80)) }

  /** The entry that maps a page, and the kind of page it maps. */
  datatype Leaf = Leaf(kind: Level, entry: u64)

  /** Descent from the level-`l` table at `root` to the entry that maps `va`. */
  function Walk(g: Guest, flags: Flags, root: u64, l: Level, va: u64): (r: Option<Leaf>)
    ensures r.Some? ==> r.value.kind <= l && r.value.kind < 3
    decreases l
  {
    match EntryAt(g, root, Index(l, va))
    case None => None
    case Some(e) =>
      if !Present(flags.At(l), e) then None
      else if IsLeaf(l, e) then Some(Leaf(l, e))
      else Walk(g, flags, Base(e), l - 1, va)
  }

  datatype Mapping = Mapping(paddr: u64, kind: Level)

  /** Where the page mapped by a leaf entry puts `va`. */
  function Place(leaf: Leaf, va: u64): Mapping {
    Mapping(Frame(leaf.kind, leaf.entry) + SpanOffset(leaf.kind, va), leaf.kind)
  }

  /** The translation that `v2p_ia32e` stands for. */
  function Translate(g: Guest, dtb: u64, va: u64): Option<Mapping> {
    match Walk(g, Flags(g.transitionPages, g.transitionPages), Base(dtb), 3, va)
    case None => None
    case Some(leaf) => Some(Place(leaf, va))
  }

  // A span of `c` pages splits an address into page number by `c` and offset.
  lemma SplitByPages(v: nat, c: nat)
    requires c > 0
    ensures v / (c * PAGE_SIZE) == v / PAGE_SIZE / c
    ensures v % (c * PAGE_SIZE) == v / PAGE_SIZE % c * PAGE_SIZE + v % PAGE_SIZE
  {
    var p := v / PAGE_SIZE;
    var q, r := p / c, p % c;
    assert p == q * c + r;
    assert (q * c) * PAGE_SIZE == q * (c * PAGE_SIZE);
    assert 0 <= r * PAGE_SIZE + v % PAGE_SIZE < c * PAGE_SIZE;
    DivModUnique(v, c * PAGE_SIZE, q, r * PAGE_SIZE + v % PAGE_SIZE);
  }

  // Addresses in one 4 KB page share every index, and their span offsets share the page.
  lemma SamePageSameSpan(l: Level, va: u64, vb: u64)
    requires va / PAGE_SIZE == vb / PAGE_SIZE
    ensures SpanNumber(l, va) == SpanNumber(l, vb)
    ensures SpanOffset(l, va) / PAGE_SIZE == SpanOffset(l, vb) / PAGE_SIZE
    ensures SpanOffset(l, va) % PAGE_SIZE == va % PAGE_SIZE
  {
    if l == 1 { PageOfOffset(va, vb, 512); }
    if l == 2 { PageOfOffset(va, vb, 0x4_0000); }
    if l == 3 { PageOfOffset(va, vb, 0x800_0000); }
  }

  lemma PageOfOffset(va: u64, vb: u64, c: nat)
    requires va / PAGE_SIZE == vb / PAGE_SIZE && c > 0
    ensures va / (c * PAGE_SIZE) == vb / (c * PAGE_SIZE)
    ensures va % (c * PAGE_SIZE) / PAGE_SIZE == vb % (c * PAGE_SIZE) / PAGE_SIZE
    ensures va % (c * PAGE_SIZE) % PAGE_SIZE == va % PAGE_SIZE
  {
    SplitByPages(va, c);
    SplitByPages(vb, c);
    var t := va / PAGE_SIZE % c;
    DivModUnique(t * PAGE_SIZE + va % PAGE_SIZE, PAGE_SIZE, t, va % PAGE_SIZE);
    DivModUnique(t * PAGE_SIZE + vb % PAGE_SIZE, PAGE_SIZE, t, vb % PAGE_SIZE);
  }

  lemma SameFrame(f: int, x: nat, y: nat)
    requires f % PAGE_SIZE == 0 && x / PAGE_SIZE == y / PAGE_SIZE
    ensures (f + x) / PAGE_SIZE == (f + y) / PAGE_SIZE
    ensures (f + x) % PAGE_SIZE == x % PAGE_SIZE && (f + y) % PAGE_SIZE == y % PAGE_SIZE
  {
  }

  lemma AddOffset(base: int, o: int)
    requires base % PAGE_SIZE == 0 && 0 <= o < PAGE_SIZE
    ensures (base + o) / PAGE_SIZE * PAGE_SIZE == base && (base + o) % PAGE_SIZE == o
  {
  }

  // Two addresses in one 4 KB page take the same path ...
  lemma {:induction false} WalkWithinPage(g: Guest, flags: Flags, root: u64, l: Level, va: u64, vb: u64)
    requires va / PAGE_SIZE == vb / PAGE_SIZE
    ensures Walk(g, flags, root, l, va) == Walk(g, flags, root, l, vb)
    decreases l
  {
    SamePageSameSpan(l, va, vb);
    match EntryAt(g, root, Index(l, va))
    case None =>
    case Some(e) =>
      if Present(flags.At(l), e) && !IsLeaf(l, e) {
        WalkWithinPage(g, flags, Base(e), l - 1, va, vb);
      }
  }

  lemma PlaceWithinPage(leaf: Leaf, va: u64, vb: u64)
    requires va / PAGE_SIZE == vb / PAGE_SIZE
    ensures var a, b := Place(leaf, va).paddr, Place(leaf, vb).paddr;
      a / PAGE_SIZE == b / PAGE_SIZE && a % PAGE_SIZE == va % PAGE_SIZE && b % PAGE_SIZE == vb % PAGE_SIZE
  {
    SamePageSameSpan(leaf.kind, va, vb);
    SamePageSameSpan(leaf.kind, vb, va);
    SameFrame(Frame(leaf.kind, leaf.entry), SpanOffset(leaf.kind, va), SpanOffset(leaf.kind, vb));
  }

  // ... and land in one physical page, at their own offsets.
  lemma TranslateWithinPage(g: Guest, dtb: u64, va: u64, vb: u64)
    requires va / PAGE_SIZE == vb / PAGE_SIZE
    ensures Translate(g, dtb, va).Some? == Translate(g, dtb, vb).Some?
    ensures Translate(g, dtb, va).Some? ==>
      var a, b := Translate(g, dtb, va).value.paddr, Translate(g, dtb, vb).value.paddr;
      a / PAGE_SIZE == b / PAGE_SIZE && a % PAGE_SIZE == va % PAGE_SIZE && b % PAGE_SIZE == vb % PAGE_SIZE
  {
    var flags := Flags(g.transitionPages, g.transitionPages);
    WalkWithinPage(g, flags, Base(dtb), 3, va, vb);
    var r := Walk(g, flags, Base(dtb), 3, va);
    if r.Some? { PlaceWithinPage(r.value, va, vb); }
  }

  // ---------------------------------------------------------------- the C address helpers

  /** get_pml4_index, get_pdpt_index_ia32e, get_pd_index_ia32e, get_pt_index_ia32e. */
  function IndexField(l: Level, va: u64): nat {
    if l == 3 then Shr(And(va, BitMask(39, 47)), 36)
    else if l == 2 then Shr(And(va, BitMask(30, 38)), 27)
    else if l == 1 then Shr(And(va, BitMask(21, 29)), 18)
    else Shr(And(va, BitMask(12, 20)), 9)
  }

  /** The entry address formed by get_pml4e, get_pdpte_ia32e, get_pde_ia32e and get_pte_ia32e. */
  function EntryAddress(l: Level, table: u64, va: u64): nat {
    Or(And(table, BitMask(12, 51)), IndexField(l, va))
  }

  /** get_paddr_ia32e, get_2megpage_ia32e, get_gigpage_ia32e. */
  function PageAddress(l: Level, va: u64, e: u64): nat
    requires l < 3
  {
    if l == 2 then Or(And(e, BitMask(30, 51)), And(va, BitMask(0, 29)))
    else if l == 1 then Or(And(e, BitMask(21, 51)), And(va, BitMask(0, 20)))
    else Or(And(e, BitMask(12, 51)), And(va, BitMask(0, 11)))
  }

  /** ENTRY_PRESENT. */
  predicate EntryPresent(transition: bool, e: u64) {
    GetBit(e, 0) || (transition && GetBit(e, 11) && !GetBit(e, 10))
  }

  lemma Powers()
    ensures Pow2(0) == 1 && Pow2(7) == 0x80 && Pow2(9) == 0x200
    ensures Pow2(10) == 0x400 && Pow2(11) == 0x800 && Pow2(12) == 0x1000
    ensures Pow2(18) == 0x4_0000 && Pow2(21) == 0x20_0000 && Pow2(22) == 0x40_0000
    ensures Pow2(27) == 0x800_0000 && Pow2(30) == 0x4000_0000 && Pow2(31) == 0x8000_0000
    ensures Pow2(36) == 0x10_0000_0000 && Pow2(39) == 0x80_0000_0000
    ensures Pow2(40) == 0x100_0000_0000
  {
    Pow2Add(4, 3);
    Pow2Add(7, 2);
    Pow2Add(9, 9);
    Pow2Add(18, 9);
    Pow2Add(27, 9);
    Pow2Add(36, 3);
    Pow2Add(18, 3);
    Pow2Add(9, 3);
    Pow2Add(27, 3);
  }

  // Shifts and disjoint ORs with the powers of two as numbers.
  lemma Shifted(v: nat, n: nat, unit: nat)
    requires unit == Pow2(n)
    ensures Shr(v, n) == v / unit
  {
    ShiftIsDivision(v, n);
  }

  /** Each index helper yields eight times the index, ready to be added to the table base. */
  lemma IndexFieldIsOffset(l: Level, va: u64)
    ensures IndexField(l, va) == 8 * Index(l, va)
  {
    Powers();
    if l == 3 {
      AndMask(va, 39, 47, 0x80_0000_0000, 0x200);
      Shifted(And(va, BitMask(39, 47)), 36, 0x10_0000_0000);
    } else if l == 2 {
      AndMask(va, 30, 38, 0x4000_0000, 0x200);
      Shifted(And(va, BitMask(30, 38)), 27, 0x800_0000);
    } else if l == 1 {
      AndMask(va, 21, 29, 0x20_0000, 0x200);
      Shifted(And(va, BitMask(21, 29)), 18, 0x4_0000);
    } else {
      AndMask(va, 12, 20, 0x1000, 0x200);
      Shifted(And(va, BitMask(12, 20)), 9, 0x200);
    }
  }

  lemma Disjoint(h: nat, l: nat, n: nat, unit: nat)
    requires unit == Pow2(n) && h % unit == 0 && l < unit
    ensures Or(h, l) == h + l
  {
    OrDisjoint(h, l, n);
  }

  /** The masked OR is the table base plus eight times the index ... */
  lemma EntryAddressIsSum(l: Level, table: u64, va: u64)
    ensures EntryAddress(l, table, va) == Base(table) + 8 * Index(l, va)
  {
    Powers();
    IndexFieldIsOffset(l, va);
    AndMask(table, 12, 51, 0x1000, 0x100_0000_0000);
    Disjoint(Base(table), 8 * Index(l, va), 12, 0x1000);
  }

  /** ... so an 8-byte entry read there stays inside one page. */
  lemma EntryStaysInPage(base: u64, i: int)
    requires base % PAGE_SIZE == 0 && base + PAGE_SIZE <= PHYS_LIMIT && 0 <= i < ENTRIES
    ensures (base + 8 * i) % PAGE_SIZE == 8 * i && (base + 8 * i) / PAGE_SIZE * PAGE_SIZE == base
  {
    AddOffset(base, 8 * i);
  }

  // Bits n..51 of an entry are its address rounded down to 2^n.
  lemma FrameIsField(l: Level, e: u64)
    requires l < 3
    ensures l == 0 ==> Frame(l, e) == e / 0x1000 % 0x100_0000_0000 * 0x1000
    ensures l == 1 ==> Frame(l, e) == e / 0x20_0000 % 0x8000_0000 * 0x20_0000
    ensures l == 2 ==> Frame(l, e) == e / 0x4000_0000 % 0x40_0000 * 0x4000_0000
  {
    var q, p, r := e / PHYS_LIMIT, e / 0x1000 % 0x100_0000_0000, e % 0x1000;
    assert e == q * PHYS_LIMIT + p * 0x1000 + r;
    if l == 1 {
      var h, t := p / 512, p % 512;
      DivModUnique(e, 0x20_0000, q * 0x8000_0000 + h, t * 0x1000 + r);
      DivModUnique(q * 0x8000_0000 + h, 0x8000_0000, q, h);
      DivModUnique(p * 0x1000, 0x20_0000, h, t * 0x1000);
    } else if l == 2 {
      var h, t := p / 0x4_0000, p % 0x4_0000;
      DivModUnique(e, 0x4000_0000, q * 0x40_0000 + h, t * 0x1000 + r);
      DivModUnique(q * 0x40_0000 + h, 0x40_0000, q, h);
      DivModUnique(p * 0x1000, 0x4000_0000, h, t * 0x1000);
    }
  }

  lemma LowField(v: nat, b: nat, width: nat)
    requires b <= 63 && width == Pow2(b + 1)
    ensures And(v, BitMask(0, b)) == v % width
  {
    AndMask(v, 0, b, 1, width);
    assert v / 1 == v;
  }

  /** The masked OR is the frame plus the offset into the page. */
  lemma PageAddressIsSum(l: Level, va: u64, e: u64)
    requires l < 3
    ensures PageAddress(l, va, e) == Frame(l, e) + SpanOffset(l, va)
  {
    if l == 2 { GigPageIsSum(va, e); } else if l == 1 { TwoMegPageIsSum(va, e); } else { SmallPageIsSum(va, e); }
  }

  lemma GigPageIsSum(va: u64, e: u64)
    ensures Or(And(e, BitMask(30, 51)), And(va, BitMask(0, 29))) == Frame(2, e) + va % 0x4000_0000
  {
    Powers();
    FrameIsField(2, e);
    AndMask(e, 30, 51, 0x4000_0000, 0x40_0000);
    LowField(va, 29, 0x4000_0000);
    var k := e / 0x4000_0000 % 0x40_0000;
    DivModUnique(k * 0x4000_0000, 0x4000_0000, k, 0);
    Disjoint(Frame(2, e), va % 0x4000_0000, 30, 0x4000_0000);
  }

  lemma TwoMegPageIsSum(va: u64, e: u64)
    ensures Or(And(e, BitMask(21, 51)), And(va, BitMask(0, 20))) == Frame(1, e) + va % 0x20_0000
  {
    Powers();
    FrameIsField(1, e);
    AndMask(e, 21, 51, 0x20_0000, 0x8000_0000);
    LowField(va, 20, 0x20_0000);
    var k := e / 0x20_0000 % 0x8000_0000;
    DivModUnique(k * 0x20_0000, 0x20_0000, k, 0);
    Disjoint(Frame(1, e), va % 0x20_0000, 21, 0x20_0000);
  }

  lemma SmallPageIsSum(va: u64, e: u64)
    ensures Or(And(e, BitMask(12, 51)), And(va, BitMask(0, 11))) == Frame(0, e) + va % 0x1000
  {
    Powers();
    FrameIsField(0, e);
    AndMask(e, 12, 51, 0x1000, 0x100_0000_0000);
    LowField(va, 11, 0x1000);
    Disjoint(Frame(0, e), va % 0x1000, 12, 0x1000);
  }

  lemma EntryPresentIsPresent(transition: bool, e: u64)
    ensures EntryPresent(transition, e) == Present(transition, e)
    ensures GetBit(e, 7) == Bit(e, 0x80)
  {
    Powers();
    GetBitIsDigit(e, 0);
    GetBitIsDigit(e, 7);
    GetBitIsDigit(e, 10);
    GetBitIsDigit(e, 11);
  }
}
