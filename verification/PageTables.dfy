/** Physical memory as the page allocator sees it, and the translation tables of the
    VMSAv8-64 scheme (4KB granule, 48-bit addresses) kept inside that memory. */
module PageTables {
  import opened Bits

  const PAGE_SIZE: nat := 4096
  const PTRS_PER_TABLE: nat := 512
  const LOW_MEMORY: nat := 0x40_0000
  const HIGH_MEMORY: nat := 0x3F00_0000
  const PAGING_PAGES: nat := 0x3_EC00  // (HIGH_MEMORY - LOW_MEMORY) / PAGE_SIZE
  const PAGE_MASK: nat := 0xffff_ffff_ffff_f000
  const VA_LIMIT: nat := 0x1_0000_0000_0000  // 2^48

  const MM_TYPE_PAGE_TABLE: nat := 0x3
  const MMU_PTE_FLAGS: nat := 0x447  // MM_TYPE_PAGE | MT_NORMAL_NC << 2 | MM_ACCESS_PERMISSION | MM_ACCESS
  const MAIR_VALUE: nat := 0x4400  // device memory in byte 0, normal non-cacheable memory in byte 1

  type Word = w: int | 0 <= w < 0x1_0000_0000_0000_0000
  type Page = p: seq<Word> | |p| == 512 witness seq(512, _ => 0)

  function ZeroPage(): (p: Page)
    ensures forall i :: 0 <= i < 512 ==> p[i] == 0
  {
    seq(512, _ => 0)
  }

  /** The allocator bitmap (`mem_map`) and the contents of the pages it manages. */
  datatype Phys = Phys(memMap: seq<nat>, mem: seq<Page>) {
    predicate Wf() { |memMap| == PAGING_PAGES && |mem| == PAGING_PAGES }
  }

  predicate InPool(a: nat) {
    LOW_MEMORY <= a < HIGH_MEMORY && a % 4096 == 0
  }

  function FrameAddr(f: nat): (a: Word)
    requires f < PAGING_PAGES
    ensures InPool(a) && FrameOf(a) == f
  {
    LOW_MEMORY + f * 4096
  }

  function FrameOf(a: nat): (f: nat)
    requires InPool(a)
    ensures f < PAGING_PAGES && LOW_MEMORY + f * 4096 == a
  {
    (a - LOW_MEMORY) / 4096
  }

  // ---- Levels -----------------------------------------------------------------------
  // Level 0 is the PGD, 1 the PUD, 2 the PMD, 3 the PTE table; level 4 stands for the
  // user pages themselves. A node of level l is named by the address bits above it.

  /** Bytes of virtual address space below one node of level `l`. */
  function Span(l: nat): (r: nat)
    requires l <= 4
    ensures r > 0
  {
    if l == 0 then 0x1_0000_0000_0000
    else if l == 1 then 0x80_0000_0000
    else if l == 2 then 0x4000_0000
    else if l == 3 then 0x20_0000
    else 0x1000
  }

  /** The name of the level-`l` node on the way to `va`. */
  function Prefix(va: nat, l: nat): nat
    requires l <= 4
  {
    va / Span(l)
  }

  /** The slot of a level-`l` table that translates `va`. */
  function Slot(va: nat, l: nat): (s: nat)
    requires l <= 3
    ensures s < 512
  {
    va / Span(l + 1) % 512
  }

  function Width(l: nat): (r: nat)
    requires l <= 4
    ensures r > 0
  {
    if l == 0 then 1 else if l == 1 then 512 else if l == 2 then 0x4_0000
    else if l == 3 then 0x800_0000 else 0x10_0000_0000
  }

  lemma PrefixStep(va: nat, l: nat)
    requires l <= 3
    ensures Prefix(va, l + 1) == Prefix(va, l) * 512 + Slot(va, l)
    ensures Prefix(va, l + 1) / 512 == Prefix(va, l)
    ensures Prefix(va, l + 1) % 512 == Slot(va, l)
  {
  }

  lemma PrefixBound(va: nat, l: nat)
    requires va < VA_LIMIT && l <= 4
    ensures Prefix(va, l) < Width(l)
  {
  }

  lemma PowerValues()
    ensures Pow2(2) == 4 && Pow2(6) == 64 && Pow2(9) == 512 && Pow2(12) == 4096
    ensures Pow2(21) == 0x20_0000 && Pow2(30) == 0x4000_0000 && Pow2(39) == 0x80_0000_0000
    ensures Pow2(64) == 0x1_0000_0000_0000_0000
  {
    assert Pow2(6) == 64;
    assert Pow2(15) == 0x8000;
    assert Pow2(24) == 0x100_0000;
    assert Pow2(33) == 0x2_0000_0000;
    assert Pow2(40) == 0x100_0000_0000;
    assert Pow2(48) == 0x1_0000_0000_0000;
    assert Pow2(56) == 0x100_0000_0000_0000;
  }

  lemma OrAligned(a: nat, q: nat, flags: nat, k: nat, p: nat)
    requires p == Pow2(k) && a == q * p && flags < p
    ensures Or(a, flags) == a + flags
  {
    OrDisjoint(q, flags, k);
  }

  /** `a | flags` puts the flags beside a page address. */
  lemma OrIsSum(a: nat, flags: nat)
    requires a % 4096 == 0 && flags < 4096
    ensures Or(a, flags) == a + flags
  {
    PowerValues();
    OrAligned(a, a / 4096, flags, 12, 4096);
  }

  // ---- Descriptors ------------------------------------------------------------------

  function Flags(l: nat): nat
    requires l <= 3
  {
    if l < 3 then MM_TYPE_PAGE_TABLE else MMU_PTE_FLAGS
  }

  /** Bits 47..12 of a descriptor. */
  function OutputAddress(e: nat): nat {
    e / 4096 % 0x10_0000_0000 * 4096
  }

  /** What the MMU demands of a descriptor of a level-`l` table before user code can read,
      write and execute through it: bits 1..0 are 0b11; in the last level the access flag (bit
      10) is set, AP[2:1] (bits 7..6) is 0b01, and the execute-never bits 54..53 are 0; above
      it no restriction (bits 63..59) is set for what lies below. */
  predicate DescriptorValid(l: nat, e: nat)
    requires l <= 3
  {
    && e % 4 == 3
    && (l == 3 ==> e / 1024 % 2 == 1 && e / 64 % 4 == 1 && e / 0x20_0000_0000_0000 % 4 == 0)
    && (l < 3 ==> e / 0x800_0000_0000_0000 == 0)
  }

  /** The address a descriptor leads to, 0 when the MMU would fault. */
  function Target(l: nat, e: nat): nat
    requires l <= 3
  {
    if DescriptorValid(l, e) then OutputAddress(e) else 0
  }

  /** The fields of a level-3 page descriptor, section D5.3.3 of DDI 0487F: `upper` is bits
      63..48, which hold the execute-never bits. */
  datatype PageDescriptor = PageDescriptor(
    upper: nat,
    address: nat,
    nG: nat,
    af: nat,
    sh: nat,
    ap: nat,
    ns: nat,
    attrIndx: nat,
    kind: nat)

  function Fields(e: nat): PageDescriptor {
    PageDescriptor(e / VA_LIMIT, OutputAddress(e), e / 2048 % 2, e / 1024 % 2, e / 256 % 4, e / 64 % 4, e / 32 % 2,
                   e / 4 % 8, e % 4)
  }

  /** Byte `i` of MAIR_EL1, the memory type of descriptors with `AttrIndx` i. */
  function MemoryType(i: nat): nat {
    MAIR_VALUE / Pow2(8 * i) % 0x100
  }

  /** Memory of user code: accessible and writable at EL0 (AP[2:1] 0b01), without any other
      restriction, used already, of the type that MAIR_EL1 calls normal and non-cacheable. */
  predicate IsUserMemory(e: nat, page: nat) {
    Fields(e) == PageDescriptor(0, page, 0, 1, 0, 1, 0, 1, 3) && MemoryType(Fields(e).attrIndx) == 0x44
  }

  /** Flags beside a page address: a field that begins at bit value `w` and takes `n` values. */
  lemma FieldOfFlags(f: nat, flags: nat, e: nat, w: nat, n: nat, q: nat)
    requires w > 0 && n > 0 && e == w * (n * (q * f)) + flags
    ensures e / w % n == flags / w % n
  {
    var g, h := flags / w, q * f;
    DivModUnique(e, w, n * h + g, flags % w);
    SumByMultiple(n, h, g);
  }

  lemma LowFields(f: nat, flags: nat, e: nat)
    requires e == 4096 * f + flags
    ensures e / 2048 % 2 == flags / 2048 % 2 && e / 1024 % 2 == flags / 1024 % 2 && e / 256 % 4 == flags / 256 % 4
    ensures e / 64 % 4 == flags / 64 % 4 && e / 32 % 2 == flags / 32 % 2 && e / 4 % 8 == flags / 4 % 8
    ensures e / 1 % 4 == flags / 1 % 4
  {
    FieldOfFlags(f, flags, e, 2048, 2, 1);
    FieldOfFlags(f, flags, e, 1024, 2, 2);
    FieldOfFlags(f, flags, e, 256, 4, 4);
    FieldOfFlags(f, flags, e, 64, 4, 16);
    FieldOfFlags(f, flags, e, 32, 2, 64);
    FieldOfFlags(f, flags, e, 4, 8, 128);
    FieldOfFlags(f, flags, e, 1, 4, 1024);
  }

  lemma FieldsOfSum(page: nat, flags: nat, e: nat)
    requires InPool(page) && flags < 4096 && e == page + flags
    ensures Fields(e) == PageDescriptor(0, page, flags / 2048 % 2, flags / 1024 % 2, flags / 256 % 4, flags / 64 % 4,
                                        flags / 32 % 2, flags / 4 % 8, flags % 4)
  {
    LowFields(page / 4096, flags, e);
    AddressOfSum(page, flags);
  }

  lemma TypeOfIndexOne()
    ensures MemoryType(1) == 0x44
  {
    assert Pow2(8) == 0x100;
  }

  lemma AddressOfSum(page: nat, flags: nat)
    requires InPool(page) && flags < 4096
    ensures OutputAddress(page + flags) == page && (page + flags) / VA_LIMIT == 0
  {
    var f := page / 4096;
    DivModUnique(page + flags, 4096, f, flags);
    DivModUnique(f, 0x10_0000_0000, 0, f);
  }

  /** What `map_page` writes for a page is exactly that. */
  lemma LeafFields(page: nat)
    requires InPool(page)
    ensures IsUserMemory(page + MMU_PTE_FLAGS, page)
  {
    FieldsOfSum(page, MMU_PTE_FLAGS, page + MMU_PTE_FLAGS);
    TypeOfIndexOne();
  }

  lemma TargetOfEncoding(l: nat, a: nat)
    requires l <= 3 && InPool(a)
    ensures Target(l, a + Flags(l)) == a
  {
    LowFields(a / 4096, Flags(l), a + Flags(l));
    AddressOfSum(a, Flags(l));
  }

  lemma TargetOfZero(l: nat)
    requires l <= 3
    ensures Target(l, 0) == 0
  {
  }

  // ---- Translation ------------------------------------------------------------------

  /** The table walk of the MMU, from the table at physical address `table` downwards. */
  function WalkFrom(mem: seq<Page>, table: nat, l: nat, va: nat): nat
    requires |mem| == PAGING_PAGES && l <= 3
    decreases 3 - l
  {
    if !InPool(table) then 0
    else
      var next := Target(l, mem[FrameOf(table)][Slot(va, l)]);
      if l == 3 then next else WalkFrom(mem, next, l + 1, va)
  }

  /** The physical page that user code with translation base `pgd` reaches at `va`; 0 when
      the walk leaves the pool or the access is a translation fault. */
  function Walk(mem: seq<Page>, pgd: nat, va: nat): nat
    requires |mem| == PAGING_PAGES
  {
    WalkFrom(mem, pgd, 0, va)
  }

  /** The node called `p` of level `l` below `pgd`, found from its parent; 0 for none. */
  function Lookup(mem: seq<Page>, pgd: nat, l: nat, p: nat): nat
    requires |mem| == PAGING_PAGES && l <= 4
    decreases l
  {
    if l == 0 then pgd
    else
      var table := Lookup(mem, pgd, l - 1, p / 512);
      if !InPool(table) then 0 else Target(l - 1, mem[FrameOf(table)][p % 512])
  }

  /** The last-level descriptor that translates `va`; 0 when the walk does not get there. */
  function LeafWord(mem: seq<Page>, pgd: nat, va: nat): Word
    requires |mem| == PAGING_PAGES
  {
    var table := Lookup(mem, pgd, 3, Prefix(va, 3));
    if InPool(table) then mem[FrameOf(table)][Slot(va, 3)] else 0
  }

  /** The walk passes exactly through the nodes named by the prefixes of `va`. */
  lemma {:induction false} WalkIsLookup(mem: seq<Page>, pgd: nat, va: nat)
    requires |mem| == PAGING_PAGES
    ensures Walk(mem, pgd, va) == Lookup(mem, pgd, 4, Prefix(va, 4))
  {
    WalkFromIsLookup(mem, pgd, va, 0);
  }

  lemma {:induction false} WalkFromIsLookup(mem: seq<Page>, pgd: nat, va: nat, l: nat)
    requires |mem| == PAGING_PAGES && l <= 3
    ensures WalkFrom(mem, Lookup(mem, pgd, l, Prefix(va, l)), l, va) == Lookup(mem, pgd, 4, Prefix(va, 4))
    decreases 3 - l
  {
    PrefixStep(va, l);
    if l < 3 {
      WalkFromIsLookup(mem, pgd, va, l + 1);
      NotInPoolStops(mem, pgd, l, va);
    }
  }

  /** Nothing can be found below an address that is no pool page. */
  lemma {:induction false} NotInPoolStops(mem: seq<Page>, pgd: nat, l: nat, va: nat)
    requires |mem| == PAGING_PAGES && l <= 3
    ensures !InPool(Lookup(mem, pgd, l, Prefix(va, l))) ==> Lookup(mem, pgd, 4, Prefix(va, 4)) == 0
    decreases 3 - l
  {
    PrefixStep(va, l);
    if l < 3 {
      NotInPoolStops(mem, pgd, l + 1, va);
    }
  }

  // ---- Bit operations of the source -------------------------------------------------

  const PAGE_SHIFT: nat := 12
  const TABLE_SHIFT: nat := 9
  const PGD_SHIFT: nat := PAGE_SHIFT + 3 * TABLE_SHIFT
  const PUD_SHIFT: nat := PAGE_SHIFT + 2 * TABLE_SHIFT
  const PMD_SHIFT: nat := PAGE_SHIFT + TABLE_SHIFT

  function Shift(l: nat): nat
    requires l <= 3
  {
    if l == 0 then PGD_SHIFT else if l == 1 then PUD_SHIFT else if l == 2 then PMD_SHIFT else PAGE_SHIFT
  }

  /** C's `a >> k`. */
  function Shr(a: nat, k: nat): nat {
    QuotientIsNat(a, Pow2(k));
    a / Pow2(k)
  }

  lemma QuotientIsNat(a: nat, d: nat)
    requires d > 0
    ensures a / d >= 0
  {
  }

  /** `(va >> shift) & (PTRS_PER_TABLE - 1)` selects the slot. */
  lemma IndexIsSlot(va: nat, l: nat)
    requires l <= 3
    ensures And(Shr(va, Shift(l)), PTRS_PER_TABLE - 1) == Slot(va, l)
  {
    PowerValues();
    AndLowMask(va / Span(l + 1), 9);
  }

  /** `e & PAGE_MASK` drops the flags again. */
  lemma MaskDropsFlags(e: Word)
    ensures And(e, PAGE_MASK) == e - e % 4096 && And(e, PAGE_MASK) % 4096 == 0
  {
    PowerValues();
    AndHighMask(e, 12, 64);
    DivModUnique(e - e % 4096, 4096, e / 4096, 0);
  }
}
