/** The memory manager's operations as functions on values. The methods of module
    MemoryManager compute exactly these. */
module MmSpec {
  import opened Bits
  import opened PageTables

  const MAX_PROCESS_PAGES: nat := 16

  datatype UserPage = UserPage(physAddr: nat, virtAddr: nat)

  /** `struct mm_struct`: the translation base, the shadow list of mapped pages and the list
      of table pages. Slot 0 of `kernelPages` is never used. */
  datatype MmStruct = MmStruct(
    pgd: nat,
    userPagesCount: nat,
    userPages: seq<UserPage>,
    kernelPagesCount: nat,
    kernelPages: seq<nat>)
  {
    predicate Wf() {
      && |userPages| == MAX_PROCESS_PAGES && |kernelPages| == MAX_PROCESS_PAGES
      && userPagesCount <= MAX_PROCESS_PAGES && kernelPagesCount < MAX_PROCESS_PAGES
    }

    function Users(): seq<UserPage>
      requires Wf()
    {
      userPages[..userPagesCount]
    }

    function Tables(): seq<nat>
      requires Wf()
    {
      kernelPages[1..kernelPagesCount + 1]
    }
  }

  function EmptyMm(): (mm: MmStruct)
    ensures mm.Wf() && mm.pgd == 0 && mm.userPagesCount == 0 && mm.kernelPagesCount == 0
  {
    MmStruct(0, 0, seq(16, _ => UserPage(0, 0)), 0, seq(16, _ => 0))
  }

  /** How mapping a page ends. The source checks for neither of the last two: with
      `NullTable` it goes on using physical page 0 as a table, with `ListOverflow` it
      writes past the end of a list in `mm_struct`. The model stops there. */
  datatype Outcome = Mapped | NullTable | ListOverflow

  // ---- Allocator --------------------------------------------------------------------

  /** The lowest free index that is not below `i`; the length when there is none. */
  function FirstFree(memMap: seq<nat>, i: nat): (f: nat)
    requires i <= |memMap|
    ensures i <= f <= |memMap|
    ensures f < |memMap| ==> memMap[f] == 0
    ensures forall k :: i <= k < f ==> memMap[k] != 0
    decreases |memMap| - i
  {
    if i == |memMap| || memMap[i] == 0 then i else FirstFree(memMap, i + 1)
  }

  function Take(ph: Phys, f: nat): (r: Phys)
    requires ph.Wf() && f < PAGING_PAGES
    ensures r.Wf()
  {
    Phys(ph.memMap[f := 1], ph.mem[f := ZeroPage()])
  }

  function GetFreePage(ph: Phys): (r: (Phys, Word))
    requires ph.Wf()
    ensures r.0.Wf()
  {
    var f := FirstFree(ph.memMap, 0);
    if f == PAGING_PAGES then (ph, 0) else (Take(ph, f), FrameAddr(f))
  }

  function FreePage(ph: Phys, p: nat): (r: Phys)
    requires ph.Wf() && InPool(p)
    ensures r.Wf()
  {
    Phys(ph.memMap[FrameOf(p) := 0], ph.mem)
  }

  // ---- Mapping ----------------------------------------------------------------------

  function WriteWord(ph: Phys, table: nat, index: nat, entry: Word): (r: Phys)
    requires ph.Wf() && InPool(table) && index < 512
    ensures r.Wf()
  {
    var f := FrameOf(table);
    Phys(ph.memMap, ph.mem[f := ph.mem[f][index := entry]])
  }

  function Index(va: nat, shift: nat): (i: nat)
    ensures i < 512
  {
    PowerValues();
    AndLowMask(Shr(va, shift), 9);
    And(Shr(va, shift), PTRS_PER_TABLE - 1)
  }

  function Descriptor(a: nat, flags: nat): (e: Word)
    requires a < HIGH_MEMORY && a % 4096 == 0 && flags < 4096
    ensures e == a + flags
  {
    OrIsSum(a, flags);
    Or(a, flags)
  }

  /** `map_table`: the next-level table, and whether it is new. */
  function MapTable(ph: Phys, table: nat, shift: nat, va: nat): (r: (Phys, nat, bool))
    requires ph.Wf() && InPool(table)
    ensures r.0.Wf()
  {
    var index := Index(va, shift);
    var e := ph.mem[FrameOf(table)][index];
    if e == 0 then
      var (ph1, next) := GetFreePage(ph);
      (WriteWord(ph1, table, index, Descriptor(next, MM_TYPE_PAGE_TABLE)), next, true)
    else
      (ph, And(e, PAGE_MASK), false)
  }

  datatype Progress = Progress(ph: Phys, mm: MmStruct, table: nat, outcome: Outcome)
  {
    predicate Wf() { ph.Wf() && mm.Wf() && (outcome == Mapped ==> InPool(table)) }
  }

  /** `kernel_pages[++kernel_pages_count] = a`. */
  function Record(ph: Phys, mm: MmStruct, a: nat): (r: Progress)
    requires ph.Wf() && mm.Wf() && (a == 0 || InPool(a))
    ensures r.Wf()
  {
    if a == 0 then Progress(ph, mm, a, NullTable)
    else if mm.kernelPagesCount + 1 >= MAX_PROCESS_PAGES then Progress(ph, mm, a, ListOverflow)
    else
      var n := mm.kernelPagesCount + 1;
      Progress(ph, mm.(kernelPagesCount := n, kernelPages := mm.kernelPages[n := a]), a, Mapped)
  }

  function EnsureRoot(ph: Phys, mm: MmStruct): (r: Progress)
    requires ph.Wf() && mm.Wf() && (mm.pgd == 0 || InPool(mm.pgd))
    ensures r.Wf()
  {
    if mm.pgd == 0 then
      var (ph1, a) := GetFreePage(ph);
      Record(ph1, mm.(pgd := a), a)
    else
      Progress(ph, mm, mm.pgd, Mapped)
  }

  /** One level down: `map_table` and the record of a new table. */
  function Descend(s: Progress, shift: nat, va: nat): (r: Progress)
    requires s.Wf()
    ensures r.Wf()
  {
    if s.outcome != Mapped then s
    else
      var (ph1, next, fresh') := MapTable(s.ph, s.table, shift, va);
      if fresh' then Record(ph1, s.mm, next)
      else if InPool(next) then Progress(ph1, s.mm, next, Mapped)
      else Progress(ph1, s.mm, next, NullTable)
  }

  /** The last-level entry and the record in the shadow list. */
  function MapLeaf(s: Progress, va: nat, page: nat): (r: Progress)
    requires s.Wf() && InPool(page)
    ensures r.Wf()
  {
    if s.outcome != Mapped then s
    else
      var ph1 := WriteWord(s.ph, s.table, Index(va, PAGE_SHIFT), Descriptor(page, MMU_PTE_FLAGS));
      if s.mm.userPagesCount >= MAX_PROCESS_PAGES then Progress(ph1, s.mm, s.table, ListOverflow)
      else
        var n := s.mm.userPagesCount;
        var mm1 := s.mm.(userPagesCount := n + 1, userPages := s.mm.userPages[n := UserPage(page, va)]);
        Progress(ph1, mm1, s.table, Mapped)
  }

  function MapPage(ph: Phys, mm: MmStruct, va: nat, page: nat): (r: Progress)
    requires ph.Wf() && mm.Wf() && (mm.pgd == 0 || InPool(mm.pgd)) && InPool(page)
    ensures r.Wf()
  {
    var s0 := EnsureRoot(ph, mm);
    var s1 := Descend(s0, PGD_SHIFT, va);
    var s2 := Descend(s1, PUD_SHIFT, va);
    var s3 := Descend(s2, PMD_SHIFT, va);
    MapLeaf(s3, va, page)
  }

  // ---- Callers of map_page ----------------------------------------------------------

  /** `Got` carries the page (the source returns its kernel address), `NoPage` is the
      checked failure, `Broken` an unchecked one. */
  datatype Alloc = Got(page: nat) | NoPage | Broken(why: Outcome)

  function AllocateUserPage(ph: Phys, mm: MmStruct, va: nat): (r: (Phys, MmStruct, Alloc))
    requires ph.Wf() && mm.Wf() && (mm.pgd == 0 || InPool(mm.pgd))
    ensures r.0.Wf() && r.1.Wf() && (r.2.Got? ==> InPool(r.2.page))
  {
    var (ph1, page) := GetFreePage(ph);
    if page == 0 then (ph1, mm, NoPage)
    else
      var s := MapPage(ph1, mm, va, page);
      (s.ph, s.mm, if s.outcome == Mapped then Got(page) else Broken(s.outcome))
  }

  /** DFSC 0b0001LL: a translation fault of level LL. */
  predicate IsTranslationFault(esr: nat) {
    And(And(esr, 0x3f), 0x3c) == 0x4
  }

  function DoMemAbort(ph: Phys, mm: MmStruct, addr: Word, esr: nat): (r: (Phys, MmStruct, Alloc))
    requires ph.Wf() && mm.Wf() && (mm.pgd == 0 || InPool(mm.pgd))
    ensures r.0.Wf() && r.1.Wf() && (r.2.Got? ==> InPool(r.2.page))
  {
    if IsTranslationFault(esr) then AllocateUserPage(ph, mm, And(addr, PAGE_MASK)) else (ph, mm, NoPage)
  }

  /** How `copy_virt_memory` ends: after all rounds, refused, with an unchecked failure of
      `map_page`, or with a fault while reading the current task's page. */
  datatype Copied = Done | Refused | Wrecked(why: Outcome) | SourceFault

  /** `memcpy(va, page, PAGE_SIZE)` with `va` read through the current task's tables. */
  function CopyPage(ph: Phys, from: nat, to: nat): (r: Phys)
    requires ph.Wf() && InPool(from) && InPool(to)
    ensures r.Wf()
  {
    Phys(ph.memMap, ph.mem[FrameOf(to) := ph.mem[FrameOf(from)]])
  }

  /** `copy_virt_memory` from list index `i` on; `src` is the current task's mm. */
  function CopyFrom(ph: Phys, src: MmStruct, dst: MmStruct, i: nat): (r: (Phys, MmStruct, Copied))
    requires ph.Wf() && src.Wf() && dst.Wf() && (dst.pgd == 0 || InPool(dst.pgd)) && i <= src.userPagesCount
    ensures r.0.Wf() && r.1.Wf()
    decreases src.userPagesCount - i
  {
    if i == src.userPagesCount then (ph, dst, Done)
    else
      var va := src.userPages[i].virtAddr;
      var (ph1, dst1, a) := AllocateUserPage(ph, dst, va);
      match a
      case NoPage => (ph1, dst1, Refused)
      case Broken(why) => (ph1, dst1, Wrecked(why))
      case Got(page) =>
        var from := Walk(ph1.mem, src.pgd, va);
        if !InPool(from) || !(dst1.pgd == 0 || InPool(dst1.pgd)) then (ph1, dst1, SourceFault)
        else CopyFrom(CopyPage(ph1, from, page), src, dst1, i + 1)
  }
}
