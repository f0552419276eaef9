/** `map_page` and its callers, as changes of the whole system. */
module MmCalls {
  import opened Bits
  import opened PageTables
  import opened MmSpec
  import opened MmInvariant
  import opened MmOwnership
  import opened MmMapping

  lemma InvWiden(sys: Sys, role: seq<Role>, t: nat, extra: set<nat>)
    requires InvFor(sys, role, t, {})
    ensures InvFor(sys, role, t, extra)
  {
  }

  /** The effect of mapping: the lists, the counts and what every task sees. */
  ghost predicate MappedOk(sys: Sys, role: seq<Role>, sys': Sys, role': seq<Role>, t: nat, va: nat, page: nat) {
    && sys.ph.Wf() && sys'.ph.Wf() && t < |sys.mms| == |sys'.mms| && va < VA_LIMIT
    && (forall u: nat :: u < |sys.mms| && u != t ==> sys'.mms[u] == sys.mms[u])
    && ListsMapped(sys.mms[t], sys'.mms[t], va, page)
    && FreeCount(sys'.ph) + Missing(sys, t, va) == FreeCount(sys.ph)
    && sys'.mms[t].kernelPagesCount == sys.mms[t].kernelPagesCount + Missing(sys, t, va)
    && OnlyMaps(sys, sys', t, va, page)
    && OnlyMapsRoles(sys, role, sys', role', t, va, page)
  }

  /** What writing the last entry changes besides words of tables. */
  ghost predicate LeafChanged(sys1: Sys, sys2: Sys, t: nat, va: nat, page: nat) {
    && sys1.ph.Wf() && sys2.ph.Wf() && t < |sys1.mms| == |sys2.mms| && sys2.ph.memMap == sys1.ph.memMap
    && (forall u: nat :: u < |sys1.mms| && u != t ==> sys2.mms[u] == sys1.mms[u])
    && ListsMapped(sys1.mms[t], sys2.mms[t], va, page)
    && sys2.mms[t].kernelPagesCount == sys1.mms[t].kernelPagesCount
  }

  lemma Composed(sys: Sys, role: seq<Role>, sys1: Sys, role1: seq<Role>, sys2: Sys, t: nat, va: nat, page: nat)
    requires Advance(sys, role, sys1, role1, t, va) && InPool(page) && role[FrameOf(page)] == Held
    requires OnlyMaps(sys1, sys2, t, va, page) && Missing(sys1, t, va) == 0 && LeafChanged(sys1, sys2, t, va, page)
    requires forall f: nat :: f < PAGING_PAGES && Precious(role1[f]) ==> sys2.ph.mem[f] == sys1.ph.mem[f]
    ensures MappedOk(sys, role, sys2, role1[FrameOf(page) := Node(t, 4, va / 4096)], t, va, page)
  {
    assert FreeSet(sys2.ph.memMap) == FreeSet(sys1.ph.memMap);
    OnlyMapsComposed(sys, sys1, sys2, t, va, page);
    RolesComposed(sys, role, sys1, role1, sys2, t, va, page);
  }

  lemma OnlyMapsComposed(sys: Sys, sys1: Sys, sys2: Sys, t: nat, va: nat, page: nat)
    requires SameLeaves(sys, sys1) && OnlyMaps(sys1, sys2, t, va, page)
    ensures OnlyMaps(sys, sys2, t, va, page)
  {
  }

  lemma RolesComposed(sys: Sys, role: seq<Role>, sys1: Sys, role1: seq<Role>, sys2: Sys, t: nat, va: nat, page: nat)
    requires OnlyTablesAdded(sys, role, sys1, role1, t) && InPool(page) && role[FrameOf(page)] == Held
    requires sys2.ph.Wf()
    requires forall f: nat :: f < PAGING_PAGES && Precious(role1[f]) ==> sys2.ph.mem[f] == sys1.ph.mem[f]
    ensures OnlyMapsRoles(sys, role, sys2, role1[FrameOf(page) := Node(t, 4, va / 4096)], t, va, page)
  {
  }

  lemma LeafSpares(mms: seq<MmStruct>, t: nat, va: nat, s: Progress, role: seq<Role>, page: nat)
    requires Ready(mms, t, va, s, role, 3) && InPool(page)
    ensures forall f: nat :: f < PAGING_PAGES && Precious(role[f]) ==> MapLeaf(s, va, page).ph.mem[f] == s.ph.mem[f]
  {
    LeafWrites(s, va, page);
    ReadyEntry(mms, t, va, s, role, 3);
  }

  lemma LeafChanges(mms: seq<MmStruct>, t: nat, va: nat, s: Progress, page: nat)
    requires t < |mms| && s.Wf() && s.outcome == Mapped && InPool(page) && s.mm.userPagesCount < MAX_PROCESS_PAGES
    ensures LeafChanged(SysOf(mms, t, s), SysOf(mms, t, MapLeaf(s, va, page)), t, va, page)
  {
    LeafWrites(s, va, page);
  }

  lemma StillUnmapped(sys: Sys, role: seq<Role>, sys': Sys, role': seq<Role>, t: nat, va: nat, page: nat)
    requires Advance(sys, role, sys', role', t, va) && OnWay(sys, t, va, 4) == 0
    requires InPool(page) && role[FrameOf(page)] == Held
    ensures OnWay(sys', t, va, 4) == 0 && role'[FrameOf(page)] == Held
  {
    PrefixBound(va, 4);
    assert IsNode(sys.mms, t, 4, Prefix(va, 4));
  }

  lemma TablesSuffice(sys: Sys, sys': Sys, t: nat, va: nat)
    requires sys.ph.Wf() && sys'.ph.Wf() && t < |sys.mms| == |sys'.mms| && va < VA_LIMIT
    requires Accounts(sys, sys', t, va) && Missing(sys', t, va) == 0 && sys'.mms[t].Wf()
    requires sys'.mms[t].userPagesCount == sys.mms[t].userPagesCount
    ensures Suffices(sys, t, va) <==> sys'.mms[t].userPagesCount < MAX_PROCESS_PAGES
  {
  }

  lemma BuiltFacts(mms: seq<MmStruct>, t: nat, va: nat, sys: Sys, role: seq<Role>, s: Progress,
      role1: seq<Role>, page: nat)
    requires Ready(mms, t, va, s, role1, 3) && Advance(sys, role, SysOf(mms, t, s), role1, t, va)
    requires InPool(page) && role[FrameOf(page)] == Held && OnWay(sys, t, va, 4) == 0
    ensures OnWay(SysOf(mms, t, s), t, va, 4) == 0 && role1[FrameOf(page)] == Held
    ensures Missing(SysOf(mms, t, s), t, va) == 0
    ensures Suffices(sys, t, va) <==> s.mm.userPagesCount < MAX_PROCESS_PAGES
  {
    ReadyNonzero(s);
    TableThereNoneMissing(SysOf(mms, t, s), t, va);
    StillUnmapped(sys, role, SysOf(mms, t, s), role1, t, va, page);
    TablesSuffice(sys, SysOf(mms, t, s), t, va);
  }

  lemma LeafMapped(mms: seq<MmStruct>, t: nat, va: nat, sys: Sys, role: seq<Role>, s: Progress,
      role1: seq<Role>, page: nat)
    requires Ready(mms, t, va, s, role1, 3) && Advance(sys, role, SysOf(mms, t, s), role1, t, va) && va % 4096 == 0
    requires InPool(page) && role[FrameOf(page)] == Held && OnWay(sys, t, va, 4) == 0
    requires s.mm.userPagesCount < MAX_PROCESS_PAGES
    ensures MappedOk(
      sys, role, SysOf(mms, t, MapLeaf(s, va, page)), role1[FrameOf(page) := Node(t, 4, va / 4096)], t, va, page)
  {
    BuiltFacts(mms, t, va, sys, role, s, role1, page);
    LeafChanges(mms, t, va, s, page);
    LeafOnlyMaps(mms, t, va, s, role1, page);
    LeafSpares(mms, t, va, s, role1, page);
    Composed(sys, role, SysOf(mms, t, s), role1, SysOf(mms, t, MapLeaf(s, va, page)), t, va, page);
  }

  /** `map_page` for an unmapped address succeeds exactly when pages and list slots suffice,
      and then maps `va` of task `t` to `page` and changes no other translation of any task
      and no byte of any user or kernel page. */
  lemma MapPageCorrect(mms: seq<MmStruct>, t: nat, va: nat, ph: Phys, role: seq<Role>, page: nat)
      returns (role': seq<Role>)
    requires t < |mms| && va < VA_LIMIT && va % 4096 == 0 && InvFor(Sys(ph, mms), role, t, {})
    requires InPool(page) && role[FrameOf(page)] == Held && OnWay(Sys(ph, mms), t, va, 4) == 0
    ensures mms[t].Wf() && (mms[t].pgd == 0 || InPool(mms[t].pgd))
    ensures MapPage(ph, mms[t], va, page).outcome == Mapped <==> Suffices(Sys(ph, mms), t, va)
    ensures var r := MapPage(ph, mms[t], va, page); r.outcome != Mapped ==> UsedUp(Sys(ph, mms), t, va, r.ph, r.mm)
    ensures MapPage(ph, mms[t], va, page).outcome == Mapped ==>
      var r := MapPage(ph, mms[t], va, page);
      InvFor(SysOf(mms, t, r), role', t, {}) && MappedOk(Sys(ph, mms), role, SysOf(mms, t, r), role', t, va, page)
  {
    var sys := Sys(ph, mms);
    PgdInPool(sys, role, t, t, {});
    InvWiden(sys, role, t, {va});
    var role1 := BuildTables(mms, t, va, ph, role);
    MapPageIsTablesThenLeaf(ph, mms[t], va, page);
    role' := MapBuilt(mms, t, va, sys, role, Tables(ph, mms[t], va), role1, page);
  }

  /** With the tables there, the mapping succeeds exactly when the shadow list has room. */
  lemma TablesThenLeaf(mms: seq<MmStruct>, t: nat, va: nat, sys: Sys, role: seq<Role>, s: Progress, role1: seq<Role>,
      page: nat)
    requires Ready(mms, t, va, s, role1, 3) && Advance(sys, role, SysOf(mms, t, s), role1, t, va)
    requires InPool(page) && role[FrameOf(page)] == Held && OnWay(sys, t, va, 4) == 0
    ensures MapLeaf(s, va, page).outcome == Mapped <==> Suffices(sys, t, va)
    ensures Suffices(sys, t, va) <==> s.mm.userPagesCount < MAX_PROCESS_PAGES
    ensures var r := MapLeaf(s, va, page); r.outcome != Mapped ==> UsedUp(sys, t, va, r.ph, r.mm)
  {
    BuiltFacts(mms, t, va, sys, role, s, role1, page);
    LeafWrites(s, va, page);
  }

  lemma LeafServed(mms: seq<MmStruct>, t: nat, va: nat, sys: Sys, role: seq<Role>, s: Progress, role1: seq<Role>,
      page: nat)
      returns (role': seq<Role>)
    requires Ready(mms, t, va, s, role1, 3) && Advance(sys, role, SysOf(mms, t, s), role1, t, va) && va % 4096 == 0
    requires InPool(page) && role[FrameOf(page)] == Held && OnWay(sys, t, va, 4) == 0
    requires s.mm.userPagesCount < MAX_PROCESS_PAGES
    ensures var r := MapLeaf(s, va, page);
      InvFor(SysOf(mms, t, r), role', t, {}) && MappedOk(sys, role, SysOf(mms, t, r), role', t, va, page)
  {
    BuiltFacts(mms, t, va, sys, role, s, role1, page);
    role' := role1[FrameOf(page) := Node(t, 4, va / 4096)];
    LeafStep(mms, t, va, s, role1, page);
    LeafMapped(mms, t, va, sys, role, s, role1, page);
  }

  lemma MapBuilt(mms: seq<MmStruct>, t: nat, va: nat, sys: Sys, role: seq<Role>, s: Progress, role1: seq<Role>,
      page: nat)
      returns (role': seq<Role>)
    requires sys.mms == mms && t < |mms| && va < VA_LIMIT && va % 4096 == 0 && sys.ph.Wf()
    requires |role| == PAGING_PAGES && InPool(page) && role[FrameOf(page)] == Held && OnWay(sys, t, va, 4) == 0
    requires Built(mms, t, va, Progress(sys.ph, mms[t], 0, NullTable), role, s, role1)
    ensures MapLeaf(s, va, page).outcome == Mapped <==> Suffices(sys, t, va)
    ensures var r := MapLeaf(s, va, page); r.outcome != Mapped ==> UsedUp(sys, t, va, r.ph, r.mm)
    ensures MapLeaf(s, va, page).outcome == Mapped ==>
      var r := MapLeaf(s, va, page);
      InvFor(SysOf(mms, t, r), role', t, {}) && MappedOk(sys, role, SysOf(mms, t, r), role', t, va, page)
  {
    SysOfSame(mms, t, Progress(sys.ph, mms[t], 0, NullTable));
    role' := role1;
    if s.outcome == Mapped {
      TablesThenLeaf(mms, t, va, sys, role, s, role1, page);
      if s.mm.userPagesCount < MAX_PROCESS_PAGES {
        role' := LeafServed(mms, t, va, sys, role, s, role1, page);
      }
    }
  }

  // ---- allocate_user_page -----------------------------------------------------------

  ghost predicate SufficesWithPage(sys: Sys, t: nat, va: nat)
    requires sys.ph.Wf() && t < |sys.mms| && va < VA_LIMIT
  {
    Missing(sys, t, va) + 1 <= FreeCount(sys.ph) && SlotsSuffice(sys, t, va)
  }

  /** A zeroed page that was free is now page `va` of task `t`; free pages have become the
      missing tables; nothing else has changed for anyone. */
  ghost predicate AllocOk(sys: Sys, role: seq<Role>, sys': Sys, role': seq<Role>, t: nat, va: nat, page: nat) {
    && sys.ph.Wf() && sys'.ph.Wf() && t < |sys.mms| == |sys'.mms| && va < VA_LIMIT
    && (forall u: nat :: u < |sys.mms| && u != t ==> sys'.mms[u] == sys.mms[u])
    && ListsMapped(sys.mms[t], sys'.mms[t], va, page)
    && FreeCount(sys'.ph) + 1 + Missing(sys, t, va) == FreeCount(sys.ph)
    && sys'.mms[t].kernelPagesCount == sys.mms[t].kernelPagesCount + Missing(sys, t, va)
    && OnlyMaps(sys, sys', t, va, page)
    && AllocRoles(sys, role, sys', role', t, va, page)
  }

  ghost predicate AllocRoles(sys: Sys, role: seq<Role>, sys': Sys, role': seq<Role>, t: nat, va: nat, page: nat) {
    && sys.ph.Wf() && sys'.ph.Wf() && |role| == PAGING_PAGES && |role'| == PAGING_PAGES && InPool(page)
    && role[FrameOf(page)] == Free && role'[FrameOf(page)] == Node(t, 4, va / 4096)
    && (forall f: nat :: f < PAGING_PAGES && f != FrameOf(page)
          ==> role'[f] == role[f] || (role[f] == Free && IsTable(role'[f], t)))
    && (forall f: nat :: f < PAGING_PAGES && Precious(role[f]) ==> sys'.ph.mem[f] == sys.ph.mem[f])
    && (forall i: nat :: i < 512 ==> sys'.ph.mem[FrameOf(page)][i] == 0)
  }

  /** `sys1` is `sys` after one `get_free_page`. */
  ghost predicate Took(sys: Sys, role: seq<Role>, sys1: Sys, page: nat) {
    && sys.ph.Wf() && sys1.ph.Wf() && |role| == PAGING_PAGES && InPool(page) && sys1.mms == sys.mms
    && role[FrameOf(page)] == Free
    && LookupsPlus(sys.ph.mem, sys.mms, sys1.ph.mem, sys.mms, Free, 0)
    && FreeCount(sys1.ph) == FreeCount(sys.ph) - 1
    && (forall f: nat :: f < PAGING_PAGES && f != FrameOf(page) ==> sys1.ph.mem[f] == sys.ph.mem[f])
    && (forall i: nat :: i < 512 ==> sys1.ph.mem[FrameOf(page)][i] == 0)
  }

  lemma TookSameWay(sys: Sys, role: seq<Role>, sys1: Sys, page: nat, t: nat, va: nat)
    requires Took(sys, role, sys1, page) && t < |sys.mms| && va < VA_LIMIT
    ensures forall l: nat :: l <= 4 ==> OnWay(sys1, t, va, l) == OnWay(sys, t, va, l)
    ensures Missing(sys1, t, va) == Missing(sys, t, va)
  {
    forall l: nat | l <= 4
      ensures OnWay(sys1, t, va, l) == OnWay(sys, t, va, l)
    {
      PrefixBound(va, l);
      assert LookupPlus(sys.ph.mem, sys.mms, sys1.ph.mem, sys.mms, Free, 0, t, l, Prefix(va, l));
    }
  }

  lemma TookThenMapped(sys: Sys, role: seq<Role>, sys1: Sys, sys2: Sys, role2: seq<Role>, t: nat, va: nat, page: nat)
    requires Took(sys, role, sys1, page)
    requires MappedOk(sys1, role[FrameOf(page) := Held], sys2, role2, t, va, page)
    ensures AllocOk(sys, role, sys2, role2, t, va, page)
  {
    TookSameWay(sys, role, sys1, page, t, va);
    TookThenMappedRoles(sys, role, sys1, sys2, role2, t, va, page);
    forall u: nat, p: nat | IsNode(sys.mms, u, 4, p)
      ensures At(sys2.ph.mem, sys2.mms, u, 4, p)
              == if u == t && p == va / 4096 then page else At(sys.ph.mem, sys.mms, u, 4, p)
    {
      assert LookupPlus(sys.ph.mem, sys.mms, sys1.ph.mem, sys.mms, Free, 0, u, 4, p);
      assert IsNode(sys1.mms, u, 4, p);
    }
  }

  lemma TookThenMappedRoles(sys: Sys, role: seq<Role>, sys1: Sys, sys2: Sys, role2: seq<Role>, t: nat, va: nat,
      page: nat)
    requires Took(sys, role, sys1, page)
    requires OnlyMapsRoles(sys1, role[FrameOf(page) := Held], sys2, role2, t, va, page)
    ensures AllocRoles(sys, role, sys2, role2, t, va, page)
  {
  }

  lemma TookSuffices(sys: Sys, role: seq<Role>, sys1: Sys, page: nat, t: nat, va: nat)
    requires Took(sys, role, sys1, page) && t < |sys.mms| && va < VA_LIMIT
    ensures OnWay(sys1, t, va, 4) == OnWay(sys, t, va, 4)
    ensures Suffices(sys1, t, va) <==> SufficesWithPage(sys, t, va)
    ensures SlotsSuffice(sys1, t, va) <==> SlotsSuffice(sys, t, va)
  {
    TookSameWay(sys, role, sys1, page, t, va);
  }

  /** `map_page` with the page just taken. */
  lemma MapTaken(sys: Sys, role: seq<Role>, sys1: Sys, role1: seq<Role>, t: nat, va: nat, page: nat)
      returns (role': seq<Role>)
    requires t < |sys.mms| && va < VA_LIMIT && va % 4096 == 0 && sys.ph.Wf() && OnWay(sys, t, va, 4) == 0
    requires Took(sys, role, sys1, page) && role1 == role[FrameOf(page) := Held] && InvFor(sys1, role1, t, {})
    ensures sys.mms[t].Wf() && (sys.mms[t].pgd == 0 || InPool(sys.mms[t].pgd))
    ensures var r := MapPage(sys1.ph, sys.mms[t], va, page);
      && (r.outcome == Mapped <==> SufficesWithPage(sys, t, va))
      && (r.outcome != Mapped ==> UsedUp(sys, t, va, r.ph, r.mm))
      && (r.outcome == Mapped ==>
            InvFor(SysOf(sys.mms, t, r), role', t, {}) && AllocOk(sys, role, SysOf(sys.mms, t, r), role', t, va, page))
  {
    TookSuffices(sys, role, sys1, page, t, va);
    role' := MapPageCorrect(sys.mms, t, va, sys1.ph, role1, page);
    var r := MapPage(sys1.ph, sys.mms[t], va, page);
    if r.outcome == Mapped {
      TookThenMapped(sys, role, sys1, SysOf(sys.mms, t, r), role', t, va, page);
    }
  }

  /** `allocate_user_page` for an unmapped address: it fails cleanly exactly when no page is
      free, goes wrong exactly when a page is free but tables or list slots run out, and
      otherwise maps a zeroed page. */
  lemma AllocateUserPageCorrect(sys: Sys, role: seq<Role>, t: nat, va: nat) returns (role': seq<Role>)
    requires InvFor(sys, role, t, {}) && t < |sys.mms| && va < VA_LIMIT && va % 4096 == 0 && OnWay(sys, t, va, 4) == 0
    ensures sys.mms[t].Wf() && (sys.mms[t].pgd == 0 || InPool(sys.mms[t].pgd))
    ensures var (ph', mm', a) := AllocateUserPage(sys.ph, sys.mms[t], va);
      && (a == NoPage <==> FreeCount(sys.ph) == 0)
      && (a == NoPage ==> ph' == sys.ph && mm' == sys.mms[t])
      && (a.Got? <==> SufficesWithPage(sys, t, va))
      && (a.Broken? ==> UsedUp(sys, t, va, ph', mm'))
      && (a.Got? ==>
            && InvFor(Sys(ph', sys.mms[t := mm']), role', t, {})
            && AllocOk(sys, role, Sys(ph', sys.mms[t := mm']), role', t, va, a.page))
  {
    PgdInPool(sys, role, t, t, {});
    var role1 := TakeKeeps(sys, role, t, {});
    var (ph1, page) := GetFreePage(sys.ph);
    role' := role1;
    if page != 0 {
      role' := MapTaken(sys, role, Sys(ph1, sys.mms), role1, t, va, page);
    }
  }

  /** `addr & PAGE_MASK`. */
  function PageBase(addr: Word): (va: nat)
    ensures va == addr - addr % 4096 && va % 4096 == 0
  {
    MaskDropsFlags(addr);
    And(addr, PAGE_MASK)
  }

  /** The test of the fault status, bit by bit: the field DFSC, `esr` modulo 64, is 0b0001LL,
      a translation fault of level LL. */
  lemma ServedStatus(esr: nat)
    ensures IsTranslationFault(esr) <==> 4 <= esr % 64 <= 7
  {
    PowerValues();
    AndLowMask(esr, 6);
    AndHighMask(esr % 64, 2, 6);
  }

  /** A walk for any address of the page sees the new mapping. */
  lemma AllocSeen(sys: Sys, role: seq<Role>, sys': Sys, role': seq<Role>, t: nat, va: nat, page: nat, addr: nat)
    requires AllocOk(sys, role, sys', role', t, va, page) && va <= addr < va + 4096 && va % 4096 == 0
    ensures Walk(sys'.ph.mem, sys'.mms[t].pgd, addr) == page
  {
    LeafIsNode(sys.mms, t, va);
    WalkIsLookup(sys'.ph.mem, sys'.mms[t].pgd, addr);
    assert At(sys'.ph.mem, sys'.mms, t, 4, va / 4096) == page;
    assert Prefix(addr, 4) == va / 4096;
  }

  lemma UnmappedOnWay(sys: Sys, t: nat, addr: Word)
    requires sys.ph.Wf() && t < |sys.mms| && addr < VA_LIMIT && Walk(sys.ph.mem, sys.mms[t].pgd, addr) == 0
    ensures OnWay(sys, t, PageBase(addr), 4) == 0
  {
    WalkIsLookup(sys.ph.mem, sys.mms[t].pgd, addr);
    assert Prefix(PageBase(addr), 4) == Prefix(addr, 4);
  }

  /** What a task's page-fault handler leaves behind. */
  ghost predicate FaultServed(sys: Sys, role: seq<Role>, sys': Sys, role': seq<Role>, t: nat, addr: Word, page: nat) {
    && InvFor(sys', role', t, {})
    && AllocOk(sys, role, sys', role', t, PageBase(addr), page)
    && Walk(sys'.ph.mem, sys'.mms[t].pgd, addr) == page
  }

  /** `do_mem_abort` for a translation fault, status 4 to 7, maps a zeroed page at the faulting
      page when it can; for every other fault status it refuses and changes nothing. */
  lemma DoMemAbortCorrect(sys: Sys, role: seq<Role>, t: nat, addr: Word, esr: nat) returns (role': seq<Role>)
    requires InvFor(sys, role, t, {}) && t < |sys.mms| && addr < VA_LIMIT
    requires 4 <= esr % 64 <= 7 ==> Walk(sys.ph.mem, sys.mms[t].pgd, addr) == 0
    ensures sys.mms[t].Wf() && (sys.mms[t].pgd == 0 || InPool(sys.mms[t].pgd))
    ensures var (ph', mm', a) := DoMemAbort(sys.ph, sys.mms[t], addr, esr);
      && (a == NoPage <==> FreeCount(sys.ph) == 0 || !(4 <= esr % 64 <= 7))
      && (a == NoPage ==> ph' == sys.ph && mm' == sys.mms[t])
      && (a.Got? <==> 4 <= esr % 64 <= 7 && SufficesWithPage(sys, t, PageBase(addr)))
      && (a.Got? ==> FaultServed(sys, role, Sys(ph', sys.mms[t := mm']), role', t, addr, a.page))
  {
    PgdInPool(sys, role, t, t, {});
    ServedStatus(esr);
    role' := role;
    if IsTranslationFault(esr) {
      var va := PageBase(addr);
      UnmappedOnWay(sys, t, addr);
      role' := AllocateUserPageCorrect(sys, role, t, va);
      var (ph', mm', a) := AllocateUserPage(sys.ph, sys.mms[t], va);
      if a.Got? {
        AllocSeen(sys, role, Sys(ph', sys.mms[t := mm']), role', t, va, a.page, addr);
      }
    }
  }
}
