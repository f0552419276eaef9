/** What depends on `map_page` being used for unmapped addresses only: mapping an address again
    retargets the walk, but the shadow list keeps the stale pair as well. */
module MmRemap {
  import opened PageTables
  import opened MmSpec
  import opened MmInvariant
  import opened MmOwnership
  import opened MmMapping
  import opened MmCalls
  import opened MmShadow
  import opened MmFork
  import opened MmRuns

  lemma {:induction false} WayComplete(sys: Sys, t: nat, va: nat, l: nat)
    requires sys.ph.Wf() && t < |sys.mms| && va < VA_LIMIT && l <= 4 && OnWay(sys, t, va, 4) != 0
    ensures OnWay(sys, t, va, l) != 0
    decreases 4 - l
  {
    if l < 4 {
      WayComplete(sys, t, va, l + 1);
      OnWayStep(sys, t, va, l);
    }
  }

  /** The tables above the last level on the way to `va` are not in frame `f`. */
  ghost predicate AboveElsewhere(sys: Sys, t: nat, va: nat, f: nat)
    requires sys.ph.Wf() && t < |sys.mms| && va < VA_LIMIT
  {
    forall l: nat :: l <= 2 ==> InPool(OnWay(sys, t, va, l)) && FrameOf(OnWay(sys, t, va, l)) != f
  }

  lemma LastTableApart(sys: Sys, role: seq<Role>, t: nat, va: nat, f: nat)
    requires InvFor(sys, role, t, {va}) && t < |sys.mms| && va < VA_LIMIT && f < PAGING_PAGES
    requires role[f] == Node(t, 3, Prefix(va, 3)) && OnWay(sys, t, va, 4) != 0
    ensures AboveElsewhere(sys, t, va, f)
  {
    forall l: nat | l <= 2
      ensures InPool(OnWay(sys, t, va, l)) && FrameOf(OnWay(sys, t, va, l)) != f
    {
      WayComplete(sys, t, va, l);
      EntryDecoded(sys, role, t, va, l, {va});
    }
  }

  /** A write into the last-level table of the way leaves the way to it as it is. */
  lemma {:induction false} WayKept(sys: Sys, sys': Sys, t: nat, va: nat, f: nat, i: nat, e: Word, l: nat)
    requires sys.ph.Wf() && sys'.ph.Wf() && t < |sys.mms| == |sys'.mms| && va < VA_LIMIT && l <= 3
    requires sys'.mms[t].pgd == sys.mms[t].pgd && Wrote(sys.ph.mem, sys'.ph.mem, f, i, e)
    requires AboveElsewhere(sys, t, va, f)
    ensures OnWay(sys', t, va, l) == OnWay(sys, t, va, l)
    decreases l
  {
    if l > 0 {
      WayKept(sys, sys', t, va, f, i, e, l - 1);
      OnWayStep(sys, t, va, l - 1);
      OnWayStep(sys', t, va, l - 1);
    }
  }

  /** The tables for a mapped address are found and nothing is built. */
  lemma MappedTables(mms: seq<MmStruct>, t: nat, va: nat, ph: Phys, role: seq<Role>)
    requires t < |mms| && va < VA_LIMIT && InvFor(Sys(ph, mms), role, t, {va}) && OnWay(Sys(ph, mms), t, va, 4) != 0
    ensures mms[t].Wf() && InPool(mms[t].pgd)
    ensures Tables(ph, mms[t], va) == Progress(ph, mms[t], OnWay(Sys(ph, mms), t, va, 3), Mapped)
    ensures Ready(mms, t, va, Tables(ph, mms[t], va), role, 3)
  {
    var sys := Sys(ph, mms);
    PgdInPool(sys, role, t, t, {va});
    WayComplete(sys, t, va, 0);
    WayComplete(sys, t, va, 1);
    WayComplete(sys, t, va, 2);
    WayComplete(sys, t, va, 3);
    var s0 := EnsureRoot(ph, mms[t]);
    SysOfSame(mms, t, s0);
    DescendFound(mms, t, va, s0, role, 0);
    var s1 := Descend(s0, Shift(0), va);
    SysOfSame(mms, t, s1);
    DescendFound(mms, t, va, s1, role, 1);
    var s2 := Descend(s1, Shift(1), va);
    SysOfSame(mms, t, s2);
    DescendFound(mms, t, va, s2, role, 2);
    assert DescendFrom(s0, 0, va) == DescendFrom(s1, 1, va) == DescendFrom(s2, 2, va) == Descend(s2, Shift(2), va);
  }

  lemma RemapMaps(mms: seq<MmStruct>, t: nat, va: nat, ph: Phys, role: seq<Role>, page: nat)
    requires t < |mms| && va < VA_LIMIT && InvFor(Sys(ph, mms), role, t, {va})
    requires InPool(page) && OnWay(Sys(ph, mms), t, va, 4) != 0
    ensures mms[t].Wf() && InPool(mms[t].pgd)
    ensures var r := MapPage(ph, mms[t], va, page);
      && (r.outcome == Mapped <==> mms[t].userPagesCount < MAX_PROCESS_PAGES)
      && (r.outcome == Mapped ==>
            Walk(r.ph.mem, r.mm.pgd, va) == page && r.mm.Users() == mms[t].Users() + [UserPage(page, va)])
  {
    MappedTables(mms, t, va, ph, role);
    MapPageIsTablesThenLeaf(ph, mms[t], va, page);
    SysOfSame(mms, t, Tables(ph, mms[t], va));
    RemappedLeaf(mms, t, va, Tables(ph, mms[t], va), role, page);
  }

  lemma RemappedLeaf(mms: seq<MmStruct>, t: nat, va: nat, s: Progress, role: seq<Role>, page: nat)
    requires Ready(mms, t, va, s, role, 3) && InPool(page) && OnWay(SysOf(mms, t, s), t, va, 4) != 0
    ensures var r := MapLeaf(s, va, page);
      && (r.outcome == Mapped <==> s.mm.userPagesCount < MAX_PROCESS_PAGES)
      && (r.outcome == Mapped ==>
            Walk(r.ph.mem, r.mm.pgd, va) == page && r.mm.Users() == s.mm.Users() + [UserPage(page, va)])
  {
    LeafWrites(s, va, page);
    if MapLeaf(s, va, page).outcome == Mapped {
      RemappedWalk(mms, t, va, s, role, page);
    }
  }

  /** `map_page` on a mapped address fails only for want of a list slot; otherwise the walk
      yields the new page, and the list holds the old pair beside the new one. */
  lemma RemapBreaksAgreement(mms: seq<MmStruct>, t: nat, va: nat, ph: Phys, role: seq<Role>, page: nat)
    requires t < |mms| && va < VA_LIMIT && va % 4096 == 0 && InvFor(Sys(ph, mms), role, t, {})
    requires InPool(page) && role[FrameOf(page)] == Held && OnWay(Sys(ph, mms), t, va, 4) != 0
    ensures mms[t].Wf() && InPool(mms[t].pgd)
    ensures var r := MapPage(ph, mms[t], va, page); var before := Walk(ph.mem, mms[t].pgd, va);
      && (r.outcome == Mapped <==> mms[t].userPagesCount < MAX_PROCESS_PAGES)
      && (r.outcome == Mapped ==>
            && Walk(r.ph.mem, r.mm.pgd, va) == page && before != page && before != 0
            && UserPage(before, va) in r.mm.Users() && UserPage(page, va) in r.mm.Users())
  {
    var sys := Sys(ph, mms);
    MappedPage(sys, role, t, va);
    OldPairStays(sys, role, t, va);
    InvWiden(sys, role, t, {va});
    RemapMaps(mms, t, va, ph, role, page);
  }

  lemma RemappedWalk(mms: seq<MmStruct>, t: nat, va: nat, s: Progress, role: seq<Role>, page: nat)
    requires Ready(mms, t, va, s, role, 3) && InPool(page)
    requires OnWay(SysOf(mms, t, s), t, va, 4) != 0 && MapLeaf(s, va, page).outcome == Mapped
    ensures Walk(MapLeaf(s, va, page).ph.mem, MapLeaf(s, va, page).mm.pgd, va) == page
  {
    var sys, r := SysOf(mms, t, s), MapLeaf(s, va, page);
    var sys' := SysOf(mms, t, r);
    LeafWrites(s, va, page);
    ReadyEntry(mms, t, va, s, role, 3);
    LastTableApart(sys, role, t, va, FrameOf(s.table));
    WayKept(sys, sys', t, va, FrameOf(s.table), Slot(va, 3), page + Flags(3), 3);
    WalkEnds(sys', t, va, s.table, page);
  }

  lemma WalkEnds(sys: Sys, t: nat, va: nat, table: nat, page: nat)
    requires sys.ph.Wf() && t < |sys.mms| && va < VA_LIMIT && InPool(page)
    requires InPool(table) && OnWay(sys, t, va, 3) == table
    requires sys.ph.mem[FrameOf(table)][Slot(va, 3)] == page + Flags(3)
    ensures Walk(sys.ph.mem, sys.mms[t].pgd, va) == page
  {
    OnWayStep(sys, t, va, 3);
    TargetOfEncoding(3, page);
    WalkIsLookup(sys.ph.mem, sys.mms[t].pgd, va);
  }

  lemma MappedPage(sys: Sys, role: seq<Role>, t: nat, va: nat)
    requires InvFor(sys, role, t, {}) && t < |sys.mms| && va < VA_LIMIT && OnWay(sys, t, va, 4) != 0
    ensures var before := Walk(sys.ph.mem, sys.mms[t].pgd, va);
      before == OnWay(sys, t, va, 4) && InPool(before) && role[FrameOf(before)] == Node(t, 4, Prefix(va, 4))
  {
    PrefixBound(va, 4);
    WalkIsLookup(sys.ph.mem, sys.mms[t].pgd, va);
    NodeOwned(sys, role, t, 4, Prefix(va, 4), {});
  }

  lemma OldPairStays(sys: Sys, role: seq<Role>, t: nat, va: nat)
    requires InvFor(sys, role, t, {}) && t < |sys.mms| && va < VA_LIMIT && va % 4096 == 0 && OnWay(sys, t, va, 4) != 0
    ensures sys.mms[t].Wf()
    ensures UserPage(Walk(sys.ph.mem, sys.mms[t].pgd, va), va) in sys.mms[t].Users()
  {
    var before := Walk(sys.ph.mem, sys.mms[t].pgd, va);
    MappedPage(sys, role, t, va);
    WholePage(va);
    ShadowListIsTranslation(sys, role, t, va, before);
  }

  lemma WholePage(va: nat)
    requires va % 4096 == 0
    ensures va / 4096 * 4096 == va
  {
  }

  /** The shadow list of task `t` agrees with its page tables. */
  ghost predicate TaskAgrees(sys: Sys, t: nat)
    requires sys.ph.Wf() && t < |sys.mms|
  {
    forall va: nat, page: nat :: va < VA_LIMIT && page != 0 ==> EntryAgrees(sys, t, va, page)
  }

  /** A successful `allocate_user_page` keeps the shadow list in agreement with the page
      tables if and only if the address was unmapped. */
  lemma AgreementIffUnmapped(sys: Sys, role: seq<Role>, t: nat, va: nat)
    requires InvFor(sys, role, t, {}) && t < |sys.mms| && va < VA_LIMIT && va % 4096 == 0
    ensures sys.mms[t].Wf() && (sys.mms[t].pgd == 0 || InPool(sys.mms[t].pgd))
    ensures var (ph', mm', a) := AllocateUserPage(sys.ph, sys.mms[t], va);
      a.Got? ==> (TaskAgrees(Sys(ph', sys.mms[t := mm']), t) <==> WalkOf(sys, t, va) == 0)
  {
    PgdInPool(sys, role, t, t, {});
    WalkIsLookup(sys.ph.mem, sys.mms[t].pgd, va);
    var (ph', mm', a) := AllocateUserPage(sys.ph, sys.mms[t], va);
    var sys' := Sys(ph', sys.mms[t := mm']);
    if a.Got? && WalkOf(sys, t, va) == 0 {
      var role' := AllocateUserPageCorrect(sys, role, t, va);
      InvAgrees(sys', role', t);
    } else if a.Got? {
      var role1 := TakeKeeps(sys, role, t, {});
      var (ph1, page) := GetFreePage(sys.ph);
      var sys1 := Sys(ph1, sys.mms);
      TookSameWay(sys, role, sys1, page, t, va);
      RemapBreaksAgreement(sys.mms, t, va, ph1, role1, page);
      var before := Walk(ph1.mem, sys.mms[t].pgd, va);
      WholePage(va);
      assert !EntryAgrees(sys', t, va, before);
    }
  }

  lemma InvAgrees(sys: Sys, role: seq<Role>, t: nat)
    requires InvFor(sys, role, t, {}) && t < |sys.mms|
    ensures TaskAgrees(sys, t)
  {
    forall va: nat, page: nat | va < VA_LIMIT && page != 0
      ensures EntryAgrees(sys, t, va, page)
    {
      ShadowListIsTranslation(sys, role, t, va, page);
    }
  }
}
