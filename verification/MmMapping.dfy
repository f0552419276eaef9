/** Mapping one page: `map_page` installs exactly the requested translation, and does so
    exactly when pages and list slots suffice for the missing tables. */
module MmMapping {
  import opened PageTables
  import opened MmSpec
  import opened MmInvariant
  import opened MmOwnership
  import opened Bits

  /** The level-`l` node on the way to `va`; 0 when it is missing. */
  ghost function OnWay(sys: Sys, t: nat, va: nat, l: nat): nat
    requires sys.ph.Wf() && t < |sys.mms| && va < VA_LIMIT && l <= 4
  {
    PrefixBound(va, l);
    At(sys.ph.mem, sys.mms, t, l, Prefix(va, l))
  }

  ghost function MissingAt(sys: Sys, t: nat, va: nat, l: nat): nat
    requires sys.ph.Wf() && t < |sys.mms| && va < VA_LIMIT && l <= 4
  {
    if OnWay(sys, t, va, l) == 0 then 1 else 0
  }

  /** How many of the four tables that translate `va` the task does not have. */
  ghost function Missing(sys: Sys, t: nat, va: nat): nat
    requires sys.ph.Wf() && t < |sys.mms| && va < VA_LIMIT
  {
    MissingAt(sys, t, va, 0) + MissingAt(sys, t, va, 1) + MissingAt(sys, t, va, 2) + MissingAt(sys, t, va, 3)
  }

  ghost function SysOf(mms: seq<MmStruct>, t: nat, s: Progress): Sys
    requires t < |mms|
  {
    Sys(s.ph, mms[t := s.mm])
  }

  /** A user page or a page handed out: nothing in table management may touch its bytes. */
  ghost predicate Precious(r: Role) {
    r == Held || (r.Node? && r.level == 4)
  }

  ghost predicate SameLeaves(sys: Sys, sys': Sys) {
    && sys.ph.Wf() && sys'.ph.Wf() && |sys'.mms| == |sys.mms|
    && forall u: nat, p: nat :: IsNode(sys.mms, u, 4, p)
         ==> At(sys'.ph.mem, sys'.mms, u, 4, p) == At(sys.ph.mem, sys.mms, u, 4, p)
  }

  /** Free pages may have become tables of task `t`; everything else is as before. */
  ghost predicate OnlyTablesAdded(sys: Sys, role: seq<Role>, sys': Sys, role': seq<Role>, t: nat) {
    && sys.ph.Wf() && sys'.ph.Wf() && |role| == PAGING_PAGES && |role'| == PAGING_PAGES
    && (forall f: nat :: f < PAGING_PAGES ==> role'[f] == role[f] || (role[f] == Free && IsTable(role'[f], t)))
    && (forall f: nat :: f < PAGING_PAGES && Precious(role[f]) ==> sys'.ph.mem[f] == sys.ph.mem[f])
  }

  ghost predicate Accounts(sys: Sys, sys': Sys, t: nat, va: nat)
    requires sys.ph.Wf() && sys'.ph.Wf() && t < |sys.mms| == |sys'.mms| && va < VA_LIMIT
  {
    && FreeCount(sys'.ph) + sys'.mms[t].kernelPagesCount == FreeCount(sys.ph) + sys.mms[t].kernelPagesCount
    && Missing(sys', t, va) + sys'.mms[t].kernelPagesCount == Missing(sys, t, va) + sys.mms[t].kernelPagesCount
  }

  /** `sys'` is `sys` with some of the missing tables for `va` built. */
  ghost predicate Advance(sys: Sys, role: seq<Role>, sys': Sys, role': seq<Role>, t: nat, va: nat) {
    && sys.ph.Wf() && sys'.ph.Wf() && t < |sys.mms| == |sys'.mms| && va < VA_LIMIT
    && sys.mms[t].Wf() && sys'.mms[t].Wf()
    && (forall u: nat :: u < |sys.mms| && u != t ==> sys'.mms[u] == sys.mms[u])
    && sys'.mms[t].userPages == sys.mms[t].userPages && sys'.mms[t].userPagesCount == sys.mms[t].userPagesCount
    && SameLeaves(sys, sys')
    && OnlyTablesAdded(sys, role, sys', role', t)
    && Accounts(sys, sys', t, va)
  }

  lemma AdvanceTrans(sys: Sys, role: seq<Role>, sys': Sys, role': seq<Role>, sys'': Sys, role'': seq<Role>,
      t: nat, va: nat)
    requires Advance(sys, role, sys', role', t, va) && Advance(sys', role', sys'', role'', t, va)
    ensures Advance(sys, role, sys'', role'', t, va)
  {
    forall u: nat, p: nat | IsNode(sys.mms, u, 4, p)
      ensures At(sys''.ph.mem, sys''.mms, u, 4, p) == At(sys.ph.mem, sys.mms, u, 4, p)
    {
      assert IsNode(sys'.mms, u, 4, p);
    }
  }

  /** Building is under way: `s.table` is the level-`l` table for `va`. */
  ghost predicate Ready(mms: seq<MmStruct>, t: nat, va: nat, s: Progress, role: seq<Role>, l: nat) {
    && t < |mms| && va < VA_LIMIT && l <= 3 && s.Wf() && s.outcome == Mapped
    && InvFor(SysOf(mms, t, s), role, t, {va})
    && s.table == OnWay(SysOf(mms, t, s), t, va, l)
  }

  lemma OnWayStep(sys: Sys, t: nat, va: nat, l: nat)
    requires sys.ph.Wf() && t < |sys.mms| && va < VA_LIMIT && l <= 3
    ensures OnWay(sys, t, va, l + 1) == Below(sys.ph.mem, OnWay(sys, t, va, l), l, Slot(va, l))
  {
  }

  /** `table` is the level-`l` table of `t` for `va`; its entry is 0 exactly when the next
      node is missing, and otherwise masks to that node. */
  ghost predicate Decoded(sys: Sys, role: seq<Role>, t: nat, va: nat, l: nat, table: nat)
    requires sys.ph.Wf() && |role| == PAGING_PAGES && t < |sys.mms| && va < VA_LIMIT && l <= 3
  {
    && table == OnWay(sys, t, va, l)
    && InPool(table) && role[FrameOf(table)] == Node(t, l, Prefix(va, l))
    && EntryLeads(l, sys.ph.mem[FrameOf(table)][Slot(va, l)], OnWay(sys, t, va, l + 1))
  }

  ghost predicate EntryLeads(l: nat, e: Word, next: nat)
    requires l <= 3
  {
    if e == 0 then next == 0 else InPool(next) && e == next + Flags(l) && And(e, PAGE_MASK) == next
  }

  lemma EntryDecoded(sys: Sys, role: seq<Role>, t: nat, va: nat, l: nat, extra: set<nat>)
    requires InvFor(sys, role, t, extra) && t < |sys.mms| && va < VA_LIMIT && l <= 3
    requires OnWay(sys, t, va, l) != 0
    ensures Decoded(sys, role, t, va, l, OnWay(sys, t, va, l))
  {
    PrefixBound(va, l);
    NodeOwned(sys, role, t, l, Prefix(va, l), extra);
    OnWayStep(sys, t, va, l);
    EntryValue(l, sys.ph.mem[FrameOf(OnWay(sys, t, va, l))][Slot(va, l)]);
  }

  lemma NodeOwned(sys: Sys, role: seq<Role>, t: nat, l: nat, p: nat, extra: set<nat>)
    requires InvFor(sys, role, t, extra) && IsNode(sys.mms, t, l, p)
    requires At(sys.ph.mem, sys.mms, t, l, p) != 0
    ensures InPool(At(sys.ph.mem, sys.mms, t, l, p))
    ensures role[FrameOf(At(sys.ph.mem, sys.mms, t, l, p))] == Node(t, l, p)
    ensures l <= 3 ==> forall s: nat :: s < 512 ==> EntryOk(l, sys.ph.mem[FrameOf(At(sys.ph.mem, sys.mms, t, l, p))][s])
  {
    var a := At(sys.ph.mem, sys.mms, t, l, p);
    assert Owned(role, Node(t, l, p), a);
    assert EntriesOk(role[FrameOf(a)], sys.ph.mem[FrameOf(a)]);
  }

  lemma EntryValue(l: nat, e: Word)
    requires l <= 3 && EntryOk(l, e)
    ensures EntryLeads(l, e, Target(l, e))
  {
    if e == 0 {
      TargetOfZero(l);
    } else {
      TargetOfEncoding(l, e - Flags(l));
      MaskDropsFlags(e);
    }
  }

  lemma MissingStep(sys: Sys, sys': Sys, t: nat, va: nat, k: nat, g: nat)
    requires sys.ph.Wf() && sys'.ph.Wf() && t < |sys.mms| && va < VA_LIMIT && k <= 3 && g < PAGING_PAGES
    requires LookupsPlus(sys.ph.mem, sys.mms, sys'.ph.mem, sys'.mms, Node(t, k, Prefix(va, k)), FrameAddr(g))
    ensures Missing(sys', t, va) + 1 == Missing(sys, t, va)
    ensures OnWay(sys', t, va, k) == FrameAddr(g)
  {
    forall l: nat | l <= 3
      ensures OnWay(sys', t, va, l) == if l == k then FrameAddr(g) else OnWay(sys, t, va, l)
      ensures l == k ==> OnWay(sys, t, va, l) == 0
    {
      PrefixBound(va, l);
      assert LookupPlus(sys.ph.mem, sys.mms, sys'.ph.mem, sys'.mms,
                        Node(t, k, Prefix(va, k)), FrameAddr(g), t, l, Prefix(va, l));
    }
  }

  /** A page `g` just taken (`sys1`), then made the level-`k` table of `t` for `va` (`sys2`). */
  ghost predicate TableAdded(
      sys: Sys, role: seq<Role>, sys1: Sys, sys2: Sys, t: nat, va: nat, k: nat, g: nat)
  {
    && InvFor(sys, role, t, {va}) && t < |sys.mms| && va < VA_LIMIT && k <= 3 && g < PAGING_PAGES && role[g] == Free
    && sys1.mms == sys.mms && InvFor(sys1, role[g := Held], t, {va})
    && LookupsPlus(sys.ph.mem, sys.mms, sys1.ph.mem, sys.mms, Free, 0)
    && FreeCount(sys1.ph) == FreeCount(sys.ph) - 1
    && sys2.ph.Wf() && sys2.ph.memMap == sys1.ph.memMap
    && |sys2.mms| == |sys.mms| && sys2.mms[t].Wf()
    && (forall u: nat :: u < |sys.mms| && u != t ==> sys2.mms[u] == sys.mms[u])
    && sys2.mms[t].userPages == sys.mms[t].userPages && sys2.mms[t].userPagesCount == sys.mms[t].userPagesCount
    && sys.mms[t].Wf() && sys2.mms[t].kernelPagesCount == sys.mms[t].kernelPagesCount + 1
    && sys2.mms[t].Tables() == sys.mms[t].Tables() + [FrameAddr(g)]
    && Trees(sys2.ph.mem, sys2.mms, role[g := Node(t, k, Prefix(va, k))])
    && LookupsPlus(sys1.ph.mem, sys.mms, sys2.ph.mem, sys2.mms, Node(t, k, Prefix(va, k)), FrameAddr(g))
    && (forall f: nat :: f < PAGING_PAGES && Precious(role[f]) ==> sys2.ph.mem[f] == sys.ph.mem[f])
  }

  lemma TableAddedInv(sys: Sys, role: seq<Role>, sys1: Sys, sys2: Sys, t: nat, va: nat, k: nat, g: nat)
    requires TableAdded(sys, role, sys1, sys2, t, va, k, g)
    ensures InvFor(sys2, role[g := Node(t, k, Prefix(va, k))], t, {va})
  {
    var c := Node(t, k, Prefix(va, k));
    PrefixBound(va, k);
    assert role[g := Held][g := c] == role[g := c];
    assert va in Vas(sys2.mms[t].Users()) + {va};
    AddNode(sys1, sys2, role[g := Held], t, g, c, {va}, {va});
  }

  lemma TableAddedLookups(sys: Sys, role: seq<Role>, sys1: Sys, sys2: Sys, t: nat, va: nat, k: nat, g: nat)
    requires TableAdded(sys, role, sys1, sys2, t, va, k, g)
    ensures LookupsPlus(sys.ph.mem, sys.mms, sys2.ph.mem, sys2.mms, Node(t, k, Prefix(va, k)), FrameAddr(g))
  {
    var c := Node(t, k, Prefix(va, k));
    forall u: nat, l: nat, p: nat | IsNode(sys.mms, u, l, p)
      ensures LookupPlus(sys.ph.mem, sys.mms, sys2.ph.mem, sys2.mms, c, FrameAddr(g), u, l, p)
    {
      assert LookupPlus(sys.ph.mem, sys.mms, sys1.ph.mem, sys.mms, Free, 0, u, l, p);
      assert LookupPlus(sys1.ph.mem, sys.mms, sys2.ph.mem, sys2.mms, c, FrameAddr(g), u, l, p);
    }
  }

  lemma TableAddedAdvance(sys: Sys, role: seq<Role>, sys1: Sys, sys2: Sys, t: nat, va: nat, k: nat, g: nat)
    requires TableAdded(sys, role, sys1, sys2, t, va, k, g)
    ensures Advance(sys, role, sys2, role[g := Node(t, k, Prefix(va, k))], t, va)
    ensures OnWay(sys2, t, va, k) == FrameAddr(g)
  {
    var c := Node(t, k, Prefix(va, k));
    TableAddedLookups(sys, role, sys1, sys2, t, va, k, g);
    MissingStep(sys, sys2, t, va, k, g);
    TableMovesNoLeaf(sys, sys2, c, g);
    OneTableAdded(sys, role, sys2, t, g, c);
    assert FreeSet(sys2.ph.memMap) == FreeSet(sys1.ph.memMap);
  }

  lemma OneTableAdded(sys: Sys, role: seq<Role>, sys': Sys, t: nat, g: nat, c: Role)
    requires sys.ph.Wf() && sys'.ph.Wf() && |role| == PAGING_PAGES && g < PAGING_PAGES
    requires role[g] == Free && IsTable(c, t)
    requires forall f: nat :: f < PAGING_PAGES && Precious(role[f]) ==> sys'.ph.mem[f] == sys.ph.mem[f]
    ensures OnlyTablesAdded(sys, role, sys', role[g := c], t)
  {
  }

  lemma TableMovesNoLeaf(sys: Sys, sys': Sys, c: Role, g: nat)
    requires sys.ph.Wf() && sys'.ph.Wf() && g < PAGING_PAGES && c.Node? && c.level <= 3
    requires LookupsPlus(sys.ph.mem, sys.mms, sys'.ph.mem, sys'.mms, c, FrameAddr(g))
    ensures SameLeaves(sys, sys')
  {
  }

  // ---- The four steps of map_page ---------------------------------------------------

  /** The guard of every table allocation: a free page and a slot of `kernel_pages`. */
  ghost predicate CanAddTable(ph: Phys, mm: MmStruct) {
    FreeCount(ph) > 0 && mm.kernelPagesCount + 1 < MAX_PROCESS_PAGES
  }

  /** `r` is where a step from `s` stops: at the guard, with no page left unless the list is
      full. */
  ghost predicate Stopped(s: Progress, r: Progress) {
    && s.Wf() && r.Wf() && r.outcome != Mapped && r.mm.userPagesCount == s.mm.userPagesCount
    && (s.mm.kernelPagesCount + 1 < MAX_PROCESS_PAGES ==> FreeCount(r.ph) == 0)
  }

  lemma RecordStops(ph: Phys, mm: MmStruct, a: nat)
    requires ph.Wf() && mm.Wf() && (a == 0 || InPool(a)) && Record(ph, mm, a).outcome != Mapped
    requires a == 0 ==> FreeCount(ph) == 0
    ensures var r := Record(ph, mm, a);
      && r.mm.userPagesCount == mm.userPagesCount
      && (mm.kernelPagesCount + 1 < MAX_PROCESS_PAGES ==> FreeCount(r.ph) == 0)
  {
  }

  lemma RecordAppends(ph: Phys, mm: MmStruct, a: nat)
    requires ph.Wf() && mm.Wf() && InPool(a)
    ensures var r := Record(ph, mm, a);
      && r.ph == ph && r.table == a
      && (r.outcome == Mapped <==> mm.kernelPagesCount + 1 < MAX_PROCESS_PAGES)
      && (r.outcome == Mapped ==>
            && r.mm.pgd == mm.pgd && r.mm.Tables() == mm.Tables() + [a]
            && r.mm.userPages == mm.userPages && r.mm.userPagesCount == mm.userPagesCount
            && r.mm.kernelPagesCount == mm.kernelPagesCount + 1)
  {
  }

  lemma SysOfSame(mms: seq<MmStruct>, t: nat, s: Progress)
    requires t < |mms| && s.mm == mms[t]
    ensures SysOf(mms, t, s) == Sys(s.ph, mms)
  {
  }

  lemma Renamed(role: seq<Role>, g: nat, r: Role, r': Role)
    requires g < |role|
    ensures role[g := r][g := r'] == role[g := r']
  {
  }

  lemma RootAdded(mms: seq<MmStruct>, t: nat, va: nat, ph: Phys, role: seq<Role>, ph1: Phys, a: nat, r: Progress)
    requires t < |mms| && va < VA_LIMIT && InvFor(Sys(ph, mms), role, t, {va}) && mms[t].Wf() && mms[t].pgd == 0
    requires GetFreePage(ph) == (ph1, a) && a != 0 && r == EnsureRoot(ph, mms[t]) && r.outcome == Mapped
    ensures InPool(a) && TableAdded(Sys(ph, mms), role, Sys(ph1, mms), SysOf(mms, t, r), t, va, 0, FrameOf(a))
  {
    var mm, g := mms[t], FrameOf(a);
    var role1 := TakeKeeps(Sys(ph, mms), role, t, {va});
    RecordAppends(ph1, mm.(pgd := a), a);
    Root(ph1.mem, mms, SysOf(mms, t, r).mms, role1, t, g);
    Renamed(role, g, Held, Node(t, 0, Prefix(va, 0)));
  }

  /** The PGD that has just been taken and recorded is one more node. */
  lemma RootBuilt(mms: seq<MmStruct>, t: nat, va: nat, ph: Phys, role: seq<Role>, ph1: Phys, a: nat, r: Progress)
    requires t < |mms| && va < VA_LIMIT && InvFor(Sys(ph, mms), role, t, {va}) && mms[t].Wf() && mms[t].pgd == 0
    requires GetFreePage(ph) == (ph1, a) && a != 0 && r == EnsureRoot(ph, mms[t]) && r.outcome == Mapped
    ensures InPool(a)
    ensures var role' := role[FrameOf(a) := Node(t, 0, Prefix(va, 0))];
      Ready(mms, t, va, r, role', 0) && Advance(Sys(ph, mms), role, SysOf(mms, t, r), role', t, va)
  {
    RootAdded(mms, t, va, ph, role, ph1, a, r);
    RecordAppends(ph1, mms[t].(pgd := a), a);
    TableAddedAdvance(Sys(ph, mms), role, Sys(ph1, mms), SysOf(mms, t, r), t, va, 0, FrameOf(a));
    TableAddedInv(Sys(ph, mms), role, Sys(ph1, mms), SysOf(mms, t, r), t, va, 0, FrameOf(a));
  }

  lemma RootStep(mms: seq<MmStruct>, t: nat, va: nat, ph: Phys, role: seq<Role>) returns (role': seq<Role>)
    requires t < |mms| && va < VA_LIMIT && InvFor(Sys(ph, mms), role, t, {va})
    ensures mms[t].Wf() && (mms[t].pgd == 0 || InPool(mms[t].pgd))
    ensures var r := EnsureRoot(ph, mms[t]);
      && (r.outcome == Mapped <==> MissingAt(Sys(ph, mms), t, va, 0) == 0 || CanAddTable(ph, mms[t]))
      && (r.outcome != Mapped ==> Stopped(Progress(ph, mms[t], 0, NullTable), r))
      && (r.outcome == Mapped ==>
            Ready(mms, t, va, r, role', 0) && Advance(Sys(ph, mms), role, SysOf(mms, t, r), role', t, va))
  {
    var sys, mm := Sys(ph, mms), mms[t];
    PgdInPool(sys, role, t, t, {va});
    role' := role;
    if mm.pgd != 0 {
      SysOfSame(mms, t, EnsureRoot(ph, mm));
    } else {
      var role1 := TakeKeeps(sys, role, t, {va});
      var (ph1, a) := GetFreePage(ph);
      var r := EnsureRoot(ph, mm);
      if r.outcome != Mapped {
        RecordStops(ph1, mm.(pgd := a), a);
      }
      if a != 0 {
        RecordAppends(ph1, mm.(pgd := a), a);
        if r.outcome == Mapped {
          role' := role[FrameOf(a) := Node(t, 0, Prefix(va, 0))];
          RootBuilt(mms, t, va, ph, role, ph1, a, r);
        }
      }
    }
  }

  lemma WriteWordWrote(ph: Phys, table: nat, i: nat, e: Word)
    requires ph.Wf() && InPool(table) && i < 512
    ensures Wrote(ph.mem, WriteWord(ph, table, i, e).mem, FrameOf(table), i, e)
    ensures WriteWord(ph, table, i, e).memMap == ph.memMap
  {
  }

  /** The two cases of `map_table`, with the slot in place of the shift and mask. */
  lemma DescendCases(s: Progress, l: nat, va: nat)
    requires s.Wf() && s.outcome == Mapped && l <= 2
    ensures var e := s.ph.mem[FrameOf(s.table)][Slot(va, l)];
      var (ph1, next) := GetFreePage(s.ph);
      && (e == 0 ==>
            Descend(s, Shift(l), va)
            == Record(WriteWord(ph1, s.table, Slot(va, l), Descriptor(next, MM_TYPE_PAGE_TABLE)), s.mm, next))
      && (e != 0 && InPool(And(e, PAGE_MASK)) ==>
            Descend(s, Shift(l), va) == Progress(s.ph, s.mm, And(e, PAGE_MASK), Mapped))
  {
    IndexIsSlot(va, l);
  }

  /** With no page left `map_table` stores 3 in an empty entry: a descriptor that the MMU
      follows, to physical page 0. It hands out 0 as the new table. */
  lemma ExhaustedTable(ph: Phys, table: nat, l: nat, va: nat)
    requires ph.Wf() && InPool(table) && l <= 2 && GetFreePage(ph).1 == 0
    requires ph.mem[FrameOf(table)][Slot(va, l)] == 0
    ensures var (ph', next, isNew) := MapTable(ph, table, Shift(l), va);
      && next == 0 && isNew
      && ph'.mem[FrameOf(table)][Slot(va, l)] == 3
      && DescriptorValid(l, 3) && OutputAddress(3) == 0
  {
    IndexIsSlot(va, l);
  }

  lemma ReadyEntry(mms: seq<MmStruct>, t: nat, va: nat, s: Progress, role: seq<Role>, l: nat)
    requires Ready(mms, t, va, s, role, l)
    ensures Decoded(SysOf(mms, t, s), role, t, va, l, s.table)
  {
    ReadyNonzero(s);
    EntryDecoded(SysOf(mms, t, s), role, t, va, l, {va});
  }

  lemma ReadyNonzero(s: Progress)
    requires s.Wf() && s.outcome == Mapped
    ensures s.table != 0
  {
  }

  lemma DescendFound(mms: seq<MmStruct>, t: nat, va: nat, s: Progress, role: seq<Role>, l: nat)
    requires Ready(mms, t, va, s, role, l) && l <= 2
    requires MissingAt(SysOf(mms, t, s), t, va, l + 1) == 0
    ensures Descend(s, Shift(l), va) == Progress(s.ph, s.mm, OnWay(SysOf(mms, t, s), t, va, l + 1), Mapped)
    ensures Ready(mms, t, va, Descend(s, Shift(l), va), role, l + 1)
  {
    ReadyEntry(mms, t, va, s, role, l);
    DescendCases(s, l, va);
    var r := Descend(s, Shift(l), va);
    assert SysOf(mms, t, r) == SysOf(mms, t, s);
  }

  lemma DescendNew(mms: seq<MmStruct>, t: nat, va: nat, s: Progress, role: seq<Role>, l: nat)
      returns (role': seq<Role>)
    requires Ready(mms, t, va, s, role, l) && l <= 2
    requires MissingAt(SysOf(mms, t, s), t, va, l + 1) == 1
    ensures var r := Descend(s, Shift(l), va);
      && (r.outcome == Mapped <==> CanAddTable(s.ph, s.mm))
      && (r.outcome != Mapped ==> Stopped(s, r))
      && (r.outcome == Mapped ==>
            Ready(mms, t, va, r, role', l + 1) && Advance(SysOf(mms, t, s), role, SysOf(mms, t, r), role', t, va))
  {
    var sys, r := SysOf(mms, t, s), Descend(s, Shift(l), va);
    ReadyEntry(mms, t, va, s, role, l);
    DescendCases(s, l, va);
    role' := role;
    var role1 := TakeKeeps(sys, role, t, {va});
    var (ph1, a) := GetFreePage(s.ph);
    var ph2 := WriteWord(ph1, s.table, Slot(va, l), Descriptor(a, MM_TYPE_PAGE_TABLE));
    if r.outcome != Mapped {
      RecordStops(ph2, s.mm, a);
    }
    if a != 0 {
      RecordAppends(ph2, s.mm, a);
      if r.outcome == Mapped {
        role' := role[FrameOf(a) := Node(t, l + 1, Prefix(va, l + 1))];
        DescendBuilt(mms, t, va, s, role, l);
      }
    }
  }

  lemma DescendBuilt(mms: seq<MmStruct>, t: nat, va: nat, s: Progress, role: seq<Role>, l: nat)
    requires Ready(mms, t, va, s, role, l) && l <= 2
    requires Decoded(SysOf(mms, t, s), role, t, va, l, s.table)
    requires s.ph.mem[FrameOf(s.table)][Slot(va, l)] == 0 && GetFreePage(s.ph).1 != 0
    requires s.mm.kernelPagesCount + 1 < MAX_PROCESS_PAGES
    ensures var (r, a) := (Descend(s, Shift(l), va), GetFreePage(s.ph).1);
      && InPool(a)
      && var role' := role[FrameOf(a) := Node(t, l + 1, Prefix(va, l + 1))];
      Ready(mms, t, va, r, role', l + 1) && Advance(SysOf(mms, t, s), role, SysOf(mms, t, r), role', t, va)
  {
    var sys, r := SysOf(mms, t, s), Descend(s, Shift(l), va);
    var role1 := TakeKeeps(sys, role, t, {va});
    var (ph1, a) := GetFreePage(s.ph);
    var f, g := FrameOf(s.table), FrameOf(a);
    var sys1, sys2 := Sys(ph1, sys.mms), SysOf(mms, t, r);
    BuiltTable(s, va, l);
    NewTableKeeps(sys, role, sys1, sys2, t, va, l, f, g);
  }

  lemma NewTableKeeps(sys: Sys, role: seq<Role>, sys1: Sys, sys2: Sys, t: nat, va: nat, l: nat, f: nat, g: nat)
    requires NewTable(sys, role, sys1, sys2, t, va, l, f, g)
    requires InvFor(sys, role, t, {va}) && InvFor(sys1, role[g := Held], t, {va})
    requires LookupsPlus(sys.ph.mem, sys.mms, sys1.ph.mem, sys.mms, Free, 0)
    ensures InvFor(sys2, role[g := Node(t, l + 1, Prefix(va, l + 1))], t, {va})
    ensures Advance(sys, role, sys2, role[g := Node(t, l + 1, Prefix(va, l + 1))], t, va)
    ensures OnWay(sys2, t, va, l + 1) == FrameAddr(g)
  {
    NewTableIsAdded(sys, role, sys1, sys2, t, va, l, f, g);
    TableAddedAdvance(sys, role, sys1, sys2, t, va, l + 1, g);
    TableAddedInv(sys, role, sys1, sys2, t, va, l + 1, g);
  }

  /** The words and list slots that change when `map_table` makes a new table. */
  lemma BuiltTable(s: Progress, va: nat, l: nat)
    requires s.Wf() && s.outcome == Mapped && l <= 2
    requires s.ph.mem[FrameOf(s.table)][Slot(va, l)] == 0 && GetFreePage(s.ph).1 != 0
    requires s.mm.kernelPagesCount + 1 < MAX_PROCESS_PAGES
    ensures var (r, ph1, a) := (Descend(s, Shift(l), va), GetFreePage(s.ph).0, GetFreePage(s.ph).1);
      && InPool(a) && r.outcome == Mapped && r.table == a
      && Wrote(ph1.mem, r.ph.mem, FrameOf(s.table), Slot(va, l), FrameAddr(FrameOf(a)) + Flags(l))
      && r.ph.memMap == ph1.memMap
      && Recorded(s.mm, r.mm, a)
  {
    DescendCases(s, l, va);
    var (ph1, a) := GetFreePage(s.ph);
    var e := Descriptor(a, MM_TYPE_PAGE_TABLE);
    RecordAppends(WriteWord(ph1, s.table, Slot(va, l), e), s.mm, a);
    WriteWordWrote(ph1, s.table, Slot(va, l), e);
  }

  ghost predicate Recorded(mm: MmStruct, mm': MmStruct, a: nat) {
    && mm.Wf() && mm'.Wf() && mm'.pgd == mm.pgd && mm'.Tables() == mm.Tables() + [a]
    && mm'.userPages == mm.userPages && mm'.userPagesCount == mm.userPagesCount
    && mm'.kernelPagesCount == mm.kernelPagesCount + 1
  }

  /** `sys1` is `sys` after `get_free_page` gave page `g`; `sys2` has the entry for `va` in
      the level-`l` table, page `f`, pointing at it, and has it recorded. */
  ghost predicate NewTable(sys: Sys, role: seq<Role>, sys1: Sys, sys2: Sys, t: nat, va: nat, l: nat, f: nat, g: nat) {
    && sys.ph.Wf() && sys1.ph.Wf() && sys2.ph.Wf() && t < |sys.mms| && va < VA_LIMIT && l <= 2
    && |role| == PAGING_PAGES
    && f < PAGING_PAGES && g < PAGING_PAGES && role[g] == Free && role[f] == Node(t, l, Prefix(va, l))
    && sys1.mms == sys.mms
    && FreeCount(sys1.ph) == FreeCount(sys.ph) - 1
    && (forall h: nat :: h < PAGING_PAGES && h != g ==> sys1.ph.mem[h] == sys.ph.mem[h])
    && (forall i: nat :: i < 512 ==> sys1.ph.mem[g][i] == 0)
    && sys.ph.mem[f][Slot(va, l)] == 0
    && sys2.ph.memMap == sys1.ph.memMap
    && Wrote(sys1.ph.mem, sys2.ph.mem, f, Slot(va, l), FrameAddr(g) + Flags(l))
    && |sys2.mms| == |sys.mms| && Recorded(sys.mms[t], sys2.mms[t], FrameAddr(g))
    && (forall u: nat :: u < |sys.mms| && u != t ==> sys2.mms[u] == sys.mms[u])
  }

  lemma NewTableLinks(sys: Sys, role: seq<Role>, sys1: Sys, sys2: Sys, t: nat, va: nat, l: nat, f: nat, g: nat)
    requires NewTable(sys, role, sys1, sys2, t, va, l, f, g)
    requires Trees(sys1.ph.mem, sys.mms, role[g := Held])
    ensures var c := Node(t, l + 1, Prefix(va, l + 1));
      Trees(sys2.ph.mem, sys.mms, role[g := c])
      && LookupsPlus(sys1.ph.mem, sys.mms, sys2.ph.mem, sys.mms, c, FrameAddr(g))
  {
    var i, c, role1 := Slot(va, l), Node(t, l + 1, Prefix(va, l + 1)), role[g := Held];
    PrefixStep(va, l);
    assert role1[f] == role[f];
    assert c == Child(role1[f], i);
    assert sys1.ph.mem[f] == sys.ph.mem[f];
    Link(sys1.ph.mem, sys2.ph.mem, sys.mms, role1, f, i, g);
    assert role1[g := c] == role[g := c];
  }

  lemma NewTableIsAdded(sys: Sys, role: seq<Role>, sys1: Sys, sys2: Sys, t: nat, va: nat, l: nat, f: nat, g: nat)
    requires NewTable(sys, role, sys1, sys2, t, va, l, f, g)
    requires InvFor(sys, role, t, {va}) && InvFor(sys1, role[g := Held], t, {va})
    requires LookupsPlus(sys.ph.mem, sys.mms, sys1.ph.mem, sys.mms, Free, 0)
    ensures TableAdded(sys, role, sys1, sys2, t, va, l + 1, g)
  {
    var c := Node(t, l + 1, Prefix(va, l + 1));
    NewTableLinks(sys, role, sys1, sys2, t, va, l, f, g);
    SamePgds(sys2.ph.mem, sys.mms, sys2.mms, role[g := c]);
    SamePgdsPlus(sys1.ph.mem, sys2.ph.mem, sys.mms, sys2.mms, c, FrameAddr(g));
    forall h: nat | h < PAGING_PAGES && Precious(role[h])
      ensures sys2.ph.mem[h] == sys.ph.mem[h]
    {
      assert h != g && h != f;
    }
  }

  /** Lookups depend on an address space only through its base. */
  lemma SamePgds(mem: seq<Page>, mms: seq<MmStruct>, mms': seq<MmStruct>, role: seq<Role>)
    requires Trees(mem, mms, role) && |mms'| == |mms|
    requires forall u: nat :: u < |mms| ==> mms'[u].pgd == mms[u].pgd
    ensures Trees(mem, mms', role)
  {
  }

  lemma SamePgdsPlus(mem: seq<Page>, mem': seq<Page>, mms: seq<MmStruct>, mms': seq<MmStruct>, c: Role, a: nat)
    requires LookupsPlus(mem, mms, mem', mms, c, a) && |mms'| == |mms|
    requires forall u: nat :: u < |mms| ==> mms'[u].pgd == mms[u].pgd
    ensures LookupsPlus(mem, mms, mem', mms', c, a)
  {
  }

  lemma DescendStep(mms: seq<MmStruct>, t: nat, va: nat, s: Progress, role: seq<Role>, l: nat)
      returns (role': seq<Role>)
    requires Ready(mms, t, va, s, role, l) && l <= 2
    ensures var r := Descend(s, Shift(l), va);
      && (r.outcome == Mapped <==> MissingAt(SysOf(mms, t, s), t, va, l + 1) == 0 || CanAddTable(s.ph, s.mm))
      && (r.outcome != Mapped ==> Stopped(s, r))
      && (r.outcome == Mapped ==>
            Ready(mms, t, va, r, role', l + 1) && Advance(SysOf(mms, t, s), role, SysOf(mms, t, r), role', t, va))
  {
    if MissingAt(SysOf(mms, t, s), t, va, l + 1) == 0 {
      DescendFound(mms, t, va, s, role, l);
      role' := role;
    } else {
      role' := DescendNew(mms, t, va, s, role, l);
    }
  }

  // ---- map_page ---------------------------------------------------------------------

  /** The lists have room: a slot for each missing table, and a slot of the shadow list. */
  ghost predicate SlotsSuffice(sys: Sys, t: nat, va: nat)
    requires sys.ph.Wf() && t < |sys.mms| && va < VA_LIMIT
  {
    && sys.mms[t].kernelPagesCount + Missing(sys, t, va) < MAX_PROCESS_PAGES
    && sys.mms[t].userPagesCount < MAX_PROCESS_PAGES
  }

  /** Everything `map_page` needs is there: a free page for each missing table, and the list
      slots. */
  ghost predicate Suffices(sys: Sys, t: nat, va: nat)
    requires sys.ph.Wf() && t < |sys.mms| && va < VA_LIMIT
  {
    Missing(sys, t, va) <= FreeCount(sys.ph) && SlotsSuffice(sys, t, va)
  }

  /** A mapping that failed has listed no page, and with room in the lists it has used up the
      free pages. */
  ghost predicate UsedUp(sys: Sys, t: nat, va: nat, ph': Phys, mm': MmStruct)
    requires sys.ph.Wf() && t < |sys.mms| && va < VA_LIMIT
  {
    mm'.userPagesCount == sys.mms[t].userPagesCount && (SlotsSuffice(sys, t, va) ==> FreeCount(ph') == 0)
  }

  lemma NothingMissingAbove(sys: Sys, t: nat, va: nat, l: nat)
    requires sys.ph.Wf() && t < |sys.mms| && va < VA_LIMIT && l <= 3
    requires OnWay(sys, t, va, l + 1) != 0
    ensures OnWay(sys, t, va, l) != 0
  {
  }

  lemma TableThereNoneMissing(sys: Sys, t: nat, va: nat)
    requires sys.ph.Wf() && t < |sys.mms| && va < VA_LIMIT && OnWay(sys, t, va, 3) != 0
    ensures Missing(sys, t, va) == 0
  {
    NothingMissingAbove(sys, t, va, 2);
    NothingMissingAbove(sys, t, va, 1);
    NothingMissingAbove(sys, t, va, 0);
  }

  lemma StuckEarlier(sys0: Sys, sys: Sys, t: nat, va: nat)
    requires sys0.ph.Wf() && sys.ph.Wf() && t < |sys0.mms| == |sys.mms| && va < VA_LIMIT
    requires Accounts(sys0, sys, t, va) && sys.mms[t].userPagesCount == sys0.mms[t].userPagesCount
    requires !Suffices(sys, t, va)
    ensures !Suffices(sys0, t, va)
    ensures SlotsSuffice(sys0, t, va) ==> SlotsSuffice(sys, t, va)
  {
  }

  lemma AdvanceRefl(sys: Sys, role: seq<Role>, t: nat, va: nat)
    requires sys.ph.Wf() && t < |sys.mms| && sys.mms[t].Wf() && va < VA_LIMIT && |role| == PAGING_PAGES
    ensures Advance(sys, role, sys, role, t, va)
  {
  }

  lemma ReadyWf(mms: seq<MmStruct>, t: nat, va: nat, s: Progress, role: seq<Role>, l: nat)
    requires Ready(mms, t, va, s, role, l)
    ensures SysOf(mms, t, s).ph.Wf() && SysOf(mms, t, s).mms[t].Wf() && |role| == PAGING_PAGES
  {
  }

  function DescendFrom(s: Progress, l: nat, va: nat): (r: Progress)
    requires s.Wf() && l <= 3
    ensures r.Wf()
    ensures s.outcome != Mapped ==> r == s
    decreases 3 - l
  {
    if l == 3 then s else DescendFrom(Descend(s, Shift(l), va), l + 1, va)
  }

  function Tables(ph: Phys, mm: MmStruct, va: nat): Progress
    requires ph.Wf() && mm.Wf() && (mm.pgd == 0 || InPool(mm.pgd))
  {
    DescendFrom(EnsureRoot(ph, mm), 0, va)
  }

  /** `r` is what building the missing tables from `s` on comes to. */
  ghost predicate Built(mms: seq<MmStruct>, t: nat, va: nat, s: Progress, role: seq<Role>, r: Progress,
      role': seq<Role>) {
    && t < |mms| && va < VA_LIMIT && s.Wf() && r.Wf()
    && (r.outcome != Mapped ==> !Suffices(SysOf(mms, t, s), t, va) && UsedUp(SysOf(mms, t, s), t, va, r.ph, r.mm))
    && (r.outcome == Mapped ==>
          Ready(mms, t, va, r, role', 3) && Advance(SysOf(mms, t, s), role, SysOf(mms, t, r), role', t, va))
  }

  lemma BuiltAlready(mms: seq<MmStruct>, t: nat, va: nat, s: Progress, role: seq<Role>)
    requires Ready(mms, t, va, s, role, 3)
    ensures Built(mms, t, va, s, role, s, role)
  {
    ReadyWf(mms, t, va, s, role, 3);
    AdvanceRefl(SysOf(mms, t, s), role, t, va);
  }

  lemma BuiltStuck(mms: seq<MmStruct>, t: nat, va: nat, s: Progress, role: seq<Role>, l: nat, r: Progress)
    requires t < |mms| && va < VA_LIMIT && s.Wf() && r.Wf() && l <= 3
    requires MissingAt(SysOf(mms, t, s), t, va, l) != 0 && !CanAddTable(s.ph, s.mm) && Stopped(s, r)
    ensures Built(mms, t, va, s, role, r, role)
  {
  }

  lemma BuiltLater(
      mms: seq<MmStruct>, t: nat, va: nat, s: Progress, role: seq<Role>, s1: Progress, role1: seq<Role>,
      r: Progress, role': seq<Role>)
    requires s.Wf() && t < |mms| && Advance(SysOf(mms, t, s), role, SysOf(mms, t, s1), role1, t, va)
    requires Built(mms, t, va, s1, role1, r, role')
    ensures Built(mms, t, va, s, role, r, role')
  {
    if r.outcome != Mapped {
      StuckEarlier(SysOf(mms, t, s), SysOf(mms, t, s1), t, va);
    } else {
      AdvanceTrans(SysOf(mms, t, s), role, SysOf(mms, t, s1), role1, SysOf(mms, t, r), role', t, va);
    }
  }

  lemma DescendFromStep(s: Progress, l: nat, va: nat)
    requires s.Wf() && l < 3
    ensures DescendFrom(s, l, va) == DescendFrom(Descend(s, Shift(l), va), l + 1, va)
  {
  }

  lemma {:induction false} BuildFrom(mms: seq<MmStruct>, t: nat, va: nat, s: Progress, role: seq<Role>, l: nat)
      returns (role': seq<Role>)
    requires s.Wf() && l <= 3 && Ready(mms, t, va, s, role, l)
    ensures Built(mms, t, va, s, role, DescendFrom(s, l, va), role')
    decreases 3 - l, 1
  {
    if l == 3 {
      BuiltAlready(mms, t, va, s, role);
      role' := role;
    } else {
      var role1 := DescendStep(mms, t, va, s, role, l);
      DescendFromStep(s, l, va);
      role' := BuildNext(mms, t, va, s, role, l, Descend(s, Shift(l), va), role1);
    }
  }

  lemma BuildNext(
      mms: seq<MmStruct>, t: nat, va: nat, s: Progress, role: seq<Role>, l: nat, s1: Progress, role1: seq<Role>)
      returns (role': seq<Role>)
    requires s.Wf() && s1.Wf() && l < 3 && t < |mms| && va < VA_LIMIT
    requires s1.outcome == Mapped <==> MissingAt(SysOf(mms, t, s), t, va, l + 1) == 0 || CanAddTable(s.ph, s.mm)
    requires s1.outcome != Mapped ==> Stopped(s, s1)
    requires s1.outcome == Mapped ==>
      Ready(mms, t, va, s1, role1, l + 1) && Advance(SysOf(mms, t, s), role, SysOf(mms, t, s1), role1, t, va)
    ensures Built(mms, t, va, s, role, DescendFrom(s1, l + 1, va), role')
    decreases 3 - l, 0
  {
    if s1.outcome != Mapped {
      BuiltStuck(mms, t, va, s, role, l + 1, s1);
      role' := role;
    } else {
      role' := BuildFrom(mms, t, va, s1, role1, l + 1);
      BuiltLater(mms, t, va, s, role, s1, role1, DescendFrom(s1, l + 1, va), role');
    }
  }

  lemma BuildTables(mms: seq<MmStruct>, t: nat, va: nat, ph: Phys, role: seq<Role>) returns (role': seq<Role>)
    requires t < |mms| && va < VA_LIMIT && InvFor(Sys(ph, mms), role, t, {va})
    ensures mms[t].Wf() && (mms[t].pgd == 0 || InPool(mms[t].pgd))
    ensures Built(mms, t, va, Progress(ph, mms[t], 0, NullTable), role, Tables(ph, mms[t], va), role')
  {
    var s := Progress(ph, mms[t], 0, NullTable);
    var role0 := RootStep(mms, t, va, ph, role);
    var s0 := EnsureRoot(ph, mms[t]);
    assert SysOf(mms, t, s) == Sys(ph, mms);
    if s0.outcome != Mapped {
      role' := role;
      BuiltStuck(mms, t, va, s, role, 0, s0);
    } else {
      role' := BuildFrom(mms, t, va, s0, role0, 0);
      BuiltLater(mms, t, va, s, role, s0, role0, DescendFrom(s0, 0, va), role');
    }
  }

  lemma MapPageIsTablesThenLeaf(ph: Phys, mm: MmStruct, va: nat, page: nat)
    requires ph.Wf() && mm.Wf() && (mm.pgd == 0 || InPool(mm.pgd)) && InPool(page)
    ensures MapPage(ph, mm, va, page) == MapLeaf(Tables(ph, mm, va), va, page)
  {
  }

  // ---- The last entry ---------------------------------------------------------------

  /** The only change in what tasks see: `va` of task `t` is now at `page`. */
  ghost predicate OnlyMaps(sys: Sys, sys': Sys, t: nat, va: nat, page: nat) {
    && sys.ph.Wf() && sys'.ph.Wf() && |sys'.mms| == |sys.mms| && t < |sys.mms| && va < VA_LIMIT
    && forall u: nat, p: nat :: IsNode(sys.mms, u, 4, p)
         ==> At(sys'.ph.mem, sys'.mms, u, 4, p)
             == if u == t && p == va / 4096 then page else At(sys.ph.mem, sys.mms, u, 4, p)
  }

  /** Pages keep their use and their bytes, except that free pages may become tables of `t`
      and the held page `page` becomes its page for `va`. */
  ghost predicate OnlyMapsRoles(sys: Sys, role: seq<Role>, sys': Sys, role': seq<Role>, t: nat, va: nat, page: nat) {
    && sys.ph.Wf() && sys'.ph.Wf() && |role| == PAGING_PAGES && |role'| == PAGING_PAGES && InPool(page)
    && role'[FrameOf(page)] == Node(t, 4, va / 4096)
    && (forall f: nat :: f < PAGING_PAGES && f != FrameOf(page)
          ==> role'[f] == role[f] || (role[f] == Free && IsTable(role'[f], t)))
    && (forall f: nat :: f < PAGING_PAGES && Precious(role[f]) ==> sys'.ph.mem[f] == sys.ph.mem[f])
  }

  ghost predicate ListsMapped(mm: MmStruct, mm': MmStruct, va: nat, page: nat) {
    && mm.Wf() && mm'.Wf()
    && mm'.Users() == mm.Users() + [UserPage(page, va)]
    && mm'.userPagesCount == mm.userPagesCount + 1
  }

  lemma LeafWrites(s: Progress, va: nat, page: nat)
    requires s.Wf() && s.outcome == Mapped && InPool(page)
    ensures var r := MapLeaf(s, va, page);
      && (r.outcome == Mapped <==> s.mm.userPagesCount < MAX_PROCESS_PAGES)
      && Wrote(s.ph.mem, r.ph.mem, FrameOf(s.table), Slot(va, 3), page + Flags(3))
      && r.ph.memMap == s.ph.memMap
      && (r.outcome == Mapped ==>
            && ListsMapped(s.mm, r.mm, va, page) && r.mm.Tables() == s.mm.Tables()
            && r.mm.pgd == s.mm.pgd && r.mm.kernelPagesCount == s.mm.kernelPagesCount)
  {
    IndexIsSlot(va, 3);
    WriteWordWrote(s.ph, s.table, Slot(va, 3), Descriptor(page, MMU_PTE_FLAGS));
  }

  lemma LeafChild(va: nat, t: nat)
    requires va < VA_LIMIT
    ensures Child(Node(t, 3, Prefix(va, 3)), Slot(va, 3)) == Node(t, 4, va / 4096)
  {
    PrefixStep(va, 3);
  }

  lemma LeafCanLink(mms: seq<MmStruct>, t: nat, va: nat, s: Progress, role: seq<Role>, f: nat, g: nat)
    requires Ready(mms, t, va, s, role, 3) && f == FrameOf(s.table) && g < PAGING_PAGES && role[g] == Held
    requires OnWay(SysOf(mms, t, s), t, va, 4) == 0
    ensures CanLink(s.ph.mem, SysOf(mms, t, s).mms, role, f, Slot(va, 3), g)
    ensures role[f] == Node(t, 3, Prefix(va, 3))
  {
    ReadyEntry(mms, t, va, s, role, 3);
  }

  /** The descriptor just written is the one entry that changes. */
  lemma LeafLinks(mms: seq<MmStruct>, t: nat, va: nat, s: Progress, role: seq<Role>, page: nat, mem': seq<Page>,
      mms': seq<MmStruct>, c: Role)
    requires Ready(mms, t, va, s, role, 3) && InPool(page) && role[FrameOf(page)] == Held
    requires OnWay(SysOf(mms, t, s), t, va, 4) == 0 && va % 4096 == 0
    requires mem' == MapLeaf(s, va, page).ph.mem && mms' == SysOf(mms, t, s).mms && c == Node(t, 4, va / 4096)
    ensures Trees(mem', mms', role[FrameOf(page) := c])
    ensures LookupsPlus(s.ph.mem, mms', mem', mms', c, page)
  {
    var f, g := FrameOf(s.table), FrameOf(page);
    LeafCanLink(mms, t, va, s, role, f, g);
    LeafWrites(s, va, page);
    LeafChild(va, t);
    Link(s.ph.mem, mem', mms', role, f, Slot(va, 3), g);
  }

  lemma LeafStep(mms: seq<MmStruct>, t: nat, va: nat, s: Progress, role: seq<Role>, page: nat)
    requires Ready(mms, t, va, s, role, 3) && InPool(page) && role[FrameOf(page)] == Held
    requires OnWay(SysOf(mms, t, s), t, va, 4) == 0 && va % 4096 == 0
    requires s.mm.userPagesCount < MAX_PROCESS_PAGES
    ensures InvFor(SysOf(mms, t, MapLeaf(s, va, page)), role[FrameOf(page) := Node(t, 4, va / 4096)], t, {})
  {
    var r := MapLeaf(s, va, page);
    LeafWrites(s, va, page);
    LeafLinks(mms, t, va, s, role, page, r.ph.mem, SysOf(mms, t, s).mms, Node(t, 4, va / 4096));
    LeafKeeps(SysOf(mms, t, s), SysOf(mms, t, r), role, t, va, page);
  }

  lemma LeafKeeps(sys: Sys, sys': Sys, role: seq<Role>, t: nat, va: nat, page: nat)
    requires InvFor(sys, role, t, {va}) && t < |sys.mms| && va % 4096 == 0 && va < VA_LIMIT
    requires InPool(page) && role[FrameOf(page)] == Held
    requires Trees(sys'.ph.mem, sys.mms, role[FrameOf(page) := Node(t, 4, va / 4096)])
    requires LookupsPlus(sys.ph.mem, sys.mms, sys'.ph.mem, sys.mms, Node(t, 4, va / 4096), page)
    requires sys'.ph.Wf() && sys'.ph.memMap == sys.ph.memMap
    requires |sys'.mms| == |sys.mms| && sys'.mms[t].pgd == sys.mms[t].pgd
    requires forall u: nat :: u < |sys.mms| && u != t ==> sys'.mms[u] == sys.mms[u]
    requires ListsMapped(sys.mms[t], sys'.mms[t], va, page) && sys'.mms[t].Tables() == sys.mms[t].Tables()
    ensures InvFor(sys', role[FrameOf(page) := Node(t, 4, va / 4096)], t, {})
  {
    var c, g := Node(t, 4, va / 4096), FrameOf(page);
    SamePgds(sys'.ph.mem, sys.mms, sys'.mms, role[g := c]);
    SamePgdsPlus(sys.ph.mem, sys'.ph.mem, sys.mms, sys'.mms, c, page);
    LeafIsNode(sys.mms, t, va);
    NowListed(sys'.mms[t].Users(), UserPage(page, va));
    LeafGain(sys.mms[t], sys'.mms[t], t, va, page);
    AddNode(sys, sys', role, t, g, c, {va}, {});
  }

  lemma LeafIsNode(mms: seq<MmStruct>, t: nat, va: nat)
    requires t < |mms| && va < VA_LIMIT
    ensures IsNode(mms, t, 4, va / 4096)
  {
  }

  lemma LeafGain(mm: MmStruct, mm': MmStruct, t: nat, va: nat, page: nat)
    requires ListsMapped(mm, mm', va, page) && mm'.Tables() == mm.Tables() && va % 4096 == 0 && InPool(page)
    ensures ListsGain(mm, mm', Node(t, 4, va / 4096), FrameOf(page))
  {
  }

  lemma NowListed(users: seq<UserPage>, u: UserPage)
    requires |users| > 0 && users[|users| - 1] == u
    ensures {u.virtAddr} <= Vas(users) + {}
  {
  }

  lemma LeafOnlyMaps(mms: seq<MmStruct>, t: nat, va: nat, s: Progress, role: seq<Role>, page: nat)
    requires Ready(mms, t, va, s, role, 3) && InPool(page) && role[FrameOf(page)] == Held
    requires OnWay(SysOf(mms, t, s), t, va, 4) == 0 && va % 4096 == 0
    requires s.mm.userPagesCount < MAX_PROCESS_PAGES
    ensures OnlyMaps(SysOf(mms, t, s), SysOf(mms, t, MapLeaf(s, va, page)), t, va, page)
  {
    var r, c := MapLeaf(s, va, page), Node(t, 4, va / 4096);
    var sys, sys' := SysOf(mms, t, s), SysOf(mms, t, r);
    LeafWrites(s, va, page);
    LeafLinks(mms, t, va, s, role, page, r.ph.mem, sys.mms, c);
    SamePgdsPlus(s.ph.mem, r.ph.mem, sys.mms, sys'.mms, c, page);
    forall u: nat, p: nat | IsNode(sys.mms, u, 4, p)
      ensures At(sys'.ph.mem, sys'.mms, u, 4, p)
              == if u == t && p == va / 4096 then page else At(sys.ph.mem, sys.mms, u, 4, p)
    {
      assert LookupPlus(sys.ph.mem, sys.mms, sys'.ph.mem, sys'.mms, c, page, u, 4, p);
    }
  }
}
