/** Whole runs of the memory manager, from boot on. */
module MmRuns {
  import opened PageTables
  import opened MmSpec
  import opened MmInvariant
  import opened MmOwnership
  import opened MmMapping
  import opened MmCalls
  import opened MmShadow
  import opened MmFork

  /** `NewTask` is a task without pages; `KernelStore` is the kernel writing one word of a
      page it holds, `Store` user code writing one word. */
  datatype Event =
    | NewTask
    | KernelAlloc
    | KernelStore(page: nat, slot: nat, word: Word)
    | KernelFree(page: nat)
    | UserAlloc(task: nat, va: nat)
    | Fault(task: nat, addr: Word, esr: nat)
    | Fork(current: nat, child: nat)
    | Store(task: nat, va: nat, slot: nat, word: Word)

  ghost predicate InSomeList(sys: Sys, page: nat) {
    exists t: nat :: t < |sys.mms| && InListsOf(sys.mms[t], page)
  }

  ghost predicate InListsOf(mm: MmStruct, page: nat) {
    mm.Wf() && (page in mm.Tables() || exists i :: 0 <= i < |mm.Users()| && mm.Users()[i].physAddr == page)
  }

  /** What the kernel's own structure guarantees of each call: faults are reported for
      addresses that do not translate, `allocate_user_page` is used on unmapped pages, a fork
      fills a new task, and only unlisted pages are written by their owner or freed. */
  ghost predicate Enabled(sys: Sys, e: Event) {
    && sys.ph.Wf()
    && (forall t: nat :: t < |sys.mms| ==> sys.mms[t].Wf() && (sys.mms[t].pgd == 0 || InPool(sys.mms[t].pgd)))
    && match e
       case NewTask => true
       case KernelAlloc => true
       case KernelStore(page, slot, w) => Marked(sys.ph, page) && !InSomeList(sys, page) && slot < 512
       case KernelFree(page) => Marked(sys.ph, page) && !InSomeList(sys, page)
       case UserAlloc(t, va) =>
         t < |sys.mms| && va < VA_LIMIT && va % 4096 == 0 && WalkOf(sys, t, va) == 0
       case Fault(t, addr, esr) =>
         t < |sys.mms| && addr < VA_LIMIT && (4 <= esr % 64 <= 7 ==> WalkOf(sys, t, addr) == 0)
       case Fork(c, d) =>
         c < |sys.mms| && d < |sys.mms| && c != d && sys.mms[d].userPagesCount == 0
       case Store(t, va, slot, w) =>
         t < |sys.mms| && va < VA_LIMIT && slot < 512 && InPool(WalkOf(sys, t, va))
  }

  /** The next state, and whether the call stayed within what the source checks for. */
  ghost function Step(sys: Sys, e: Event): (Sys, bool)
    requires Enabled(sys, e)
  {
    match e
    case NewTask => (Sys(sys.ph, sys.mms + [EmptyMm()]), true)
    case KernelAlloc => (Sys(GetFreePage(sys.ph).0, sys.mms), true)
    case KernelStore(page, slot, w) => (Sys(WriteWord(sys.ph, page, slot, w), sys.mms), true)
    case KernelFree(page) => (Sys(FreePage(sys.ph, page), sys.mms), true)
    case UserAlloc(t, va) =>
      var (ph, mm, a) := AllocateUserPage(sys.ph, sys.mms[t], va);
      (Sys(ph, sys.mms[t := mm]), !a.Broken?)
    case Fault(t, addr, esr) =>
      var (ph, mm, a) := DoMemAbort(sys.ph, sys.mms[t], addr, esr);
      (Sys(ph, sys.mms[t := mm]), !a.Broken?)
    case Fork(c, d) =>
      var (ph, mm, res) := CopyFrom(sys.ph, sys.mms[c], sys.mms[d], 0);
      (Sys(ph, sys.mms[d := mm]), res == Done || res == Refused)
    case Store(t, va, slot, w) =>
      (Sys(WriteWord(sys.ph, WalkOf(sys, t, va), slot, w), sys.mms), true)
  }

  ghost predicate Accepted(sys: Sys, es: seq<Event>)
    decreases |es|
  {
    es != [] ==> Enabled(sys, es[0]) && Step(sys, es[0]).1 && Accepted(Step(sys, es[0]).0, es[1..])
  }

  ghost function Run(sys: Sys, es: seq<Event>): Sys
    requires Accepted(sys, es)
    decreases |es|
  {
    if es == [] then sys else Run(Step(sys, es[0]).0, es[1..])
  }

  // ---- Single steps -----------------------------------------------------------------

  lemma {:induction false} NoBaseNoNode(mem: seq<Page>, l: nat, p: nat)
    requires |mem| == PAGING_PAGES && l <= 4
    ensures Lookup(mem, 0, l, p) == 0
    decreases l
  {
    if l > 0 {
      NoBaseNoNode(mem, l - 1, p / 512);
    }
  }

  lemma NewTaskKeeps(sys: Sys, role: seq<Role>)
    requires Inv(sys, role)
    ensures Inv(Sys(sys.ph, sys.mms + [EmptyMm()]), role)
  {
  }

  lemma NodeInLists(mm: MmStruct, t: nat, role: seq<Role>, f: nat)
    requires |role| == PAGING_PAGES && TaskOk(mm, t, role, {}) && f < PAGING_PAGES
    requires role[f].Node? && role[f].task == t && role[f].level <= 4
    ensures InListsOf(mm, FrameAddr(f))
  {
  }

  lemma NodeIsListed(sys: Sys, role: seq<Role>, f: nat)
    requires Inv(sys, role) && f < PAGING_PAGES && role[f].Node?
    ensures InSomeList(sys, FrameAddr(f))
  {
    var t := role[f].task;
    assert Placed(sys.ph.mem, sys.mms, role[f], f);
    assert TaskOk(sys.mms[t], t, role, {});
    NodeInLists(sys.mms[t], t, role, f);
  }

  /** A page in use that is in no list is nobody's node. */
  lemma UnlistedIsHeld(sys: Sys, role: seq<Role>, f: nat)
    requires Inv(sys, role) && f < PAGING_PAGES && sys.ph.memMap[f] != 0 && !InSomeList(sys, FrameAddr(f))
    ensures role[f] == Held
  {
  }

  lemma FreeUnlisted(sys: Sys, role: seq<Role>, page: nat)
    requires Inv(sys, role) && Marked(sys.ph, page) && !InSomeList(sys, page)
    ensures Inv(Sys(FreePage(sys.ph, page), sys.mms), role[FrameOf(page) := Free])
  {
    UnlistedIsHeld(sys, role, FrameOf(page));
    SetRole(sys, Sys(FreePage(sys.ph, page), sys.mms), role, FrameOf(page), Free, 0, {});
  }

  lemma FreeListed(sys: Sys, page: nat)
    requires Marked(sys.ph, page) && InSomeList(sys, page)
    ensures !Separated(Sys(FreePage(sys.ph, page), sys.mms))
  {
    var sys' := Sys(FreePage(sys.ph, page), sys.mms);
    var t: nat :| t < |sys.mms| && InListsOf(sys.mms[t], page);
    assert !Marked(sys'.ph, page);
    assert !AllMarked(sys'.ph, sys.mms[t]);
  }

  /** `free_page` on a page in use keeps the invariant exactly when the page is in no
      task's lists. */
  lemma FreePageKeepsIffUnlisted(sys: Sys, role: seq<Role>, page: nat)
    requires Inv(sys, role) && Marked(sys.ph, page)
    ensures !InSomeList(sys, page) ==> Inv(Sys(FreePage(sys.ph, page), sys.mms), role[FrameOf(page) := Free])
    ensures InSomeList(sys, page) ==> !Separated(Sys(FreePage(sys.ph, page), sys.mms))
  {
    if InSomeList(sys, page) {
      FreeListed(sys, page);
    } else {
      FreeUnlisted(sys, role, page);
    }
  }

  /** Every page in use stays in that use, and pages that are no tables keep their bytes,
      apart from the page `freed` and a write to page `written`. */
  ghost predicate UsesKept(sys: Sys, role: seq<Role>, sys': Sys, role': seq<Role>, freed: nat, written: nat) {
    && sys.ph.Wf() && sys'.ph.Wf() && |role| == PAGING_PAGES && |role'| == PAGING_PAGES
    && (forall f: nat :: f < PAGING_PAGES && role[f] != Free && FrameAddr(f) != freed ==> role'[f] == role[f])
    && (forall f: nat :: f < PAGING_PAGES && Precious(role[f]) && FrameAddr(f) != written ==>
          sys'.ph.mem[f] == sys.ph.mem[f])
  }

  function Freed(e: Event): nat {
    if e.KernelFree? then e.page else 0
  }

  ghost function Written(sys: Sys, e: Event): nat
    requires Enabled(sys, e)
  {
    if e.Store? then WalkOf(sys, e.task, e.va) else if e.KernelStore? then e.page else 0
  }

  lemma StoreKeeps(sys: Sys, role: seq<Role>, t: nat, va: nat, slot: nat, w: Word)
    requires Inv(sys, role) && t < |sys.mms| && va < VA_LIMIT && slot < 512 && InPool(WalkOf(sys, t, va))
    ensures Inv(Sys(WriteWord(sys.ph, WalkOf(sys, t, va), slot, w), sys.mms), role)
  {
    WalkIsAt(sys, t, va);
    NodeOwned(sys, role, t, 4, va / 4096, {});
    assert Precious(role[FrameOf(WalkOf(sys, t, va))]);
    WriteKeeps(sys, WriteWord(sys.ph, WalkOf(sys, t, va), slot, w).mem, role, 0);
  }

  lemma KernelStoreKeeps(sys: Sys, role: seq<Role>, page: nat, slot: nat, w: Word)
    requires Inv(sys, role) && Marked(sys.ph, page) && !InSomeList(sys, page) && slot < 512
    ensures Inv(Sys(WriteWord(sys.ph, page, slot, w), sys.mms), role)
  {
    var f := FrameOf(page);
    assert FrameAddr(f) == page;
    UnlistedIsHeld(sys, role, f);
    WriteKeeps(sys, WriteWord(sys.ph, page, slot, w).mem, role, 0);
  }

  lemma UnmappedWay(sys: Sys, t: nat, va: nat)
    requires sys.ph.Wf() && t < |sys.mms| && va < VA_LIMIT && WalkOf(sys, t, va) == 0
    ensures OnWay(sys, t, va, 4) == 0
  {
    WalkIsLookup(sys.ph.mem, sys.mms[t].pgd, va);
  }

  /** An allocation for task `t` that was refused, or that was served with roles `role1`. */
  lemma AllocationKeeps(sys: Sys, role: seq<Role>, t: nat, va: nat, sys': Sys, role1: seq<Role>,
      a: Alloc) returns (role': seq<Role>)
    requires Inv(sys, role) && t < |sys.mms| && !a.Broken?
    requires a == NoPage ==> sys'.ph == sys.ph && sys'.mms == sys.mms[t := sys.mms[t]]
    requires a.Got? ==> InvFor(sys', role1, t, {}) && AllocRoles(sys, role, sys', role1, t, va, a.page)
    ensures Inv(sys', role') && UsesKept(sys, role, sys', role', 0, 0)
  {
    if a == NoPage {
      assert sys' == sys;
      role' := role;
    } else {
      InvIsInvFor(sys', role1, t);
      role' := role1;
    }
  }

  lemma UserAllocKeeps(sys: Sys, role: seq<Role>, t: nat, va: nat) returns (role': seq<Role>)
    requires Inv(sys, role) && Enabled(sys, UserAlloc(t, va)) && Step(sys, UserAlloc(t, va)).1
    ensures Inv(Step(sys, UserAlloc(t, va)).0, role')
    ensures UsesKept(sys, role, Step(sys, UserAlloc(t, va)).0, role', 0, 0)
  {
    InvIsInvFor(sys, role, t);
    UnmappedWay(sys, t, va);
    var role1 := AllocateUserPageCorrect(sys, role, t, va);
    var (ph, mm, a) := AllocateUserPage(sys.ph, sys.mms[t], va);
    role' := AllocationKeeps(sys, role, t, va, Sys(ph, sys.mms[t := mm]), role1, a);
  }

  lemma FaultKeeps(sys: Sys, role: seq<Role>, t: nat, addr: Word, esr: nat) returns (role': seq<Role>)
    requires Inv(sys, role) && Enabled(sys, Fault(t, addr, esr)) && Step(sys, Fault(t, addr, esr)).1
    ensures Inv(Step(sys, Fault(t, addr, esr)).0, role')
    ensures UsesKept(sys, role, Step(sys, Fault(t, addr, esr)).0, role', 0, 0)
  {
    InvIsInvFor(sys, role, t);
    var role1 := DoMemAbortCorrect(sys, role, t, addr, esr);
    var (ph, mm, a) := DoMemAbort(sys.ph, sys.mms[t], addr, esr);
    role' := AllocationKeeps(sys, role, t, PageBase(addr), Sys(ph, sys.mms[t := mm]), role1, a);
  }

  lemma KernelAllocKeeps(sys: Sys, role: seq<Role>) returns (role': seq<Role>)
    requires Inv(sys, role)
    ensures var sys' := Sys(GetFreePage(sys.ph).0, sys.mms);
      Inv(sys', role') && UsesKept(sys, role, sys', role', 0, 0)
  {
    role' := TakeKeeps(sys, role, 0, {});
  }

  lemma KernelFreeKeeps(sys: Sys, role: seq<Role>, page: nat) returns (role': seq<Role>)
    requires Inv(sys, role) && Marked(sys.ph, page) && !InSomeList(sys, page)
    ensures var sys' := Sys(FreePage(sys.ph, page), sys.mms);
      Inv(sys', role') && UsesKept(sys, role, sys', role', page, 0)
  {
    FreePageKeepsIffUnlisted(sys, role, page);
    role' := role[FrameOf(page) := Free];
  }

  lemma ForkKeeps(sys: Sys, role: seq<Role>, c: nat, d: nat) returns (role': seq<Role>)
    requires Inv(sys, role) && Enabled(sys, Fork(c, d)) && Step(sys, Fork(c, d)).1
    ensures Inv(Step(sys, Fork(c, d)).0, role')
    ensures UsesKept(sys, role, Step(sys, Fork(c, d)).0, role', 0, 0)
  {
    role' := ForkCopies(sys, role, c, d);
  }

  lemma StepKeeps(sys: Sys, role: seq<Role>, e: Event) returns (role': seq<Role>)
    requires Inv(sys, role) && Enabled(sys, e) && Step(sys, e).1
    ensures Inv(Step(sys, e).0, role')
    ensures UsesKept(sys, role, Step(sys, e).0, role', Freed(e), Written(sys, e))
  {
    role' := role;
    match e
    case NewTask => NewTaskKeeps(sys, role);
    case KernelAlloc => role' := KernelAllocKeeps(sys, role);
    case KernelStore(page, slot, w) => KernelStoreKeeps(sys, role, page, slot, w);
    case KernelFree(page) => role' := KernelFreeKeeps(sys, role, page);
    case UserAlloc(t, va) => role' := UserAllocKeeps(sys, role, t, va);
    case Fault(t, addr, esr) => role' := FaultKeeps(sys, role, t, addr, esr);
    case Fork(c, d) => role' := ForkKeeps(sys, role, c, d);
    case Store(t, va, slot, w) => StoreKeeps(sys, role, t, va, slot, w);
  }

  // ---- Runs -------------------------------------------------------------------------

  lemma {:induction false} RunKeeps(sys: Sys, role: seq<Role>, es: seq<Event>) returns (role': seq<Role>)
    requires Inv(sys, role) && Accepted(sys, es)
    ensures Inv(Run(sys, es), role')
    decreases |es|
  {
    if es == [] {
      role' := role;
    } else {
      var role1 := StepKeeps(sys, role, es[0]);
      role' := RunKeeps(Step(sys, es[0]).0, role1, es[1..]);
    }
  }

  /** The state after reset: no page handed out, no task, arbitrary memory contents. */
  ghost predicate Boot(sys: Sys) {
    sys.ph.Wf() && sys.mms == [] && forall f: nat :: f < PAGING_PAGES ==> sys.ph.memMap[f] == 0
  }

  lemma BootInv(sys: Sys)
    requires Boot(sys)
    ensures Inv(sys, seq(PAGING_PAGES, _ => Free))
  {
  }

  ghost predicate EntryAgrees(sys: Sys, t: nat, va: nat, page: nat)
    requires sys.ph.Wf() && t < |sys.mms|
  {
    && sys.mms[t].Wf()
    && (WalkOf(sys, t, va) == page <==> UserPage(page, va / 4096 * 4096) in sys.mms[t].Users())
  }

  /** The shadow lists agree with the page tables for every task and address. */
  ghost predicate ShadowAgrees(sys: Sys) {
    && sys.ph.Wf()
    && forall t: nat, va: nat, page: nat :: t < |sys.mms| && va < VA_LIMIT && page != 0 ==>
         EntryAgrees(sys, t, va, page)
  }

  /** In every state reachable from boot, pages are separated and the shadow lists are the
      translations. */
  lemma ReachableIsSafe(sys: Sys, es: seq<Event>)
    requires Boot(sys) && Accepted(sys, es)
    ensures Separated(Run(sys, es)) && ShadowAgrees(Run(sys, es))
  {
    BootInv(sys);
    var role := RunKeeps(sys, seq(PAGING_PAGES, _ => Free), es);
    var s := Run(sys, es);
    InvSeparates(s, role);
    forall t: nat, va: nat, page: nat | t < |s.mms| && va < VA_LIMIT && page != 0
      ensures EntryAgrees(s, t, va, page)
    {
      InvIsInvFor(s, role, t);
      ShadowListIsTranslation(s, role, t, va, page);
    }
  }

  /** In every reachable state whatever a task has mapped is user memory to the MMU. */
  lemma ReachableIsUserMemory(sys: Sys, es: seq<Event>, t: nat, va: nat)
    requires Boot(sys) && Accepted(sys, es) && va < VA_LIMIT
    requires t < |Run(sys, es).mms| && Run(sys, es).ph.Wf() && WalkOf(Run(sys, es), t, va) != 0
    ensures var s := Run(sys, es); IsUserMemory(LeafWord(s.ph.mem, s.mms[t].pgd, va), WalkOf(s, t, va))
  {
    BootInv(sys);
    var role := RunKeeps(sys, seq(PAGING_PAGES, _ => Free), es);
    MappedIsUserMemory(Run(sys, es), role, 0, t, va);
  }
}
