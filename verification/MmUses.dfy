/** How long pages stay what they are: over every run, a mapped address keeps its page, and a
    kernel page belongs to its owner alone until it is freed. */
module MmUses {
  import opened Finite
  import opened PageTables
  import opened MmSpec
  import opened MmInvariant
  import opened MmOwnership
  import opened MmMapping
  import opened MmCalls
  import opened MmShadow
  import opened MmFork
  import opened MmRuns

  /** A node of some task is never freed and never changes hands. */
  lemma {:induction false} NodeStays(sys: Sys, role: seq<Role>, es: seq<Event>, f: nat) returns (role': seq<Role>)
    requires Inv(sys, role) && Accepted(sys, es) && f < PAGING_PAGES && role[f].Node?
    ensures Inv(Run(sys, es), role') && role'[f] == role[f]
    decreases |es|
  {
    if es == [] {
      role' := role;
    } else {
      NodeNotFreed(sys, role, es[0], f);
      var role1 := StepKeeps(sys, role, es[0]);
      role' := NodeStays(Step(sys, es[0]).0, role1, es[1..], f);
    }
  }

  lemma NodeNotFreed(sys: Sys, role: seq<Role>, e: Event, f: nat)
    requires Inv(sys, role) && Enabled(sys, e) && f < PAGING_PAGES && role[f].Node?
    ensures Freed(e) != FrameAddr(f)
  {
    if e.KernelFree? && e.page == FrameAddr(f) {
      NodeIsListed(sys, role, f);
      assert false;
    }
  }

  /** No run takes a translation away or moves it: what a task once sees at an address stays
      at the same physical page. */
  lemma TranslationsStay(boot: Sys, es: seq<Event>, later: seq<Event>, t: nat, va: nat)
    requires Boot(boot) && Accepted(boot, es) && Accepted(Run(boot, es), later)
    requires t < |Run(boot, es).mms| && va < VA_LIMIT && Run(boot, es).ph.Wf() && WalkOf(Run(boot, es), t, va) != 0
    ensures var s := Run(Run(boot, es), later);
      s.ph.Wf() && t < |s.mms| && WalkOf(s, t, va) == WalkOf(Run(boot, es), t, va)
  {
    BootInv(boot);
    var s1 := Run(boot, es);
    var role := RunKeeps(boot, seq(PAGING_PAGES, _ => Free), es);
    var page := WalkOf(s1, t, va);
    WalkIsAt(s1, t, va);
    NodeOwned(s1, role, t, 4, va / 4096, {});
    var role' := NodeStays(s1, role, later, FrameOf(page));
    PlacedIsSeen(Run(s1, later), role', t, va, FrameOf(page));
  }

  lemma PlacedIsSeen(sys: Sys, role: seq<Role>, t: nat, va: nat, f: nat)
    requires Inv(sys, role) && f < PAGING_PAGES && role[f] == Node(t, 4, va / 4096) && va < VA_LIMIT
    ensures t < |sys.mms| && WalkOf(sys, t, va) == FrameAddr(f)
  {
    assert Placed(sys.ph.mem, sys.mms, role[f], f);
    WalkIsAt(sys, t, va);
  }

  /** The bytes of `page`, which are `words` now, after its owner's stores in `es`. */
  function AfterStores(page: nat, es: seq<Event>, words: Page): Page {
    if es == [] then words
    else AfterStores(page, es[1..], AfterEvent(page, es[0], words))
  }

  function AfterEvent(page: nat, e: Event, words: Page): Page {
    if e.KernelStore? && e.page == page && e.slot < 512 then words[e.slot := e.word] else words
  }

  /** A page that is handed out and not mapped stays so until it is freed, and only its
      owner's stores change its bytes. */
  lemma {:induction false} HeldStays(sys: Sys, role: seq<Role>, es: seq<Event>, f: nat) returns (role': seq<Role>)
    requires Inv(sys, role) && Accepted(sys, es) && f < PAGING_PAGES && role[f] == Held
    requires KernelFree(FrameAddr(f)) !in es
    ensures Inv(Run(sys, es), role') && role'[f] == Held
    ensures Run(sys, es).ph.mem[f] == AfterStores(FrameAddr(f), es, sys.ph.mem[f])
    decreases |es|
  {
    if es == [] {
      role' := role;
    } else {
      var role1 := StepKeeps(sys, role, es[0]);
      HeldBytes(sys, role, es[0], role1, f);
      role' := HeldStays(Step(sys, es[0]).0, role1, es[1..], f);
    }
  }

  lemma HeldBytes(sys: Sys, role: seq<Role>, e: Event, role': seq<Role>, f: nat)
    requires Inv(sys, role) && Enabled(sys, e) && f < PAGING_PAGES && role[f] == Held
    requires UsesKept(sys, role, Step(sys, e).0, role', Freed(e), Written(sys, e))
    ensures Step(sys, e).0.ph.mem[f] == AfterEvent(FrameAddr(f), e, sys.ph.mem[f])
  {
    HeldNotStoredTo(sys, role, e, f);
    if Written(sys, e) != FrameAddr(f) {
      assert Precious(role[f]);
    }
  }

  lemma HeldNotStoredTo(sys: Sys, role: seq<Role>, e: Event, f: nat)
    requires Inv(sys, role) && Enabled(sys, e) && f < PAGING_PAGES && role[f] == Held
    ensures e.Store? ==> Written(sys, e) != FrameAddr(f)
  {
    if e.Store? {
      WalkIsAt(sys, e.task, e.va);
      NodeOwned(sys, role, e.task, 4, e.va / 4096, {});
    }
  }

  lemma HeldIsUnlisted(sys: Sys, role: seq<Role>, f: nat)
    requires Inv(sys, role) && f < PAGING_PAGES && role[f] == Held
    ensures Marked(sys.ph, FrameAddr(f)) && !InSomeList(sys, FrameAddr(f))
  {
    forall t: nat | t < |sys.mms|
      ensures !InListsOf(sys.mms[t], FrameAddr(f))
    {
      assert TaskOk(sys.mms[t], t, role, {});
      forall i | 0 <= i < |sys.mms[t].Users()|
        ensures sys.mms[t].Users()[i].physAddr != FrameAddr(f)
      {
        assert UserOk(sys.mms[t].Users()[i], t, role);
      }
    }
  }

  /** `s` has handed out `page`, which nobody but its holder can reach, and which holds
      `words`. */
  ghost predicate Exclusive(s: Sys, page: nat, words: Page) {
    && Marked(s.ph, page) && !InSomeList(s, page) && GetFreePage(s.ph).1 != page
    && s.ph.mem[FrameOf(page)] == words
  }

  lemma HeldIsExclusive(s: Sys, role: seq<Role>, f: nat)
    requires Inv(s, role) && f < PAGING_PAGES && role[f] == Held
    ensures Exclusive(s, FrameAddr(f), s.ph.mem[f])
  {
    HeldIsUnlisted(s, role, f);
    var role' := TakeKeeps(s, role, 0, {});
  }

  /** A kernel page belongs to its owner until it is freed: whatever runs in between, it is
      marked, in no task's lists and not handed out again, and its bytes are the zeros it came
      with, changed by its owner's stores and by nothing else. */
  lemma KernelPageIsExclusive(boot: Sys, es: seq<Event>, s: Sys, s1: Sys, page: nat, later: seq<Event>)
    requires Boot(boot) && Accepted(boot, es) && s == Run(boot, es) && s.ph.Wf()
    requires (s1.ph, page) == GetFreePage(s.ph) && s1.mms == s.mms && page != 0
    requires Accepted(s1, later) && KernelFree(page) !in later
    ensures Exclusive(Run(s1, later), page, AfterStores(page, later, ZeroPage()))
  {
    BootInv(boot);
    var role := RunKeeps(boot, seq(PAGING_PAGES, _ => Free), es);
    var role1 := TakeKeeps(s, role, 0, {});
    assert s1 == Sys(s1.ph, s.mms);
    assert s1.ph.mem[FrameOf(page)] == ZeroPage();
    var role2 := HeldStays(s1, role1, later, FrameOf(page));
    HeldIsExclusive(Run(s1, later), role2, FrameOf(page));
  }

  // ---- A run that maps a page -------------------------------------------------------

  lemma ManyFree(sys: Sys)
    requires Boot(sys)
    ensures FreeCount(sys.ph) >= 9
  {
    var nine: set<nat> := {0, 1, 2, 3, 4, 5, 6, 7, 8};
    assert |nine| == 9;
    assert nine <= FreeSet(sys.ph.memMap);
    SubsetSize(nine, FreeSet(sys.ph.memMap));
  }

  lemma FirstEvent(s: Sys, e: Event, s1: Sys, es: seq<Event>)
    requires Enabled(s, e) && Step(s, e) == (s1, true) && Accepted(s1, es)
    ensures Accepted(s, [e] + es) && Run(s, [e] + es) == Run(s1, es)
  {
    assert ([e] + es)[1..] == es;
  }

  lemma TwoEvents(s: Sys, e: Event, s1: Sys, e': Event, s2: Sys)
    requires Enabled(s, e) && Step(s, e) == (s1, true) && Enabled(s1, e') && Step(s1, e') == (s2, true)
    ensures Accepted(s, [e, e']) && Run(s, [e, e']) == s2
  {
    FirstEvent(s1, e', s2, []);
    FirstEvent(s, e, s1, [e'] + []);
    assert [e] + ([e'] + []) == [e, e'];
  }

  lemma EmptyTaskFits(s: Sys, va: nat)
    requires s.ph.Wf() && s.mms == [EmptyMm()] && va < VA_LIMIT && FreeCount(s.ph) >= 5
    ensures SufficesWithPage(s, 0, va)
  {
  }

  lemma EmptyTaskReady(s: Sys, va: nat)
    requires s.ph.Wf() && s.mms == [EmptyMm()] && va < VA_LIMIT && va % 4096 == 0 && WalkOf(s, 0, va) == 0
    ensures Enabled(s, UserAlloc(0, va))
  {
  }

  lemma EmptyTaskSeesNothing(sys: Sys, va: nat)
    requires sys.ph.Wf() && sys.mms == [EmptyMm()] && va < VA_LIMIT
    ensures WalkOf(sys, 0, va) == 0 && forall l: nat :: l <= 4 ==> OnWay(sys, 0, va, l) == 0
  {
    forall l: nat | l <= 4
      ensures OnWay(sys, 0, va, l) == 0
    {
      PrefixBound(va, l);
      NoBaseNoNode(sys.ph.mem, l, Prefix(va, l));
    }
    WalkIsLookup(sys.ph.mem, 0, va);
  }

  lemma FirstAlloc(s: Sys, role: seq<Role>, va: nat)
    requires InvFor(s, role, 0, {}) && s.mms == [EmptyMm()] && va < VA_LIMIT && va % 4096 == 0
    requires FreeCount(s.ph) >= 5 && forall l: nat :: l <= 4 ==> OnWay(s, 0, va, l) == 0
    ensures var (ph, mm, a) := AllocateUserPage(s.ph, s.mms[0], va);
      && a.Got? && ph.Wf() && WalkOf(Sys(ph, s.mms[0 := mm]), 0, va) != 0
      && mm.userPagesCount == 1 && mm.kernelPagesCount == 4 && FreeCount(ph) + 5 == FreeCount(s.ph)
  {
    EmptyTaskFits(s, va);
    assert Missing(s, 0, va) == 4;
    var role' := AllocateUserPageCorrect(s, role, 0, va);
    var (ph, mm, a) := AllocateUserPage(s.ph, s.mms[0], va);
    AllocSeen(s, role, Sys(ph, s.mms[0 := mm]), role', 0, va, a.page, va);
  }

  /** The states after a new task's first page. */
  lemma FirstStates(boot: Sys, va: nat) returns (s1: Sys, s2: Sys)
    requires Boot(boot) && va < VA_LIMIT && va % 4096 == 0
    ensures Enabled(boot, NewTask) && Step(boot, NewTask) == (s1, true)
    ensures Enabled(s1, UserAlloc(0, va)) && Step(s1, UserAlloc(0, va)) == (s2, true)
    ensures s2.ph.Wf() && |s2.mms| == 1 && WalkOf(s2, 0, va) != 0
    ensures s2.mms[0].userPagesCount == 1 && s2.mms[0].kernelPagesCount == 4 && FreeCount(s2.ph) >= 4
  {
    BootInv(boot);
    var role := seq(PAGING_PAGES, _ => Free);
    s1 := Sys(boot.ph, boot.mms + [EmptyMm()]);
    NewTaskKeeps(boot, role);
    EmptyTaskSeesNothing(s1, va);
    ManyFree(boot);
    InvIsInvFor(s1, role, 0);
    EmptyTaskReady(s1, va);
    FirstAlloc(s1, role, va);
    var (ph, mm, a) := AllocateUserPage(s1.ph, s1.mms[0], va);
    s2 := Sys(ph, s1.mms[0 := mm]);
  }

  /** The events are not idle: from boot, a new task can be given a page at any aligned
      address, and then sees it there. */
  lemma FirstPage(boot: Sys, va: nat)
    requires Boot(boot) && va < VA_LIMIT && va % 4096 == 0
    ensures Accepted(boot, [NewTask, UserAlloc(0, va)])
    ensures var s := Run(boot, [NewTask, UserAlloc(0, va)]);
      s.ph.Wf() && |s.mms| == 1 && WalkOf(s, 0, va) != 0
  {
    var s1, s2 := FirstStates(boot, va);
    TwoEvents(boot, NewTask, s1, UserAlloc(0, va), s2);
  }

  lemma FirstFaultServed(s: Sys, role: seq<Role>, addr: Word, esr: nat)
    requires InvFor(s, role, 0, {}) && s.mms == [EmptyMm()] && addr < VA_LIMIT
    requires FreeCount(s.ph) > 0 && SufficesWithPage(s, 0, PageBase(addr)) && WalkOf(s, 0, addr) == 0
    ensures Enabled(s, Fault(0, addr, esr)) && Step(s, Fault(0, addr, esr)).1
    ensures var s' := Step(s, Fault(0, addr, esr)).0;
      s'.ph.Wf() && |s'.mms| == 1 && (WalkOf(s', 0, addr) != 0 <==> 4 <= esr % 64 <= 7)
  {
    var role' := DoMemAbortCorrect(s, role, 0, addr, esr);
  }

  /** Nor is the fault handler: from boot, a new task that touches any address of its own gets a
      page there if and only if the status is a translation fault, 4 to 7. */
  lemma FirstFault(boot: Sys, addr: Word, esr: nat)
    requires Boot(boot) && addr < VA_LIMIT
    ensures Accepted(boot, [NewTask, Fault(0, addr, esr)])
    ensures var s := Run(boot, [NewTask, Fault(0, addr, esr)]);
      s.ph.Wf() && |s.mms| == 1 && (WalkOf(s, 0, addr) != 0 <==> 4 <= esr % 64 <= 7)
  {
    BootInv(boot);
    var role := seq(PAGING_PAGES, _ => Free);
    var s1 := Sys(boot.ph, boot.mms + [EmptyMm()]);
    NewTaskKeeps(boot, role);
    EmptyTaskSeesNothing(s1, addr);
    ManyFree(boot);
    InvIsInvFor(s1, role, 0);
    EmptyTaskFits(s1, PageBase(addr));
    FirstFaultServed(s1, role, addr, esr);
    var (ph, mm, a) := DoMemAbort(s1.ph, s1.mms[0], addr, esr);
    TwoEvents(boot, NewTask, s1, Fault(0, addr, esr), Sys(ph, s1.mms[0 := mm]));
  }

  // ---- A fork that returns 0 without a child ----------------------------------------

  lemma AllocEnabled(sys: Sys, role: seq<Role>)
    requires Inv(sys, role)
    ensures Enabled(sys, KernelAlloc)
  {
    forall t: nat | t < |sys.mms|
      ensures sys.mms[t].Wf() && (sys.mms[t].pgd == 0 || InPool(sys.mms[t].pgd))
    {
      PgdInPool(sys, role, t, 0, {});
    }
  }

  /** Any number of free pages can be handed out to the kernel. */
  lemma {:induction false} PagesRunDown(sys: Sys, role: seq<Role>, m: nat) returns (role': seq<Role>)
    requires Inv(sys, role) && m <= FreeCount(sys.ph)
    ensures var es := seq(m, _ => KernelAlloc);
      && Accepted(sys, es) && Inv(Run(sys, es), role') && Run(sys, es).mms == sys.mms
      && FreeCount(Run(sys, es).ph) + m == FreeCount(sys.ph)
    decreases m
  {
    role' := role;
    if m > 0 {
      var role1 := TakeKeeps(sys, role, 0, {});
      var sys1 := Sys(GetFreePage(sys.ph).0, sys.mms);
      AllocEnabled(sys, role);
      role' := PagesRunDown(sys1, role1, m - 1);
      FirstEvent(sys, KernelAlloc, sys1, seq(m - 1, _ => KernelAlloc));
      assert [KernelAlloc] + seq(m - 1, _ => KernelAlloc) == seq(m, _ => KernelAlloc);
    }
  }

  lemma NeedsNone(us: seq<UserPage>)
    ensures Needs(us, 0) == 0
  {
    assert Vas(us[..0]) == {};
    assert NodesOf({}) == {};
  }

  /** With one page and four tables, and four free pages, the copy of the page gets its page
      and three tables. The fork returns 0 all the same. */
  lemma FourPagesShort(sys: Sys, role: seq<Role>)
    requires Inv(sys, role) && |sys.mms| == 2 && sys.mms[1] == EmptyMm() && FreeCount(sys.ph) == 4
    requires sys.mms[0].userPagesCount == 1 && sys.mms[0].kernelPagesCount == 4
    ensures sys.mms[0].Wf()
    ensures var (ph', dst', res) := CopyFrom(sys.ph, sys.mms[0], sys.mms[1], 0);
      res.Wrecked? && FreeCount(ph') == 0 && ReturnValue(res, dst'.userPagesCount, 1, FreeCount(ph')) == 0
  {
    ForkReturns(sys, role, 0, 1);
    NeedsNone(sys.mms[0].Users());
  }

  /** A new task, and the kernel takes all pages but four. */
  lemma ShortOfPages(sys: Sys, role: seq<Role>) returns (es: seq<Event>, role': seq<Role>)
    requires Inv(sys, role) && FreeCount(sys.ph) >= 4
    ensures Accepted(sys, es) && Inv(Run(sys, es), role')
    ensures Run(sys, es).mms == sys.mms + [EmptyMm()] && FreeCount(Run(sys, es).ph) == 4
  {
    var sys1, m := Sys(sys.ph, sys.mms + [EmptyMm()]), FreeCount(sys.ph) - 4;
    NewTaskKeeps(sys, role);
    AllocEnabled(sys, role);
    role' := PagesRunDown(sys1, role, m);
    FirstEvent(sys, NewTask, sys1, seq(m, _ => KernelAlloc));
    es := [NewTask] + seq(m, _ => KernelAlloc);
  }

  /** This is reached from boot: a task with one page, memory used up but for four pages, and a
      new task to fork into. */
  lemma OnePageFork(boot: Sys, va: nat) returns (es: seq<Event>)
    requires Boot(boot) && va < VA_LIMIT && va % 4096 == 0
    ensures Accepted(boot, es)
    ensures var s := Run(boot, es);
      && |s.mms| == 2 && Enabled(s, Fork(0, 1)) && s.mms[0].userPagesCount == 1
      && var (ph', dst', res) := CopyFrom(s.ph, s.mms[0], s.mms[1], 0);
         res.Wrecked? && FreeCount(ph') == 0 && ReturnValue(res, dst'.userPagesCount, 1, FreeCount(ph')) == 0
  {
    BootInv(boot);
    var s1, s2 := FirstStates(boot, va);
    var role1 := StepKeeps(boot, seq(PAGING_PAGES, _ => Free), NewTask);
    var role2 := StepKeeps(s1, role1, UserAlloc(0, va));
    var rest, role := ShortOfPages(s2, role2);
    FirstEvent(s1, UserAlloc(0, va), s2, rest);
    FirstEvent(boot, NewTask, s1, [UserAlloc(0, va)] + rest);
    es := [NewTask] + ([UserAlloc(0, va)] + rest);
    var s := Run(boot, es);
    assert s == Run(s2, rest) && s.mms == s2.mms + [EmptyMm()];
    AllocEnabled(s, role);
    FourPagesShort(s, role);
  }
}
