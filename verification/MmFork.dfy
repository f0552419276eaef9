/** `copy_virt_memory`: a fork copies every page of the parent into fresh pages of the child
    exactly when there are as many free pages as the parent has pages and tables; what it
    returns depends on less. */
module MmFork {
  import opened PageTables
  import opened MmSpec
  import opened MmInvariant
  import opened MmOwnership
  import opened MmMapping
  import opened MmCalls
  import opened MmShadow

  // ---- Writing to user pages --------------------------------------------------------

  /** Only user pages and held pages differ in content. */
  ghost predicate SameExceptPrecious(mem: seq<Page>, mem': seq<Page>, role: seq<Role>) {
    && |mem| == PAGING_PAGES && |mem'| == PAGING_PAGES && |role| == PAGING_PAGES
    && forall f: nat :: f < PAGING_PAGES && !Precious(role[f]) ==> mem'[f] == mem[f]
  }

  lemma WriteKeeps(sys: Sys, mem': seq<Page>, role: seq<Role>, t: nat)
    requires InvFor(sys, role, t, {}) && SameExceptPrecious(sys.ph.mem, mem', role)
    ensures InvFor(Sys(Phys(sys.ph.memMap, mem'), sys.mms), role, t, {})
    ensures LookupsPlus(sys.ph.mem, sys.mms, mem', sys.mms, Free, 0)
  {
    Frame(sys.ph.mem, mem', sys.mms, role);
  }

  // ---- The loop ---------------------------------------------------------------------

  /** Pages taken for the first `i` addresses: one each, and their tables. */
  ghost function Needs(us: seq<UserPage>, i: nat): nat
    requires i <= |us|
  {
    i + |NodesOf(Vas(us[..i]))|
  }

  lemma VasStep(us: seq<UserPage>, i: nat)
    requires i < |us|
    ensures Vas(us[..i + 1]) == Vas(us[..i]) + {us[i].virtAddr}
  {
  }

  lemma {:induction false} NeedsMonotone(us: seq<UserPage>, i: nat, j: nat)
    requires i <= j <= |us|
    ensures Needs(us, i) + (j - i) <= Needs(us, j)
    decreases j - i
  {
    if i < j {
      NeedsMonotone(us, i + 1, j);
      VasStep(us, i);
      NodesOfMonotone(Vas(us[..i]), Vas(us[..i + 1]));
    }
  }

  /** The copy `v` has the address and the bytes of `u`, and its page was free. */
  ghost predicate CopyOf(mem0: seq<Page>, role0: seq<Role>, mem: seq<Page>, role: seq<Role>, u: UserPage,
      v: UserPage, d: nat)
    requires |mem0| == PAGING_PAGES && |mem| == PAGING_PAGES && |role0| == PAGING_PAGES && |role| == PAGING_PAGES
  {
    && v.virtAddr == u.virtAddr && InPool(u.physAddr) && InPool(v.physAddr)
    && mem[FrameOf(v.physAddr)] == mem0[FrameOf(u.physAddr)]
    && role0[FrameOf(v.physAddr)] == Free
    && role[FrameOf(v.physAddr)] == Node(d, 4, v.virtAddr / 4096)
  }

  ghost predicate Copies(
      mem0: seq<Page>, role0: seq<Role>, mem: seq<Page>, role: seq<Role>, us: seq<UserPage>, vs: seq<UserPage>, d: nat)
  {
    && |mem0| == PAGING_PAGES && |mem| == PAGING_PAGES && |role0| == PAGING_PAGES && |role| == PAGING_PAGES
    && |vs| <= |us| && forall k :: 0 <= k < |vs| ==> CopyOf(mem0, role0, mem, role, us[k], vs[k], d)
  }

  ghost predicate BystandersKept(sys0: Sys, sys: Sys, d: nat) {
    && sys0.ph.Wf() && sys.ph.Wf() && |sys.mms| == |sys0.mms|
    && (forall u: nat :: u < |sys.mms| && u != d ==> sys.mms[u] == sys0.mms[u])
    && forall u: nat, p: nat :: u != d && IsNode(sys0.mms, u, 4, p)
         ==> At(sys.ph.mem, sys.mms, u, 4, p) == At(sys0.ph.mem, sys0.mms, u, 4, p)
  }

  ghost predicate BytesKept(mem0: seq<Page>, role0: seq<Role>, mem: seq<Page>, role: seq<Role>) {
    && |mem0| == PAGING_PAGES && |mem| == PAGING_PAGES && |role0| == PAGING_PAGES && |role| == PAGING_PAGES
    && (forall f: nat :: f < PAGING_PAGES && role0[f] != Free ==> role[f] == role0[f])
    && (forall f: nat :: f < PAGING_PAGES && Precious(role0[f]) ==> mem[f] == mem0[f])
  }

  ghost predicate Start(sys0: Sys, role0: seq<Role>, c: nat, d: nat) {
    Inv(sys0, role0) && c < |sys0.mms| && d < |sys0.mms| && c != d && sys0.mms[c].Wf()
  }

  /** After `i` rounds: every bystander is as before, and the child has fresh copies of the
      first `i` pages. */
  ghost predicate CopyInv(sys0: Sys, role0: seq<Role>, sys: Sys, role: seq<Role>, c: nat, d: nat, i: nat) {
    && Start(sys0, role0, c, d) && InvFor(sys, role, d, {})
    && BystandersKept(sys0, sys, d)
    && BytesKept(sys0.ph.mem, role0, sys.ph.mem, role)
    && sys.mms[d].Wf() && sys.mms[d].userPagesCount == i <= sys0.mms[c].userPagesCount
    && Copies(sys0.ph.mem, role0, sys.ph.mem, role, sys0.mms[c].Users(), sys.mms[d].Users(), d)
    && FreeCount(sys.ph) + Needs(sys0.mms[c].Users(), i) == FreeCount(sys0.ph)
  }

  // ---- What round i finds -----------------------------------------------------------

  lemma CopiesVas(mem0: seq<Page>, role0: seq<Role>, mem: seq<Page>, role: seq<Role>, us: seq<UserPage>,
      vs: seq<UserPage>, d: nat)
    requires Copies(mem0, role0, mem, role, us, vs, d)
    ensures forall k :: 0 <= k < |vs| ==> vs[k].virtAddr == us[k].virtAddr
    ensures Vas(vs) == Vas(us[..|vs|])
  {
  }

  /** List slots never run out: the child needs no more tables than the parent has. */
  lemma CountsFit(sys0: Sys, role0: seq<Role>, sys: Sys, role: seq<Role>, c: nat, d: nat, i: nat)
    requires CopyInv(sys0, role0, sys, role, c, d, i)
    ensures sys.mms[d].kernelPagesCount == |NodesOf(Vas(sys0.mms[c].Users()[..i]))|
    ensures sys0.mms[c].kernelPagesCount == |NodesOf(Vas(sys0.mms[c].Users()))|
    ensures Vas(sys.mms[d].Users()) == Vas(sys0.mms[c].Users()[..i])
  {
    CopiesVas(sys0.ph.mem, role0, sys.ph.mem, role, sys0.mms[c].Users(), sys.mms[d].Users(), d);
    TableCount(sys, role, d, d);
    TableCount(sys0, role0, 0, c);
  }

  lemma WholePrefix(us: seq<UserPage>, n: nat)
    requires n == |us|
    ensures us[..n] == us
  {
  }

  lemma PrefixNodes(us: seq<UserPage>, i: nat)
    requires i <= |us|
    ensures |NodesOf(Vas(us[..i]))| <= |NodesOf(Vas(us))|
  {
    VasGrow(us[..i], us);
    NodesOfMonotone(Vas(us[..i]), Vas(us));
  }

  lemma NodesAfterRound(us: seq<UserPage>, i: nat, vas: set<nat>, va: nat, own: nat, missing: nat, all: nat)
    requires i < |us| && va == us[i].virtAddr && vas == Vas(us[..i])
    requires |NodesOf(vas + {va})| == own + missing && all == |NodesOf(Vas(us))|
    ensures |NodesOf(Vas(us[..i + 1]))| == own + missing <= all
  {
    VasStep(us, i);
    PrefixNodes(us, i + 1);
  }

  lemma RoundNodes(sys0: Sys, role0: seq<Role>, sys: Sys, role: seq<Role>, c: nat, d: nat, i: nat, va: nat)
    requires CopyInv(sys0, role0, sys, role, c, d, i) && i < sys0.mms[c].userPagesCount
    requires va == sys0.mms[c].Users()[i].virtAddr && va < VA_LIMIT
    ensures var n := |NodesOf(Vas(sys0.mms[c].Users()[..i + 1]))|;
      n == sys.mms[d].kernelPagesCount + Missing(sys, d, va) && n <= sys0.mms[c].kernelPagesCount
  {
    var vas := Vas(sys.mms[d].Users());
    CountsFit(sys0, role0, sys, role, c, d, i);
    MissingIsNewNodes(sys, role, d, d, va);
    NodesAfterRound(sys0.mms[c].Users(), i, vas, va, sys.mms[d].kernelPagesCount, Missing(sys, d, va),
                    sys0.mms[c].kernelPagesCount);
  }

  /** Whether round `i` finds its pages. */
  lemma RoundSuffices(sys0: Sys, role0: seq<Role>, sys: Sys, role: seq<Role>, c: nat, d: nat, i: nat, va: nat)
    requires CopyInv(sys0, role0, sys, role, c, d, i) && i < sys0.mms[c].userPagesCount
    requires va == sys0.mms[c].Users()[i].virtAddr && va < VA_LIMIT
    ensures SlotsSuffice(sys, d, va)
    ensures SufficesWithPage(sys, d, va) <==> Needs(sys0.mms[c].Users(), i + 1) <= FreeCount(sys0.ph)
    ensures Needs(sys0.mms[c].Users(), i) + 1 + Missing(sys, d, va) == Needs(sys0.mms[c].Users(), i + 1)
  {
    CountsFit(sys0, role0, sys, role, c, d, i);
    RoundNodes(sys0, role0, sys, role, c, d, i, va);
    RoundArithmetic(sys, d, va, sys0.mms[c].Users(), i, FreeCount(sys0.ph));
  }

  lemma RoundArithmetic(sys: Sys, d: nat, va: nat, us: seq<UserPage>, i: nat, free: nat)
    requires sys.ph.Wf() && d < |sys.mms| && va < VA_LIMIT && i < |us| <= MAX_PROCESS_PAGES
    requires FreeCount(sys.ph) + Needs(us, i) == free && sys.mms[d].userPagesCount == i
    requires |NodesOf(Vas(us[..i]))| == sys.mms[d].kernelPagesCount
    requires |NodesOf(Vas(us[..i + 1]))| == sys.mms[d].kernelPagesCount + Missing(sys, d, va) < MAX_PROCESS_PAGES
    ensures SlotsSuffice(sys, d, va)
    ensures SufficesWithPage(sys, d, va) <==> Needs(us, i + 1) <= free
    ensures Needs(us, i) + 1 + Missing(sys, d, va) == Needs(us, i + 1)
  {
  }

  lemma UnlistedIsUnmapped(sys: Sys, role: seq<Role>, d: nat, va: nat)
    requires InvFor(sys, role, d, {}) && d < |sys.mms| && va < VA_LIMIT && va % 4096 == 0 && sys.mms[d].Wf()
    requires forall page :: UserPage(page, va) !in sys.mms[d].Users()
    ensures OnWay(sys, d, va, 4) == 0
  {
    var p := va / 4096;
    assert va == p * 4096;
    LeafIsNode(sys.mms, d, va);
    if OnWay(sys, d, va, 4) != 0 {
      SeenIffListed(sys, role, d, p, OnWay(sys, d, va, 4));
    }
  }

  /** The child's address of round `i` is still unmapped. */
  lemma RoundUnmapped(sys0: Sys, role0: seq<Role>, sys: Sys, role: seq<Role>, c: nat, d: nat, i: nat, va: nat)
    requires CopyInv(sys0, role0, sys, role, c, d, i) && i < sys0.mms[c].userPagesCount
    requires va == sys0.mms[c].Users()[i].virtAddr && va < VA_LIMIT && va % 4096 == 0
    ensures OnWay(sys, d, va, 4) == 0
  {
    UsersListed(sys0, role0, 0, c);
    CopiesVas(sys0.ph.mem, role0, sys.ph.mem, role, sys0.mms[c].Users(), sys.mms[d].Users(), d);
    NotYetListed(sys0.mms[c].Users(), c, role0, sys.mms[d].Users());
    UnlistedIsUnmapped(sys, role, d, va);
  }

  lemma NotYetListed(us: seq<UserPage>, c: nat, role0: seq<Role>, vs: seq<UserPage>)
    requires |role0| == PAGING_PAGES && UserListOk(us, c, role0) && |vs| < |us|
    requires forall k :: 0 <= k < |vs| ==> vs[k].virtAddr == us[k].virtAddr
    ensures forall page :: UserPage(page, us[|vs|].virtAddr) !in vs
  {
  }

  // ---- One round --------------------------------------------------------------------

  /** The read through the current task's tables reaches the listed page. */
  lemma RoundReads(sys0: Sys, role0: seq<Role>, sys: Sys, sys1: Sys, role1: seq<Role>, c: nat, d: nat, i: nat)
    requires Start(sys0, role0, c, d) && i < sys0.mms[c].userPagesCount
    requires InvFor(sys1, role1, d, {}) && |sys1.mms| == |sys0.mms| && sys1.mms[c] == sys0.mms[c]
    ensures var u := sys0.mms[c].Users()[i];
      && InPool(u.physAddr) && u.virtAddr < VA_LIMIT && u.virtAddr % 4096 == 0
      && Precious(role0[FrameOf(u.physAddr)])
      && Walk(sys1.ph.mem, sys0.mms[c].pgd, u.virtAddr) == u.physAddr
  {
    ListedIsMapped(sys0, role0, 0, c, i);
    ListedIsMapped(sys1, role1, d, c, i);
  }

  lemma CopyPageKeeps(sys: Sys, role: seq<Role>, from: nat, to: nat, t: nat)
    requires InvFor(sys, role, t, {}) && InPool(from) && InPool(to) && Precious(role[FrameOf(to)])
    ensures InvFor(Sys(CopyPage(sys.ph, from, to), sys.mms), role, t, {})
    ensures LookupsPlus(sys.ph.mem, sys.mms, CopyPage(sys.ph, from, to).mem, sys.mms, Free, 0)
  {
    WriteKeeps(sys, CopyPage(sys.ph, from, to).mem, role, t);
  }

  lemma RoundBystanders(sys0: Sys, sys: Sys, sys1: Sys, sys2: Sys, d: nat, va: nat, page: nat)
    requires BystandersKept(sys0, sys, d) && OnlyMaps(sys, sys1, d, va, page)
    requires forall u: nat :: u < |sys.mms| && u != d ==> sys1.mms[u] == sys.mms[u]
    requires sys2.ph.Wf() && sys2.mms == sys1.mms
    requires LookupsPlus(sys1.ph.mem, sys1.mms, sys2.ph.mem, sys1.mms, Free, 0)
    ensures BystandersKept(sys0, sys2, d)
  {
    forall u: nat, p: nat | u != d && IsNode(sys0.mms, u, 4, p)
      ensures At(sys2.ph.mem, sys2.mms, u, 4, p) == At(sys0.ph.mem, sys0.mms, u, 4, p)
    {
      assert IsNode(sys.mms, u, 4, p) && IsNode(sys1.mms, u, 4, p);
      assert LookupPlus(sys1.ph.mem, sys1.mms, sys2.ph.mem, sys1.mms, Free, 0, u, 4, p);
    }
  }

  lemma RoundBytes(mem0: seq<Page>, role0: seq<Role>, sys: Sys, role: seq<Role>, sys1: Sys, role1: seq<Role>,
      t: nat, va: nat, page: nat, from: nat)
    requires BytesKept(mem0, role0, sys.ph.mem, role) && AllocRoles(sys, role, sys1, role1, t, va, page) && InPool(from)
    ensures BytesKept(mem0, role0, CopyPage(sys1.ph, from, page).mem, role1)
    ensures role0[FrameOf(page)] == Free
  {
  }

  /** Copies made in earlier rounds stay, and the new page is one more. */
  lemma RoundCopies(
      mem0: seq<Page>, role0: seq<Role>, sys: Sys, role: seq<Role>, sys1: Sys, role1: seq<Role>,
      us: seq<UserPage>, vs: seq<UserPage>, d: nat, page: nat)
    requires Copies(mem0, role0, sys.ph.mem, role, us, vs, d) && |vs| < |us|
    requires BytesKept(mem0, role0, sys.ph.mem, role)
    requires AllocRoles(sys, role, sys1, role1, d, us[|vs|].virtAddr, page)
    requires InPool(us[|vs|].physAddr) && Precious(role0[FrameOf(us[|vs|].physAddr)])
    ensures Copies(mem0, role0, CopyPage(sys1.ph, us[|vs|].physAddr, page).mem, role1,
                   us, vs + [UserPage(page, us[|vs|].virtAddr)], d)
  {
  }

  lemma RoundKeeps(
      sys0: Sys, role0: seq<Role>, sys: Sys, role: seq<Role>, sys1: Sys, role1: seq<Role>,
      c: nat, d: nat, i: nat, u: UserPage, page: nat)
    requires CopyInv(sys0, role0, sys, role, c, d, i) && i < sys0.mms[c].userPagesCount && u == sys0.mms[c].Users()[i]
    requires InvFor(sys1, role1, d, {})
    requires u.virtAddr < VA_LIMIT && InPool(u.physAddr) && Precious(role0[FrameOf(u.physAddr)])
    requires AllocOk(sys, role, sys1, role1, d, u.virtAddr, page)
    ensures CopyInv(sys0, role0, Sys(CopyPage(sys1.ph, u.physAddr, page), sys1.mms), role1, c, d, i + 1)
  {
    var us, vs, sys2 := sys0.mms[c].Users(), sys.mms[d].Users(), Sys(CopyPage(sys1.ph, u.physAddr, page), sys1.mms);
    assert Precious(role1[FrameOf(page)]);
    CopyPageKeeps(sys1, role1, u.physAddr, page, d);
    RoundBystanders(sys0, sys, sys1, sys2, d, u.virtAddr, page);
    RoundBytes(sys0.ph.mem, role0, sys, role, sys1, role1, d, u.virtAddr, page, u.physAddr);
    RoundCopies(sys0.ph.mem, role0, sys, role, sys1, role1, us, vs, d, page);
    RoundSuffices(sys0, role0, sys, role, c, d, i, u.virtAddr);
    assert FreeSet(sys2.ph.memMap) == FreeSet(sys1.ph.memMap);
  }

  // ---- copy_virt_memory -------------------------------------------------------------

  /** How the loop ends with `free` free pages at its start: after `k` rounds, with `left` free
      pages. It is refused in the round that finds no page at all, and goes wrong in the round
      that finds its page but not all its tables. */
  ghost predicate EndsAfter(us: seq<UserPage>, free: nat, k: nat, res: Copied, left: nat) {
    match res
    case Done => k == |us| && Needs(us, k) <= free
    case Refused => k < |us| && free == Needs(us, k)
    case Wrecked(_) => k < |us| && Needs(us, k) < free < Needs(us, k + 1) && left == 0
    case SourceFault => false
  }

  ghost predicate CopyResult(sys0: Sys, role0: seq<Role>, c: nat, d: nat, ph': Phys, dst': MmStruct,
      res: Copied, role': seq<Role>)
    requires Start(sys0, role0, c, d)
  {
    && EndsAfter(sys0.mms[c].Users(), FreeCount(sys0.ph), dst'.userPagesCount, res, FreeCount(ph'))
    && (res == Done || res == Refused ==>
          CopyInv(sys0, role0, Sys(ph', sys0.mms[d := dst']), role', c, d, dst'.userPagesCount))
  }

  /** So the rounds succeed, all of them, exactly when the free pages cover what all need. */
  lemma DoneIffCovered(us: seq<UserPage>, free: nat, k: nat, res: Copied, left: nat)
    requires EndsAfter(us, free, k, res, left)
    ensures res == Done <==> Needs(us, |us|) <= free
  {
    NeedsMonotone(us, k, |us|);
    if k < |us| {
      NeedsMonotone(us, k + 1, |us|);
    }
  }

  lemma OnlyChildDiffers(sys0: Sys, role0: seq<Role>, sys: Sys, role: seq<Role>, c: nat, d: nat, i: nat)
    requires CopyInv(sys0, role0, sys, role, c, d, i)
    ensures sys.mms == sys0.mms[d := sys.mms[d]]
  {
  }

  lemma CopyEnds(sys0: Sys, role0: seq<Role>, sys: Sys, role: seq<Role>, c: nat, d: nat)
    requires d < |sys.mms| && CopyInv(sys0, role0, sys, role, c, d, sys.mms[d].userPagesCount)
    requires sys.mms[d].userPagesCount == sys0.mms[c].userPagesCount
    ensures CopyResult(sys0, role0, c, d, sys.ph, sys.mms[d], Done, role)
  {
    OnlyChildDiffers(sys0, role0, sys, role, c, d, sys.mms[d].userPagesCount);
  }

  lemma CopyRefused(sys0: Sys, role0: seq<Role>, sys: Sys, role: seq<Role>, c: nat, d: nat, i: nat)
    requires CopyInv(sys0, role0, sys, role, c, d, i) && i < sys0.mms[c].userPagesCount && FreeCount(sys.ph) == 0
    ensures CopyResult(sys0, role0, c, d, sys.ph, sys.mms[d], Refused, role)
  {
    OnlyChildDiffers(sys0, role0, sys, role, c, d, i);
  }

  lemma WreckedInRound(us: seq<UserPage>, free: nat, k: nat, why: Outcome, left: nat)
    requires k < |us| && Needs(us, k) < free < Needs(us, k + 1) && left == 0
    ensures EndsAfter(us, free, k, Wrecked(why), left)
  {
  }

  lemma CopyFromUnfold(ph: Phys, src: MmStruct, dst: MmStruct, i: nat)
    requires ph.Wf() && src.Wf() && dst.Wf() && (dst.pgd == 0 || InPool(dst.pgd)) && i < src.userPagesCount
    ensures var u := src.Users()[i];
      var (ph1, dst1, a) := AllocateUserPage(ph, dst, u.virtAddr);
      && (a == NoPage ==> CopyFrom(ph, src, dst, i) == (ph1, dst1, Refused))
      && (a.Broken? ==> CopyFrom(ph, src, dst, i) == (ph1, dst1, Wrecked(a.why)))
      && (a.Got? && Walk(ph1.mem, src.pgd, u.virtAddr) == u.physAddr && InPool(u.physAddr)
            && (dst1.pgd == 0 || InPool(dst1.pgd)) ==>
            CopyFrom(ph, src, dst, i) == CopyFrom(CopyPage(ph1, u.physAddr, a.page), src, dst1, i + 1))
  {
  }

  /** One round: the loop ends in it, or goes on in the state `sys'`. */
  lemma CopyRound(sys0: Sys, role0: seq<Role>, sys: Sys, role: seq<Role>, c: nat, d: nat, i: nat)
      returns (sys': Sys, role': seq<Role>, goesOn: bool)
    requires CopyInv(sys0, role0, sys, role, c, d, i) && i < sys0.mms[c].userPagesCount
    ensures sys.mms[d].pgd == 0 || InPool(sys.mms[d].pgd)
    ensures goesOn ==>
      CopyInv(sys0, role0, sys', role', c, d, i + 1) && (sys'.mms[d].pgd == 0 || InPool(sys'.mms[d].pgd))
    ensures goesOn ==>
      CopyFrom(sys.ph, sys0.mms[c], sys.mms[d], i) == CopyFrom(sys'.ph, sys0.mms[c], sys'.mms[d], i + 1)
    ensures !goesOn ==>
      var (ph', dst', res) := CopyFrom(sys.ph, sys0.mms[c], sys.mms[d], i);
      CopyResult(sys0, role0, c, d, ph', dst', res, role')
  {
    PgdInPool(sys, role, d, d, {});
    RoundReads(sys0, role0, sys, sys, role, c, d, i);
    var u := sys0.mms[c].Users()[i];
    RoundUnmapped(sys0, role0, sys, role, c, d, i, u.virtAddr);
    RoundSuffices(sys0, role0, sys, role, c, d, i, u.virtAddr);
    var role1 := AllocateUserPageCorrect(sys, role, d, u.virtAddr);
    var (ph1, dst1, a) := AllocateUserPage(sys.ph, sys.mms[d], u.virtAddr);
    CopyFromUnfold(sys.ph, sys0.mms[c], sys.mms[d], i);
    goesOn, role', sys' := a.Got?, role, sys;
    if a == NoPage {
      CopyRefused(sys0, role0, sys, role, c, d, i);
    } else if a.Broken? {
      WreckedInRound(sys0.mms[c].Users(), FreeCount(sys0.ph), i, a.why, FreeCount(ph1));
    } else {
      var sys1 := Sys(ph1, sys.mms[d := dst1]);
      RoundReads(sys0, role0, sys, sys1, role1, c, d, i);
      RoundKeeps(sys0, role0, sys, role, sys1, role1, c, d, i, u, a.page);
      PgdInPool(sys1, role1, d, d, {});
      sys', role' := Sys(CopyPage(ph1, u.physAddr, a.page), sys1.mms), role1;
    }
  }

  /** The loop of `copy_virt_memory` from round `i` on. */
  lemma {:induction false} CopyFromCorrect(sys0: Sys, role0: seq<Role>, sys: Sys, role: seq<Role>, c: nat,
      d: nat, i: nat)
      returns (role': seq<Role>)
    requires CopyInv(sys0, role0, sys, role, c, d, i)
    ensures sys.mms[d].pgd == 0 || InPool(sys.mms[d].pgd)
    ensures var (ph', dst', res) := CopyFrom(sys.ph, sys0.mms[c], sys.mms[d], i);
      CopyResult(sys0, role0, c, d, ph', dst', res, role')
    decreases sys0.mms[c].userPagesCount - i
  {
    if i == sys0.mms[c].userPagesCount {
      PgdInPool(sys, role, d, d, {});
      CopyEnds(sys0, role0, sys, role, c, d);
      role' := role;
    } else {
      var sys1, role1, goesOn := CopyRound(sys0, role0, sys, role, c, d, i);
      role' := role1;
      if goesOn {
        role' := CopyFromCorrect(sys0, role0, sys1, role1, c, d, i + 1);
      }
    }
  }

  ghost function WalkOf(sys: Sys, t: nat, va: nat): nat
    requires sys.ph.Wf() && t < |sys.mms|
  {
    Walk(sys.ph.mem, sys.mms[t].pgd, va)
  }

  ghost predicate WasFree(ph: Phys, a: nat) {
    ph.Wf() && InPool(a) && ph.memMap[FrameOf(a)] == 0
  }

  ghost predicate SameBytes(ph: Phys, a: nat, ph': Phys, a': nat) {
    ph.Wf() && ph'.Wf() && InPool(a) && InPool(a') && ph'.mem[FrameOf(a')] == ph.mem[FrameOf(a)]
  }

  /** The child sees at each address a page that was free with the parent's bytes, or like
      the parent nothing. */
  ghost predicate ChildSees(sys: Sys, sys': Sys, c: nat, d: nat, va: nat)
    requires sys.ph.Wf() && sys'.ph.Wf() && c < |sys.mms| && d < |sys'.mms|
  {
    if WalkOf(sys, c, va) == 0 then WalkOf(sys', d, va) == 0
    else
      && WasFree(sys.ph, WalkOf(sys', d, va))
      && SameBytes(sys.ph, WalkOf(sys, c, va), sys'.ph, WalkOf(sys', d, va))
  }

  /** Task `u` translates `va` as before and finds the same bytes there. */
  ghost predicate StillSees(sys: Sys, sys': Sys, u: nat, va: nat)
    requires sys.ph.Wf() && sys'.ph.Wf() && u < |sys.mms| && u < |sys'.mms|
  {
    && WalkOf(sys', u, va) == WalkOf(sys, u, va)
    && (WalkOf(sys, u, va) != 0 ==> SameBytes(sys.ph, WalkOf(sys, u, va), sys'.ph, WalkOf(sys, u, va)))
  }

  ghost predicate Forked(sys: Sys, sys': Sys, c: nat, d: nat)
    requires sys.ph.Wf() && sys'.ph.Wf() && c < |sys.mms| == |sys'.mms| && d < |sys.mms|
  {
    && (forall va: nat :: va < VA_LIMIT ==> ChildSees(sys, sys', c, d, va))
    && (forall u: nat, va: nat :: u < |sys.mms| && u != d && va < VA_LIMIT ==> StillSees(sys, sys', u, va))
    && sys'.mms[d].userPagesCount == sys.mms[c].userPagesCount
    && sys'.mms[d].kernelPagesCount == sys.mms[c].kernelPagesCount
  }

  lemma EmptyStart(sys: Sys, role: seq<Role>, c: nat, d: nat)
    requires Start(sys, role, c, d) && sys.mms[d].Wf() && sys.mms[d].userPagesCount == 0
    ensures CopyInv(sys, role, sys, role, c, d, 0)
  {
  }

  /** A page of the parent has its copy in the child. */
  lemma MappedIsCopied(sys: Sys, role: seq<Role>, sys': Sys, role': seq<Role>, c: nat, d: nat, p: nat)
    requires c < |sys.mms| && CopyInv(sys, role, sys', role', c, d, sys.mms[c].userPagesCount)
    requires IsNode(sys.mms, c, 4, p)
    requires At(sys.ph.mem, sys.mms, c, 4, p) != 0
    ensures d < |sys'.mms| && IsNode(sys'.mms, d, 4, p)
    ensures var a, b := At(sys.ph.mem, sys.mms, c, 4, p), At(sys'.ph.mem, sys'.mms, d, 4, p);
      WasFree(sys.ph, b) && SameBytes(sys.ph, a, sys'.ph, b)
  {
    var us, vs, a := sys.mms[c].Users(), sys'.mms[d].Users(), At(sys.ph.mem, sys.mms, c, 4, p);
    InvIsInvFor(sys, role, c);
    SeenIffListed(sys, role, c, p, a);
    var k :| 0 <= k < |us| && us[k] == UserPage(a, p * 4096);
    assert CopyOf(sys.ph.mem, role, sys'.ph.mem, role', us[k], vs[k], d);
    ListedIsSeen(sys', role', d, p, vs[k].physAddr);
  }

  /** A page of the child is a copy. */
  lemma CopyHasOriginal(sys: Sys, role: seq<Role>, sys': Sys, role': seq<Role>, c: nat, d: nat, p: nat)
    requires c < |sys.mms| && CopyInv(sys, role, sys', role', c, d, sys.mms[c].userPagesCount)
    requires IsNode(sys.mms, c, 4, p) && IsNode(sys'.mms, d, 4, p) && At(sys'.ph.mem, sys'.mms, d, 4, p) != 0
    ensures At(sys.ph.mem, sys.mms, c, 4, p) != 0
  {
    var us, vs, b := sys.mms[c].Users(), sys'.mms[d].Users(), At(sys'.ph.mem, sys'.mms, d, 4, p);
    InvIsInvFor(sys, role, c);
    SeenIffListed(sys', role', d, p, b);
    var k :| 0 <= k < |vs| && vs[k] == UserPage(b, p * 4096);
    assert CopyOf(sys.ph.mem, role, sys'.ph.mem, role', us[k], vs[k], d);
    ListedIsSeen(sys, role, c, p, us[k].physAddr);
  }

  /** Where the parent has nothing mapped, the child has nothing; elsewhere a copy. */
  lemma ChildSeesCopy(sys: Sys, role: seq<Role>, sys': Sys, role': seq<Role>, c: nat, d: nat, va: nat)
    requires c < |sys.mms| && CopyInv(sys, role, sys', role', c, d, sys.mms[c].userPagesCount) && va < VA_LIMIT
    ensures ChildSees(sys, sys', c, d, va)
  {
    WalkIsAt(sys, c, va);
    WalkIsAt(sys', d, va);
    if WalkOf(sys, c, va) != 0 {
      MappedIsCopied(sys, role, sys', role', c, d, va / 4096);
    } else if WalkOf(sys', d, va) != 0 {
      CopyHasOriginal(sys, role, sys', role', c, d, va / 4096);
    }
  }

  lemma BystanderStillSees(sys: Sys, role: seq<Role>, sys': Sys, role': seq<Role>, c: nat, d: nat, i: nat,
      u: nat, va: nat)
    requires CopyInv(sys, role, sys', role', c, d, i) && u < |sys.mms| && u != d && va < VA_LIMIT
    ensures StillSees(sys, sys', u, va)
  {
    WalkIsAt(sys, u, va);
    WalkIsAt(sys', u, va);
    var a := At(sys.ph.mem, sys.mms, u, 4, va / 4096);
    assert At(sys'.ph.mem, sys'.mms, u, 4, va / 4096) == a;
    if a != 0 {
      NodeOwned(sys, role, u, 4, va / 4096, {});
      assert Precious(role[FrameOf(a)]);
    }
  }

  lemma CopyDoneIsFork(sys: Sys, role: seq<Role>, sys': Sys, role': seq<Role>, c: nat, d: nat)
    requires c < |sys.mms| && CopyInv(sys, role, sys', role', c, d, sys.mms[c].userPagesCount)
    ensures Forked(sys, sys', c, d)
  {
    forall va: nat | va < VA_LIMIT
      ensures ChildSees(sys, sys', c, d, va)
    {
      ChildSeesCopy(sys, role, sys', role', c, d, va);
    }
    forall u: nat, va: nat | u < |sys.mms| && u != d && va < VA_LIMIT
      ensures StillSees(sys, sys', u, va)
    {
      BystanderStillSees(sys, role, sys', role', c, d, sys.mms[c].userPagesCount, u, va);
    }
    ForkCounts(sys, role, sys', role', c, d);
  }

  lemma ForkCounts(sys: Sys, role: seq<Role>, sys': Sys, role': seq<Role>, c: nat, d: nat)
    requires c < |sys.mms| && CopyInv(sys, role, sys', role', c, d, sys.mms[c].userPagesCount)
    ensures d < |sys'.mms| && sys'.mms[d].userPagesCount == sys.mms[c].userPagesCount
    ensures sys'.mms[d].kernelPagesCount == sys.mms[c].kernelPagesCount
  {
    CountsFit(sys, role, sys', role', c, d, sys.mms[c].userPagesCount);
    WholePrefix(sys.mms[c].Users(), sys.mms[c].userPagesCount);
  }

  lemma NeedsAll(sys: Sys, role: seq<Role>, c: nat)
    requires Inv(sys, role) && c < |sys.mms| && sys.mms[c].Wf()
    ensures Needs(sys.mms[c].Users(), sys.mms[c].userPagesCount)
         == sys.mms[c].userPagesCount + sys.mms[c].kernelPagesCount
  {
    TableCount(sys, role, 0, c);
    WholePrefix(sys.mms[c].Users(), sys.mms[c].userPagesCount);
  }

  /** Fork. Copying the current task `c` into a task `d` without pages gives every page its
      copy exactly when as many pages are free as `c` has user pages and tables; then the child
      has a fresh copy of every page and every other task is as it was. A clean refusal keeps
      the invariant as well. In any case the round is known in which the loop ends. */
  lemma ForkCopies(sys: Sys, role: seq<Role>, c: nat, d: nat) returns (role': seq<Role>)
    requires Inv(sys, role) && c < |sys.mms| && d < |sys.mms| && c != d
    requires sys.mms[d].Wf() && sys.mms[d].userPagesCount == 0
    ensures sys.mms[c].Wf() && (sys.mms[d].pgd == 0 || InPool(sys.mms[d].pgd))
    ensures var (ph', dst', res) := CopyFrom(sys.ph, sys.mms[c], sys.mms[d], 0);
      var sys' := Sys(ph', sys.mms[d := dst']);
      && EndsAfter(sys.mms[c].Users(), FreeCount(sys.ph), dst'.userPagesCount, res, FreeCount(ph'))
      && (res == Done <==> sys.mms[c].userPagesCount + sys.mms[c].kernelPagesCount <= FreeCount(sys.ph))
      && (res == Done ==> Forked(sys, sys', c, d))
      && (res == Done || res == Refused ==> Inv(sys', role') && BytesKept(sys.ph.mem, role, ph'.mem, role'))
  {
    PgdInPool(sys, role, c, 0, {});
    PgdInPool(sys, role, d, 0, {});
    EmptyStart(sys, role, c, d);
    role' := CopyFromCorrect(sys, role, sys, role, c, d, 0);
    var (ph', dst', res) := CopyFrom(sys.ph, sys.mms[c], sys.mms[d], 0);
    var sys' := Sys(ph', sys.mms[d := dst']);
    NeedsAll(sys, role, c);
    DoneIffCovered(sys.mms[c].Users(), FreeCount(sys.ph), dst'.userPagesCount, res, FreeCount(ph'));
    if res == Done || res == Refused {
      InvIsInvFor(sys', role', d);
    }
    if res == Done {
      CopyDoneIsFork(sys, role, sys', role', c, d);
    }
  }

  // ---- What copy_virt_memory returns ------------------------------------------------

  /** What the source returns when its loop over `n` pages ends in `res` after `k` rounds. It
      does not see that `map_page` failed and goes on with the next page; as no page is free
      then, the next round, if there is one, is refused. */
  function ReturnValue(res: Copied, k: nat, n: nat, left: nat): int
    requires res != SourceFault && (res.Wrecked? ==> left == 0)
  {
    match res
    case Wrecked(_) => if k + 1 == n then 0 else -1
    case Refused => -1
    case _ => 0
  }

  /** A round that begins without a free page is refused, whatever the child looks like. */
  lemma NextRoundRefused(ph: Phys, mm: MmStruct, va: nat)
    requires ph.Wf() && mm.Wf() && (mm.pgd == 0 || InPool(mm.pgd)) && FreeCount(ph) == 0
    ensures AllocateUserPage(ph, mm, va) == (ph, mm, NoPage)
  {
    var f := FirstFree(ph.memMap, 0);
    assert FreeSet(ph.memMap) == {};
    assert f < PAGING_PAGES ==> f in FreeSet(ph.memMap);
  }

  /** The return value is 0 if and only if the last round finds its page. So 0 is wrong exactly
      when the free pages cover all pages, and all tables but those of the last one, and more
      they do not cover. */
  ghost predicate ReturnsZeroExactly(us: seq<UserPage>, all: nat, free: nat, res: Copied, k: nat, left: nat) {
    && res != SourceFault && (res.Wrecked? ==> left == 0)
    && var v := ReturnValue(res, k, |us|, left);
      && (v == 0 <==> us == [] || Needs(us, |us| - 1) < free)
      && (v == 0 && res != Done <==> us != [] && Needs(us, |us| - 1) < free < all)
  }

  lemma EndsThenReturns(us: seq<UserPage>, free: nat, k: nat, res: Copied, left: nat)
    requires EndsAfter(us, free, k, res, left)
    ensures ReturnsZeroExactly(us, Needs(us, |us|), free, res, k, left)
  {
    var n := |us|;
    if n > 0 {
      NeedsMonotone(us, n - 1, n);
      if k < n {
        NeedsMonotone(us, k, n - 1);
        if k + 1 < n {
          NeedsMonotone(us, k + 1, n - 1);
        }
      }
    }
  }

  /** What a fork returns. Wrong zeros are reached: see `MmUses.OnePageFork`. */
  lemma ForkReturns(sys: Sys, role: seq<Role>, c: nat, d: nat)
    requires Inv(sys, role) && c < |sys.mms| && d < |sys.mms| && c != d
    requires sys.mms[d].Wf() && sys.mms[d].userPagesCount == 0
    ensures sys.mms[c].Wf() && (sys.mms[d].pgd == 0 || InPool(sys.mms[d].pgd))
    ensures var (ph', dst', res) := CopyFrom(sys.ph, sys.mms[c], sys.mms[d], 0);
      ReturnsZeroExactly(sys.mms[c].Users(), sys.mms[c].userPagesCount + sys.mms[c].kernelPagesCount, FreeCount(sys.ph),
                         res, dst'.userPagesCount, FreeCount(ph'))
  {
    var role' := ForkCopies(sys, role, c, d);
    var (ph', dst', res) := CopyFrom(sys.ph, sys.mms[c], sys.mms[d], 0);
    NeedsAll(sys, role, c);
    EndsThenReturns(sys.mms[c].Users(), FreeCount(sys.ph), dst'.userPagesCount, res, FreeCount(ph'));
  }
}
