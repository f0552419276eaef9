/** The invariant of the memory manager over all address spaces, and how each single change
    of the page pool keeps it. */
module MmOwnership {
  import opened PageTables
  import opened MmSpec
  import opened MmInvariant

  /** The page pool and the address spaces of all tasks. */
  datatype Sys = Sys(ph: Phys, mms: seq<MmStruct>)

  ghost predicate IsTable(r: Role, t: nat) {
    r.Node? && r.task == t && r.level <= 3
  }

  /** `tabs` lists the table pages of task `t`, each once. */
  ghost predicate TableListOk(tabs: seq<nat>, t: nat, role: seq<Role>)
    requires |role| == PAGING_PAGES
  {
    && (forall i :: 0 <= i < |tabs| ==> InPool(tabs[i]) && IsTable(role[FrameOf(tabs[i])], t))
    && (forall i, j :: 0 <= i < j < |tabs| ==> tabs[i] != tabs[j])
    && (forall f: nat :: f < PAGING_PAGES && IsTable(role[f], t) ==> FrameAddr(f) in tabs)
  }

  ghost predicate UserOk(u: UserPage, t: nat, role: seq<Role>)
    requires |role| == PAGING_PAGES
  {
    && u.virtAddr % 4096 == 0 && u.virtAddr < VA_LIMIT && InPool(u.physAddr)
    && role[FrameOf(u.physAddr)] == Node(t, 4, u.virtAddr / 4096)
  }

  /** `users` lists the mapped pages of task `t` with their addresses, each address once. */
  ghost predicate UserListOk(users: seq<UserPage>, t: nat, role: seq<Role>)
    requires |role| == PAGING_PAGES
  {
    && (forall i :: 0 <= i < |users| ==> UserOk(users[i], t, role))
    && (forall i, j :: 0 <= i < j < |users| ==> users[i].virtAddr != users[j].virtAddr)
    && (forall f: nat :: f < PAGING_PAGES && role[f].Node? && role[f].task == t && role[f].level == 4
          ==> UserPage(FrameAddr(f), role[f].name * 4096) in users)
  }

  ghost function Vas(users: seq<UserPage>): set<nat> {
    set u | u in users :: u.virtAddr
  }

  ghost predicate Leads(r: Role, vas: set<nat>)
    requires r.Node? && r.level <= 4
  {
    exists va :: va in vas && Prefix(va, r.level) == r.name
  }

  /** No table of task `t` is there in vain: each lies on the way to one of `vas`. */
  ghost predicate AllUsed(t: nat, role: seq<Role>, vas: set<nat>)
    requires |role| == PAGING_PAGES
  {
    forall f: nat :: f < PAGING_PAGES && IsTable(role[f], t) ==> Leads(role[f], vas)
  }

  ghost predicate TaskOk(mm: MmStruct, t: nat, role: seq<Role>, extra: set<nat>)
    requires |role| == PAGING_PAGES
  {
    && mm.Wf()
    && TableListOk(mm.Tables(), t, role)
    && UserListOk(mm.Users(), t, role)
    && AllUsed(t, role, Vas(mm.Users()) + extra)
  }

  /** The invariant while an address in `extra` is being mapped for task `t`. */
  ghost predicate InvFor(sys: Sys, role: seq<Role>, t: nat, extra: set<nat>) {
    && sys.ph.Wf()
    && Trees(sys.ph.mem, sys.mms, role)
    && Bitmap(sys.ph.memMap, role)
    && forall u: nat :: u < |sys.mms| ==> TaskOk(sys.mms[u], u, role, if u == t then extra else {})
  }

  ghost predicate Bitmap(memMap: seq<nat>, role: seq<Role>) {
    && |memMap| == PAGING_PAGES && |role| == PAGING_PAGES
    && forall f: nat :: f < PAGING_PAGES ==> (memMap[f] == 0 <==> role[f] == Free)
  }

  ghost predicate Inv(sys: Sys, role: seq<Role>) {
    InvFor(sys, role, 0, {})
  }

  lemma InvIsInvFor(sys: Sys, role: seq<Role>, t: nat)
    ensures Inv(sys, role) <==> InvFor(sys, role, t, {})
  {
  }

  lemma PgdInPool(sys: Sys, role: seq<Role>, t: nat, x: nat, extra: set<nat>)
    requires InvFor(sys, role, x, extra) && t < |sys.mms|
    ensures sys.mms[t].pgd == 0 || InPool(sys.mms[t].pgd)
    ensures sys.mms[t].Wf()
  {
    assert IsNode(sys.mms, t, 0, 0);
    assert Owned(role, Node(t, 0, 0), At(sys.ph.mem, sys.mms, t, 0, 0));
    assert TaskOk(sys.mms[t], t, role, if t == x then extra else {});
  }

  // ---- Handing out and taking back a page -------------------------------------------

  ghost function FreeSet(memMap: seq<nat>): set<nat> {
    set f: nat | f < |memMap| && memMap[f] == 0
  }

  ghost function FreeCount(ph: Phys): nat {
    |FreeSet(ph.memMap)|
  }

  lemma TableListChange(tabs: seq<nat>, t: nat, role: seq<Role>, g: nat, r: Role)
    requires |role| == PAGING_PAGES && g < PAGING_PAGES && !role[g].Node? && !IsTable(r, t)
    requires TableListOk(tabs, t, role)
    ensures TableListOk(tabs, t, role[g := r])
  {
  }

  lemma UserListChange(users: seq<UserPage>, t: nat, role: seq<Role>, g: nat, r: Role)
    requires |role| == PAGING_PAGES && g < PAGING_PAGES && !role[g].Node?
    requires r.Node? ==> r.task != t || r.level != 4
    requires UserListOk(users, t, role)
    ensures UserListOk(users, t, role[g := r])
  {
  }

  /** A change of roles that no task notices. */
  lemma RoleChange(mm: MmStruct, t: nat, role: seq<Role>, g: nat, r: Role, extra: set<nat>)
    requires |role| == PAGING_PAGES && g < PAGING_PAGES && !role[g].Node?
    requires TaskOk(mm, t, role, extra)
    requires r.Node? ==> r.task != t
    ensures TaskOk(mm, t, role[g := r], extra)
  {
    TableListChange(mm.Tables(), t, role, g, r);
    UserListChange(mm.Users(), t, role, g, r);
  }

  lemma SetRole(sys: Sys, sys': Sys, role: seq<Role>, g: nat, r: Role, t: nat, extra: set<nat>)
    requires InvFor(sys, role, t, extra)
    requires g < PAGING_PAGES && !role[g].Node? && !r.Node?
    requires sys'.mms == sys.mms && sys'.ph.Wf()
    requires forall f: nat :: f < PAGING_PAGES && f != g ==> sys'.ph.mem[f] == sys.ph.mem[f]
    requires forall f: nat :: f < PAGING_PAGES && f != g ==> sys'.ph.memMap[f] == sys.ph.memMap[f]
    requires sys'.ph.memMap[g] == 0 <==> r == Free
    ensures InvFor(sys', role[g := r], t, extra)
    ensures LookupsPlus(sys.ph.mem, sys.mms, sys'.ph.mem, sys.mms, Free, 0)
  {
    Frame(sys.ph.mem, sys'.ph.mem, sys.mms, role);
    var role' := role[g := r];
    RenameNonNode(sys'.ph.mem, sys.mms, role, g, r);
    forall u: nat | u < |sys.mms|
      ensures TaskOk(sys.mms[u], u, role', if u == t then extra else {})
    {
      RoleChange(sys.mms[u], u, role, g, r, if u == t then extra else {});
    }
  }

  lemma RenameNonNode(mem: seq<Page>, mms: seq<MmStruct>, role: seq<Role>, g: nat, r: Role)
    requires Trees(mem, mms, role) && g < PAGING_PAGES && !role[g].Node? && !r.Node?
    ensures Trees(mem, mms, role[g := r])
  {
  }

  /** First fit: the page handed out is the lowest one that is free, and only its mark and its
      bytes change. */
  lemma FirstFit(ph: Phys)
    requires ph.Wf()
    ensures var (ph', a) := GetFreePage(ph);
      if a == 0 then ph' == ph && forall f: nat :: f < PAGING_PAGES ==> ph.memMap[f] != 0
      else
        && InPool(a) && ph.memMap[FrameOf(a)] == 0 && (forall f: nat :: f < FrameOf(a) ==> ph.memMap[f] != 0)
        && ph'.memMap == ph.memMap[FrameOf(a) := 1]
        && (forall f: nat :: f < PAGING_PAGES && f != FrameOf(a) ==> ph'.mem[f] == ph.mem[f])
  {
  }

  /** `get_free_page` fails exactly when no page is free; otherwise it hands out a zeroed
      page that was free, and no translation of any task changes. */
  lemma TakeKeeps(sys: Sys, role: seq<Role>, t: nat, extra: set<nat>) returns (role': seq<Role>)
    requires InvFor(sys, role, t, extra)
    ensures var (ph', a) := GetFreePage(sys.ph);
      && (a == 0 <==> FreeCount(sys.ph) == 0)
      && (a == 0 ==> ph' == sys.ph && role' == role)
      && (a != 0 ==>
            && InPool(a) && role[FrameOf(a)] == Free && role' == role[FrameOf(a) := Held]
            && InvFor(Sys(ph', sys.mms), role', t, extra)
            && LookupsPlus(sys.ph.mem, sys.mms, ph'.mem, sys.mms, Free, 0)
            && FreeCount(ph') == FreeCount(sys.ph) - 1
            && (forall f: nat :: f < PAGING_PAGES && f != FrameOf(a) ==> ph'.mem[f] == sys.ph.mem[f])
            && (forall i: nat :: i < 512 ==> ph'.mem[FrameOf(a)][i] == 0))
  {
    var f := FirstFree(sys.ph.memMap, 0);
    if f == PAGING_PAGES {
      assert FreeSet(sys.ph.memMap) == {};
      role' := role;
    } else {
      var ph' := Take(sys.ph, f);
      assert f in FreeSet(sys.ph.memMap);
      assert FreeSet(ph'.memMap) == FreeSet(sys.ph.memMap) - {f};
      role' := role[f := Held];
      SetRole(sys, Sys(ph', sys.mms), role, f, Held, t, extra);
    }
  }

  // ---- Adding a node to a task ------------------------------------------------------

  lemma TableListAdd(tabs: seq<nat>, t: nat, role: seq<Role>, g: nat, c: Role)
    requires |role| == PAGING_PAGES && g < PAGING_PAGES && !role[g].Node? && IsTable(c, t)
    requires TableListOk(tabs, t, role)
    ensures TableListOk(tabs + [FrameAddr(g)], t, role[g := c])
  {
  }

  lemma UserListAdd(users: seq<UserPage>, t: nat, role: seq<Role>, g: nat, va: nat)
    requires |role| == PAGING_PAGES && g < PAGING_PAGES && !role[g].Node?
    requires va % 4096 == 0 && va < VA_LIMIT
    requires UserListOk(users, t, role)
    requires forall f: nat :: f < PAGING_PAGES ==> role[f] != Node(t, 4, va / 4096)
    ensures UserListOk(users + [UserPage(FrameAddr(g), va)], t, role[g := Node(t, 4, va / 4096)])
  {
  }

  lemma AllUsedAdd(t: nat, role: seq<Role>, g: nat, c: Role, vas: set<nat>, vas': set<nat>)
    requires |role| == PAGING_PAGES && g < PAGING_PAGES && vas <= vas'
    requires AllUsed(t, role, vas)
    requires IsTable(c, t) ==> Leads(c, vas')
    ensures AllUsed(t, role[g := c], vas')
  {
  }

  /** What the lists of a task's `mm_struct` gain with node `c` at page `g`. */
  ghost predicate ListsGain(mm: MmStruct, mm': MmStruct, c: Role, g: nat)
    requires mm.Wf() && mm'.Wf() && c.Node? && g < PAGING_PAGES
  {
    if c.level <= 3 then
      mm'.Tables() == mm.Tables() + [FrameAddr(g)] && mm'.Users() == mm.Users()
    else
      mm'.Tables() == mm.Tables() && mm'.Users() == mm.Users() + [UserPage(FrameAddr(g), c.name * 4096)]
  }

  lemma TaskGains(mm: MmStruct, mm': MmStruct, role: seq<Role>, t: nat, g: nat, c: Role, extra: set<nat>,
      extra': set<nat>)
    requires |role| == PAGING_PAGES && g < PAGING_PAGES && !role[g].Node?
    requires TaskOk(mm, t, role, extra) && mm'.Wf()
    requires c.Node? && c.task == t && c.level <= 4 && c.name < Width(c.level)
    requires forall f: nat :: f < PAGING_PAGES ==> role[f] != c
    requires ListsGain(mm, mm', c, g)
    requires extra <= Vas(mm'.Users()) + extra'
    requires c.level <= 3 ==> Leads(c, Vas(mm'.Users()) + extra')
    ensures TaskOk(mm', t, role[g := c], extra')
  {
    ListsGained(mm, mm', role, t, g, c);
    VasGrow(mm.Users(), mm'.Users());
    AllUsedAdd(t, role, g, c, Vas(mm.Users()) + extra, Vas(mm'.Users()) + extra');
  }

  lemma ListsGained(mm: MmStruct, mm': MmStruct, role: seq<Role>, t: nat, g: nat, c: Role)
    requires |role| == PAGING_PAGES && g < PAGING_PAGES && !role[g].Node?
    requires mm.Wf() && mm'.Wf() && TableListOk(mm.Tables(), t, role) && UserListOk(mm.Users(), t, role)
    requires c.Node? && c.task == t && c.level <= 4 && c.name < Width(c.level)
    requires forall f: nat :: f < PAGING_PAGES ==> role[f] != c
    requires ListsGain(mm, mm', c, g)
    ensures TableListOk(mm'.Tables(), t, role[g := c]) && UserListOk(mm'.Users(), t, role[g := c])
  {
    if c.level <= 3 {
      TableListAdd(mm.Tables(), t, role, g, c);
      UserListChange(mm.Users(), t, role, g, c);
    } else {
      TableListChange(mm.Tables(), t, role, g, c);
      UserListAdd(mm.Users(), t, role, g, c.name * 4096);
    }
  }

  lemma VasGrow(users: seq<UserPage>, users': seq<UserPage>)
    requires forall u :: u in users ==> u in users'
    ensures Vas(users) <= Vas(users')
  {
  }

  lemma AddNode(
      sys: Sys, sys': Sys, role: seq<Role>, t: nat, g: nat, c: Role, extra: set<nat>, extra': set<nat>)
    requires InvFor(sys, role, t, extra) && t < |sys.mms|
    requires g < PAGING_PAGES && role[g] == Held
    requires c.Node? && c.task == t && IsNode(sys.mms, t, c.level, c.name)
    requires sys'.ph.Wf() && sys'.ph.memMap == sys.ph.memMap
    requires |sys'.mms| == |sys.mms| && sys'.mms[t].Wf()
    requires forall u: nat :: u < |sys.mms| && u != t ==> sys'.mms[u] == sys.mms[u]
    requires Trees(sys'.ph.mem, sys'.mms, role[g := c])
    requires LookupsPlus(sys.ph.mem, sys.mms, sys'.ph.mem, sys'.mms, c, FrameAddr(g))
    requires sys.mms[t].Wf() && ListsGain(sys.mms[t], sys'.mms[t], c, g)
    requires extra <= Vas(sys'.mms[t].Users()) + extra'
    requires c.level <= 3 ==> Leads(c, Vas(sys'.mms[t].Users()) + extra')
    ensures InvFor(sys', role[g := c], t, extra')
  {
    var role' := role[g := c];
    assert LookupPlus(sys.ph.mem, sys.mms, sys'.ph.mem, sys'.mms, c, FrameAddr(g), t, c.level, c.name);
    forall f: nat | f < PAGING_PAGES
      ensures role[f] != c
    {
      assert role[f].Node? ==> Placed(sys.ph.mem, sys.mms, role[f], f);
    }
    forall u: nat | u < |sys.mms|
      ensures TaskOk(sys'.mms[u], u, role', if u == t then extra' else {})
    {
      assert TaskOk(sys.mms[u], u, role, if u == t then extra else {});
      if u == t {
        TaskGains(sys.mms[t], sys'.mms[t], role, t, g, c, extra, extra');
      } else {
        RoleChange(sys.mms[u], u, role, g, c, {});
      }
    }
  }
}
