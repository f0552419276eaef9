/** What the ownership invariant means for the lists in `mm_struct`: the shadow list is the
    translation, pages are never shared, and the table list counts the tree's nodes. */
module MmShadow {
  import opened Finite
  import opened PageTables
  import opened MmSpec
  import opened MmInvariant
  import opened MmOwnership
  import opened MmMapping

  /** A listed page is what the walk of its address yields. */
  lemma ListedIsMapped(sys: Sys, role: seq<Role>, x: nat, t: nat, i: nat)
    requires InvFor(sys, role, x, {}) && t < |sys.mms| && sys.mms[t].Wf() && i < sys.mms[t].userPagesCount
    ensures var u := sys.mms[t].userPages[i];
      && u.virtAddr < VA_LIMIT && u.virtAddr % 4096 == 0 && InPool(u.physAddr)
      && role[FrameOf(u.physAddr)] == Node(t, 4, u.virtAddr / 4096)
      && IsNode(sys.mms, t, 4, u.virtAddr / 4096)
      && At(sys.ph.mem, sys.mms, t, 4, u.virtAddr / 4096) == u.physAddr
      && Walk(sys.ph.mem, sys.mms[t].pgd, u.virtAddr) == u.physAddr
  {
    assert TaskOk(sys.mms[t], t, role, {});
    var u := sys.mms[t].Users()[i];
    assert UserOk(u, t, role);
    LeafIsNode(sys.mms, t, u.virtAddr);
    assert Placed(sys.ph.mem, sys.mms, role[FrameOf(u.physAddr)], FrameOf(u.physAddr));
    WalkIsLookup(sys.ph.mem, sys.mms[t].pgd, u.virtAddr);
  }

  lemma FoundWhereNamed(mem: seq<Page>, mms: seq<MmStruct>, role: seq<Role>, t: nat, l: nat, p: nat, a: nat)
    requires Trees(mem, mms, role) && InPool(a) && role[FrameOf(a)] == Node(t, l, p)
    ensures IsNode(mms, t, l, p) && At(mem, mms, t, l, p) == a
  {
    assert Placed(mem, mms, role[FrameOf(a)], FrameOf(a));
  }

  lemma ListedIsSeen(sys: Sys, role: seq<Role>, t: nat, p: nat, page: nat)
    requires InvFor(sys, role, t, {}) && t < |sys.mms| && sys.mms[t].Wf()
    requires UserPage(page, p * 4096) in sys.mms[t].Users()
    ensures IsNode(sys.mms, t, 4, p) && At(sys.ph.mem, sys.mms, t, 4, p) == page
  {
    assert TaskOk(sys.mms[t], t, role, {});
    assert UserOk(UserPage(page, p * 4096), t, role);
    FoundWhereNamed(sys.ph.mem, sys.mms, role, t, 4, p, page);
  }

  lemma SeenIsListed(sys: Sys, role: seq<Role>, t: nat, p: nat, page: nat)
    requires InvFor(sys, role, t, {}) && t < |sys.mms| && sys.mms[t].Wf() && UserListOk(sys.mms[t].Users(), t, role)
    requires IsNode(sys.mms, t, 4, p) && page != 0 && At(sys.ph.mem, sys.mms, t, 4, p) == page
    ensures UserPage(page, p * 4096) in sys.mms[t].Users()
  {
  }

  lemma UsersListed(sys: Sys, role: seq<Role>, x: nat, t: nat)
    requires InvFor(sys, role, x, {}) && t < |sys.mms|
    ensures sys.mms[t].Wf() && UserListOk(sys.mms[t].Users(), t, role)
  {
  }

  lemma SeenIffListed(sys: Sys, role: seq<Role>, t: nat, p: nat, page: nat)
    requires InvFor(sys, role, t, {}) && IsNode(sys.mms, t, 4, p) && page != 0
    ensures sys.mms[t].Wf()
    ensures At(sys.ph.mem, sys.mms, t, 4, p) == page <==> UserPage(page, p * 4096) in sys.mms[t].Users()
  {
    UsersListed(sys, role, t, t);
    if At(sys.ph.mem, sys.mms, t, 4, p) == page {
      SeenIsListed(sys, role, t, p, page);
    }
    if UserPage(page, p * 4096) in sys.mms[t].Users() {
      ListedIsSeen(sys, role, t, p, page);
    }
  }

  /** A walk reads the level-4 node named by the page number of its address. */
  lemma WalkIsAt(sys: Sys, t: nat, va: nat)
    requires sys.ph.Wf() && t < |sys.mms| && va < VA_LIMIT
    ensures IsNode(sys.mms, t, 4, va / 4096)
    ensures Walk(sys.ph.mem, sys.mms[t].pgd, va) == At(sys.ph.mem, sys.mms, t, 4, va / 4096)
  {
    LeafIsNode(sys.mms, t, va);
    WalkIsLookup(sys.ph.mem, sys.mms[t].pgd, va);
  }

  lemma LeafOfWalk(mem: seq<Page>, pgd: nat, va: nat)
    requires |mem| == PAGING_PAGES && Walk(mem, pgd, va) != 0
    ensures InPool(Lookup(mem, pgd, 3, Prefix(va, 3))) && Walk(mem, pgd, va) == Target(3, LeafWord(mem, pgd, va))
  {
    WalkIsLookup(mem, pgd, va);
    PrefixStep(va, 3);
  }

  lemma LeafEntry(sys: Sys, role: seq<Role>, t: nat, va: nat, table: nat)
    requires sys.ph.Wf() && Trees(sys.ph.mem, sys.mms, role) && t < |sys.mms| && va < VA_LIMIT
    requires table == Lookup(sys.ph.mem, sys.mms[t].pgd, 3, Prefix(va, 3)) && InPool(table)
    ensures EntryOk(3, sys.ph.mem[FrameOf(table)][Slot(va, 3)])
  {
    PrefixBound(va, 3);
    NodeFound(sys.ph.mem, sys.mms, role, 0, t, 3, Prefix(va, 3));
    assert EntriesOk(role[FrameOf(table)], sys.ph.mem[FrameOf(table)]);
  }

  lemma EntryIsUserMemory(e: Word)
    requires EntryOk(3, e) && Target(3, e) != 0
    ensures IsUserMemory(e, Target(3, e))
  {
    var page: nat := e - Flags(3);
    TargetOfEncoding(3, page);
    LeafFields(page);
  }

  /** Wherever a task has a translation, the MMU finds memory that user code may read, write
      and execute, and of the normal type. */
  lemma MappedIsUserMemory(sys: Sys, role: seq<Role>, x: nat, t: nat, va: nat)
    requires InvFor(sys, role, x, {}) && t < |sys.mms| && va < VA_LIMIT
    requires Walk(sys.ph.mem, sys.mms[t].pgd, va) != 0
    ensures IsUserMemory(LeafWord(sys.ph.mem, sys.mms[t].pgd, va), Walk(sys.ph.mem, sys.mms[t].pgd, va))
  {
    var mem, pgd := sys.ph.mem, sys.mms[t].pgd;
    LeafOfWalk(mem, pgd, va);
    LeafEntry(sys, role, t, va, Lookup(mem, pgd, 3, Prefix(va, 3)));
    EntryIsUserMemory(LeafWord(mem, pgd, va));
  }

  /** The shadow list and the page tables agree: the walk of `va` yields `page` exactly when
      the list has the pair. */
  lemma ShadowListIsTranslation(sys: Sys, role: seq<Role>, t: nat, va: nat, page: nat)
    requires InvFor(sys, role, t, {}) && t < |sys.mms| && va < VA_LIMIT && page != 0
    ensures sys.mms[t].Wf()
    ensures Walk(sys.ph.mem, sys.mms[t].pgd, va) == page
       <==> UserPage(page, va / 4096 * 4096) in sys.mms[t].Users()
  {
    WalkIsAt(sys, t, va);
    SeenIffListed(sys, role, t, va / 4096, page);
  }

  // ---- Separation -------------------------------------------------------------------

  ghost predicate Marked(ph: Phys, a: nat) {
    ph.Wf() && InPool(a) && ph.memMap[FrameOf(a)] != 0
  }

  ghost predicate AllMarked(ph: Phys, mm: MmStruct) {
    && mm.Wf()
    && (forall i :: 0 <= i < |mm.Tables()| ==> Marked(ph, mm.Tables()[i]))
    && (forall i :: 0 <= i < |mm.Users()| ==> Marked(ph, mm.Users()[i].physAddr))
  }

  /** No page occurs twice in the lists of two address spaces, nor within the lists of one
      (`same`). */
  ghost predicate Apart(mm: MmStruct, mm': MmStruct, same: bool)
    requires mm.Wf() && mm'.Wf()
  {
    && (forall i, j :: 0 <= i < |mm.Tables()| && 0 <= j < |mm'.Tables()| && !(same && i == j)
          ==> mm.Tables()[i] != mm'.Tables()[j])
    && (forall i, j :: 0 <= i < |mm.Users()| && 0 <= j < |mm'.Users()| && !(same && i == j)
          ==> mm.Users()[i].physAddr != mm'.Users()[j].physAddr)
    && (forall i, j :: 0 <= i < |mm.Tables()| && 0 <= j < |mm'.Users()|
          ==> mm.Tables()[i] != mm'.Users()[j].physAddr)
  }

  /** Every page in any list of any task is an allocated, aligned page of the pool, and no
      page occurs twice in these lists, within a task or across tasks. */
  ghost predicate Separated(sys: Sys) {
    && (forall t: nat :: t < |sys.mms| ==> AllMarked(sys.ph, sys.mms[t]))
    && (forall t: nat, u: nat :: t < |sys.mms| && u < |sys.mms| ==> Apart(sys.mms[t], sys.mms[u], t == u))
  }

  lemma ListsMarked(sys: Sys, role: seq<Role>, t: nat)
    requires Inv(sys, role) && t < |sys.mms|
    ensures AllMarked(sys.ph, sys.mms[t])
  {
  }

  lemma UserRoles(users: seq<UserPage>, t: nat, role: seq<Role>)
    requires |role| == PAGING_PAGES && UserListOk(users, t, role)
    ensures forall i :: 0 <= i < |users| ==>
      && InPool(users[i].physAddr) && role[FrameOf(users[i].physAddr)].Node?
      && role[FrameOf(users[i].physAddr)].task == t && role[FrameOf(users[i].physAddr)].level == 4
  {
  }

  lemma UsersDistinct(users: seq<UserPage>, t: nat, role: seq<Role>, i: nat, j: nat)
    requires |role| == PAGING_PAGES && UserListOk(users, t, role) && i < |users| && j < |users| && i != j
    ensures users[i].physAddr != users[j].physAddr
  {
  }

  lemma ListsApart(mm: MmStruct, t: nat, mm': MmStruct, u: nat, role: seq<Role>)
    requires |role| == PAGING_PAGES && TaskOk(mm, t, role, {}) && TaskOk(mm', u, role, {}) && (t == u ==> mm == mm')
    ensures Apart(mm, mm', t == u)
  {
    UserRoles(mm.Users(), t, role);
    UserRoles(mm'.Users(), u, role);
    forall i: nat, j: nat | i < |mm.Users()| && j < |mm'.Users()| && !(t == u && i == j)
      ensures mm.Users()[i].physAddr != mm'.Users()[j].physAddr
    {
      if t == u {
        UsersDistinct(mm.Users(), t, role, i, j);
      }
    }
  }

  lemma InvSeparates(sys: Sys, role: seq<Role>)
    requires Inv(sys, role)
    ensures Separated(sys)
  {
    forall t: nat | t < |sys.mms|
      ensures AllMarked(sys.ph, sys.mms[t])
    {
      ListsMarked(sys, role, t);
    }
    forall t: nat, u: nat | t < |sys.mms| && u < |sys.mms|
      ensures Apart(sys.mms[t], sys.mms[u], t == u)
    {
      assert TaskOk(sys.mms[t], t, role, {}) && TaskOk(sys.mms[u], u, role, {});
      ListsApart(sys.mms[t], t, sys.mms[u], u, role);
    }
  }

  // ---- Counting tables --------------------------------------------------------------

  /** The tables that translating `vas` takes, by level and name. */
  ghost function NodesOf(vas: set<nat>): set<(nat, nat)> {
    set va, l: nat | va in vas && l <= 3 :: (l, Prefix(va, l))
  }

  ghost function Names(tabs: seq<nat>, role: seq<Role>): (r: seq<(nat, nat)>)
    requires |role| == PAGING_PAGES
    requires forall i :: 0 <= i < |tabs| ==> InPool(tabs[i]) && role[FrameOf(tabs[i])].Node?
    ensures |r| == |tabs|
    ensures forall i :: 0 <= i < |r| ==> r[i] == (role[FrameOf(tabs[i])].level, role[FrameOf(tabs[i])].name)
  {
    if tabs == [] then []
    else
      var r := role[FrameOf(tabs[0])];
      [(r.level, r.name)] + Names(tabs[1..], role)
  }

  ghost function Elements<T>(s: seq<T>): set<T> { set x | x in s }

  lemma {:induction false} DistinctCount<T>(s: seq<T>)
    requires forall i, j :: 0 <= i < j < |s| ==> s[i] != s[j]
    ensures |Elements(s)| == |s|
  {
    if s == [] {
      assert Elements(s) == {};
    } else {
      DistinctCount(s[1..]);
      assert Elements(s) == {s[0]} + Elements(s[1..]);
    }
  }

  lemma NamesDistinct(sys: Sys, role: seq<Role>, t: nat, x: nat, i: int, j: int)
    requires InvFor(sys, role, x, {}) && t < |sys.mms| && sys.mms[t].Wf() && TableListOk(sys.mms[t].Tables(), t, role)
    requires 0 <= i < j < |sys.mms[t].Tables()|
    ensures Names(sys.mms[t].Tables(), role)[i] != Names(sys.mms[t].Tables(), role)[j]
  {
  }

  lemma OnWayExists(sys: Sys, t: nat, va: nat)
    requires sys.ph.Wf() && t < |sys.mms| && va < VA_LIMIT && OnWay(sys, t, va, 4) != 0
    ensures forall l: nat :: l <= 3 ==> OnWay(sys, t, va, l) != 0
  {
    NothingMissingAbove(sys, t, va, 3);
    NothingMissingAbove(sys, t, va, 2);
    NothingMissingAbove(sys, t, va, 1);
    NothingMissingAbove(sys, t, va, 0);
  }

  ghost predicate HasTable(sys: Sys, t: nat, l: nat, p: nat)
  {
    sys.ph.Wf() && IsNode(sys.mms, t, l, p) && At(sys.ph.mem, sys.mms, t, l, p) != 0
  }

  lemma OnTheWayHasTable(sys: Sys, role: seq<Role>, x: nat, t: nat, l: nat, i: nat)
    requires InvFor(sys, role, x, {}) && t < |sys.mms| && l <= 3 && sys.mms[t].Wf() && i < sys.mms[t].userPagesCount
    ensures HasTable(sys, t, l, Prefix(sys.mms[t].userPages[i].virtAddr, l))
  {
    var va := sys.mms[t].userPages[i].virtAddr;
    ListedIsMapped(sys, role, x, t, i);
    assert OnWay(sys, t, va, 4) != 0;
    OnWayExists(sys, t, va);
    PrefixBound(va, l);
    assert OnWay(sys, t, va, l) != 0;
  }

  lemma HasTableOnTheWay(sys: Sys, role: seq<Role>, x: nat, t: nat, l: nat, p: nat)
    requires InvFor(sys, role, x, {}) && t < |sys.mms| && l <= 3 && HasTable(sys, t, l, p)
    ensures sys.mms[t].Wf() && (l, p) in NodesOf(Vas(sys.mms[t].Users()))
  {
    assert TaskOk(sys.mms[t], t, role, {});
    var vas := Vas(sys.mms[t].Users());
    NodeOwned(sys, role, t, l, p, {});
    var f := FrameOf(At(sys.ph.mem, sys.mms, t, l, p));
    assert IsTable(role[f], t);
    assert Leads(role[f], vas + {});
    var va :| va in vas + {} && Prefix(va, l) == p;
    assert va in vas;
  }

  lemma NodeWitness(users: seq<UserPage>, l: nat, p: nat) returns (i: nat)
    requires l <= 3 && (l, p) in NodesOf(Vas(users))
    ensures i < |users| && Prefix(users[i].virtAddr, l) == p
  {
    var va :| va in Vas(users) && p == Prefix(va, l);
    var u :| u in users && u.virtAddr == va;
    i :| 0 <= i < |users| && users[i] == u;
  }

  /** A task has exactly the tables on the way to its listed addresses. */
  lemma TablesAreOnTheWay(sys: Sys, role: seq<Role>, x: nat, t: nat, l: nat, p: nat)
    requires InvFor(sys, role, x, {}) && t < |sys.mms| && l <= 3
    ensures sys.mms[t].Wf()
    ensures (l, p) in NodesOf(Vas(sys.mms[t].Users())) <==> HasTable(sys, t, l, p)
  {
    PgdInPool(sys, role, t, x, {});
    if (l, p) in NodesOf(Vas(sys.mms[t].Users())) {
      var i := NodeWitness(sys.mms[t].Users(), l, p);
      OnTheWayHasTable(sys, role, x, t, l, i);
    }
    if HasTable(sys, t, l, p) {
      HasTableOnTheWay(sys, role, x, t, l, p);
    }
  }

  /** `kernel_pages_count` is the number of nodes on the way to the listed addresses. */
  lemma TableCount(sys: Sys, role: seq<Role>, x: nat, t: nat)
    requires InvFor(sys, role, x, {}) && t < |sys.mms|
    ensures sys.mms[t].Wf() && sys.mms[t].kernelPagesCount == |NodesOf(Vas(sys.mms[t].Users()))|
  {
    assert TaskOk(sys.mms[t], t, role, {});
    var tabs, vas := sys.mms[t].Tables(), Vas(sys.mms[t].Users());
    var names := Names(tabs, role);
    forall i, j | 0 <= i < j < |names|
      ensures names[i] != names[j]
    {
      NamesDistinct(sys, role, t, x, i, j);
    }
    DistinctCount(names);
    NamesAreNodes(sys, role, x, t);
  }

  lemma NameIsNode(sys: Sys, role: seq<Role>, x: nat, t: nat, i: nat)
    requires InvFor(sys, role, x, {}) && t < |sys.mms| && sys.mms[t].Wf() && TableListOk(sys.mms[t].Tables(), t, role)
    requires i < |sys.mms[t].Tables()|
    ensures Names(sys.mms[t].Tables(), role)[i] in NodesOf(Vas(sys.mms[t].Users()))
  {
    var f := FrameOf(sys.mms[t].Tables()[i]);
    assert Placed(sys.ph.mem, sys.mms, role[f], f);
    TablesAreOnTheWay(sys, role, x, t, role[f].level, role[f].name);
  }

  lemma NodeIsNamed(sys: Sys, role: seq<Role>, x: nat, t: nat, l: nat, p: nat)
    requires InvFor(sys, role, x, {}) && t < |sys.mms| && sys.mms[t].Wf() && TableListOk(sys.mms[t].Tables(), t, role)
    requires l <= 3 && (l, p) in NodesOf(Vas(sys.mms[t].Users()))
    ensures (l, p) in Elements(Names(sys.mms[t].Tables(), role))
  {
    var tabs := sys.mms[t].Tables();
    TablesAreOnTheWay(sys, role, x, t, l, p);
    NodeOwned(sys, role, t, l, p, {});
    var f := FrameOf(At(sys.ph.mem, sys.mms, t, l, p));
    assert IsTable(role[f], t);
    var i :| 0 <= i < |tabs| && tabs[i] == FrameAddr(f);
    assert Names(tabs, role)[i] == (l, p);
  }

  lemma NamesAreNodes(sys: Sys, role: seq<Role>, x: nat, t: nat)
    requires InvFor(sys, role, x, {}) && t < |sys.mms| && sys.mms[t].Wf() && TableListOk(sys.mms[t].Tables(), t, role)
    ensures Elements(Names(sys.mms[t].Tables(), role)) == NodesOf(Vas(sys.mms[t].Users()))
  {
    var names, nodes := Names(sys.mms[t].Tables(), role), NodesOf(Vas(sys.mms[t].Users()));
    forall n | n in Elements(names)
      ensures n in nodes
    {
      var i :| 0 <= i < |names| && names[i] == n;
      NameIsNode(sys, role, x, t, i);
    }
    forall n | n in nodes
      ensures n in Elements(names)
    {
      NodeIsNamed(sys, role, x, t, n.0, n.1);
    }
  }

  /** Mapping one more address takes as many tables as the walk misses. */
  lemma MissingIsNewNodes(sys: Sys, role: seq<Role>, x: nat, t: nat, va: nat)
    requires InvFor(sys, role, x, {}) && t < |sys.mms| && va < VA_LIMIT
    ensures sys.mms[t].Wf()
    ensures |NodesOf(Vas(sys.mms[t].Users()) + {va})| == |NodesOf(Vas(sys.mms[t].Users()))| + Missing(sys, t, va)
  {
    assert TaskOk(sys.mms[t], t, role, {});
    var vas := Vas(sys.mms[t].Users());
    var n0, n1, n2, n3 := (0, Prefix(va, 0)), (1, Prefix(va, 1)), (2, Prefix(va, 2)), (3, Prefix(va, 3));
    forall l: nat | l <= 3
      ensures (l, Prefix(va, l)) in NodesOf(vas) <==> MissingAt(sys, t, va, l) == 0
    {
      PrefixBound(va, l);
      TablesAreOnTheWay(sys, role, x, t, l, Prefix(va, l));
    }
    NodesOfPlus(vas, va);
    AddFour(NodesOf(vas), n0, n1, n2, n3);
  }

  lemma NodesOfPlus(vas: set<nat>, va: nat)
    ensures NodesOf(vas + {va})
         == NodesOf(vas) + {(0, Prefix(va, 0)), (1, Prefix(va, 1)), (2, Prefix(va, 2)), (3, Prefix(va, 3))}
  {
  }

  lemma AddFour<T>(s: set<T>, a: T, b: T, c: T, d: T)
    requires a != b && a != c && a != d && b != c && b != d && c != d
    ensures |s + {a, b, c, d}| == |s| + (if a in s then 0 else 1) + (if b in s then 0 else 1)
                                + (if c in s then 0 else 1) + (if d in s then 0 else 1)
  {
    AddOne(s, a);
    AddOne(s + {a}, b);
    AddOne(s + {a} + {b}, c);
    AddOne(s + {a} + {b} + {c}, d);
    assert s + {a, b, c, d} == s + {a} + {b} + {c} + {d};
  }

  lemma AddOne<T>(s: set<T>, a: T)
    ensures |s + {a}| == |s| + if a in s then 0 else 1
  {
    if a in s {
      assert s + {a} == s;
    }
  }

  lemma NodesOfMonotone(vas: set<nat>, vas': set<nat>)
    requires vas <= vas'
    ensures NodesOf(vas) <= NodesOf(vas') && |NodesOf(vas)| <= |NodesOf(vas')|
  {
    SubsetSize(NodesOf(vas), NodesOf(vas'));
  }
}
