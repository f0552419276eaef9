/** Who owns each page, and why the page-table operations keep every task's tables a tree of
    its own. */
module MmInvariant {
  import opened PageTables
  import opened MmSpec

  /** The use of one page of the pool. `Node(t, l, p)` is the level-`l` table of task `t`
      named `p`, or its user page when `l` is 4; `Held` is a page handed out and mapped
      nowhere (kernel pages). */
  datatype Role = Free | Held | Node(task: nat, level: nat, name: nat)

  // ---- The shape of the tables ------------------------------------------------------

  ghost predicate IsNode(mms: seq<MmStruct>, t: nat, l: nat, p: nat) {
    t < |mms| && l <= 4 && p < Width(l)
  }

  /** The address of node `p` of level `l` of task `t`; 0 for none. */
  ghost function At(mem: seq<Page>, mms: seq<MmStruct>, t: nat, l: nat, p: nat): nat
    requires |mem| == PAGING_PAGES && IsNode(mms, t, l, p)
  {
    Lookup(mem, mms[t].pgd, l, p)
  }

  ghost predicate Placed(mem: seq<Page>, mms: seq<MmStruct>, r: Role, f: nat)
    requires |mem| == PAGING_PAGES && r.Node? && f < PAGING_PAGES
  {
    IsNode(mms, r.task, r.level, r.name) && At(mem, mms, r.task, r.level, r.name) == FrameAddr(f)
  }

  ghost predicate Owned(role: seq<Role>, r: Role, a: nat)
    requires |role| == PAGING_PAGES
  {
    a == 0 || (InPool(a) && role[FrameOf(a)] == r)
  }

  ghost predicate EntryOk(l: nat, e: Word)
    requires l <= 3
  {
    e == 0 || (e >= Flags(l) && InPool(e - Flags(l)))
  }

  ghost predicate EntriesOk(r: Role, page: Page) {
    r.Node? && r.level <= 3 ==> forall s :: 0 <= s < 512 ==> EntryOk(r.level, page[s])
  }

  /** `role` is the inverse of `At`: a page is the node it is named after, every node found
      is so named, and table entries are 0 or well-formed. */
  ghost predicate Trees(mem: seq<Page>, mms: seq<MmStruct>, role: seq<Role>) {
    && |mem| == PAGING_PAGES && |role| == PAGING_PAGES
    && (forall f: nat :: f < PAGING_PAGES && role[f].Node? ==> Placed(mem, mms, role[f], f))
    && (forall t: nat, l: nat, p: nat :: IsNode(mms, t, l, p) ==> Owned(role, Node(t, l, p), At(mem, mms, t, l, p)))
    && (forall f: nat :: f < PAGING_PAGES ==> EntriesOk(role[f], mem[f]))
  }

  /** All lookups stay as they are, except that node `c` (if it is one) is now at `a`. */
  ghost predicate LookupsPlus(
      mem: seq<Page>, mms: seq<MmStruct>, mem': seq<Page>, mms': seq<MmStruct>, c: Role, a: nat)
  {
    && |mem| == PAGING_PAGES && |mem'| == PAGING_PAGES && |mms'| == |mms|
    && forall t: nat, l: nat, p: nat :: IsNode(mms, t, l, p) ==> LookupPlus(mem, mms, mem', mms', c, a, t, l, p)
  }

  ghost predicate LookupPlus(
      mem: seq<Page>, mms: seq<MmStruct>, mem': seq<Page>, mms': seq<MmStruct>, c: Role, a: nat, t: nat, l: nat, p: nat)
    requires |mem| == PAGING_PAGES && |mem'| == PAGING_PAGES && |mms'| == |mms| && IsNode(mms, t, l, p)
  {
    && At(mem', mms', t, l, p) == (if Node(t, l, p) == c then a else At(mem, mms, t, l, p))
    && (Node(t, l, p) == c ==> At(mem, mms, t, l, p) == 0)
  }

  lemma WidthStep(l: nat, p: nat)
    requires 1 <= l <= 4
    ensures p < Width(l) <==> p / 512 < Width(l - 1)
  {
  }

  /** The entry of slot `s` of the level-`l` table at `table`, followed. */
  ghost function Below(mem: seq<Page>, table: nat, l: nat, s: nat): nat
    requires |mem| == PAGING_PAGES && l <= 3 && s < 512
  {
    if InPool(table) then Target(l, mem[FrameOf(table)][s]) else 0
  }

  lemma AtStep(mem: seq<Page>, mms: seq<MmStruct>, t: nat, l: nat, p: nat)
    requires |mem| == PAGING_PAGES && l > 0 && IsNode(mms, t, l, p) && IsNode(mms, t, l - 1, p / 512)
    ensures At(mem, mms, t, l, p) == Below(mem, At(mem, mms, t, l - 1, p / 512), l - 1, p % 512)
  {
  }

  ghost predicate SameTables(mem: seq<Page>, mem': seq<Page>, role: seq<Role>) {
    && |mem| == PAGING_PAGES && |mem'| == PAGING_PAGES && |role| == PAGING_PAGES
    && forall f: nat :: f < PAGING_PAGES && role[f].Node? && role[f].level <= 3 ==> mem'[f] == mem[f]
  }

  /** Contents of pages that are no tables do not influence any lookup. */
  lemma {:induction false} FrameLookup(
      mem: seq<Page>, mem': seq<Page>, mms: seq<MmStruct>, role: seq<Role>, t: nat, l: nat, p: nat)
    requires Trees(mem, mms, role) && SameTables(mem, mem', role)
    requires IsNode(mms, t, l, p)
    ensures At(mem', mms, t, l, p) == At(mem, mms, t, l, p)
    decreases l
  {
    if l > 0 {
      WidthStep(l, p);
      assert IsNode(mms, t, l - 1, p / 512);
      FrameLookup(mem, mem', mms, role, t, l - 1, p / 512);
    }
  }

  lemma Frame(mem: seq<Page>, mem': seq<Page>, mms: seq<MmStruct>, role: seq<Role>)
    requires Trees(mem, mms, role) && SameTables(mem, mem', role)
    ensures LookupsPlus(mem, mms, mem', mms, Free, 0) && Trees(mem', mms, role)
  {
    forall t: nat, l: nat, p: nat | IsNode(mms, t, l, p)
      ensures LookupPlus(mem, mms, mem', mms, Free, 0, t, l, p)
    {
      FrameLookup(mem, mem', mms, role, t, l, p);
    }
    TreesFromLookups(mem, mms, mem', mms, role, Free, 0);
  }

  /** The roles follow the lookups when one node is added (or none, when `c` is `Free`). */
  lemma TreesFromLookups(
      mem: seq<Page>, mms: seq<MmStruct>, mem': seq<Page>, mms': seq<MmStruct>, role: seq<Role>, c: Role, g: nat)
    requires Trees(mem, mms, role) && g < PAGING_PAGES
    requires LookupsPlus(mem, mms, mem', mms', c, FrameAddr(g))
    requires c.Node? ==> IsNode(mms, c.task, c.level, c.name) && !role[g].Node?
    requires c.Node? || c == Free
    requires forall f: nat :: f < PAGING_PAGES && (c.Node? ==> f != g) ==> EntriesOk(role[f], mem'[f])
    requires c.Node? ==> EntriesOk(c, mem'[g])
    ensures Trees(mem', mms', if c.Node? then role[g := c] else role)
  {
    var role' := if c.Node? then role[g := c] else role;
    forall f: nat | f < PAGING_PAGES && role'[f].Node?
      ensures Placed(mem', mms', role'[f], f)
    {
      var r := role'[f];
      if f == g && c.Node? {
        assert LookupPlus(mem, mms, mem', mms', c, FrameAddr(g), r.task, r.level, r.name);
      } else {
        assert Placed(mem, mms, role[f], f);
        assert LookupPlus(mem, mms, mem', mms', c, FrameAddr(g), r.task, r.level, r.name);
      }
    }
    forall t: nat, l: nat, p: nat | IsNode(mms', t, l, p)
      ensures Owned(role', Node(t, l, p), At(mem', mms', t, l, p))
    {
      assert IsNode(mms, t, l, p);
      assert LookupPlus(mem, mms, mem', mms', c, FrameAddr(g), t, l, p);
    }
  }

  // ---- Adding a node ----------------------------------------------------------------

  /** `mem'` is `mem` with word `s` of page `f` set to `e`. */
  ghost predicate Wrote(mem: seq<Page>, mem': seq<Page>, f: nat, s: nat, e: Word) {
    && |mem| == PAGING_PAGES && |mem'| == PAGING_PAGES && f < PAGING_PAGES && s < 512
    && (forall h: nat :: h < PAGING_PAGES && h != f ==> mem'[h] == mem[h])
    && (forall i: nat :: i < 512 ==> mem'[f][i] == if i == s then e else mem[f][i])
  }

  ghost predicate CanLink(mem: seq<Page>, mms: seq<MmStruct>, role: seq<Role>, f: nat, s: nat, g: nat) {
    && Trees(mem, mms, role)
    && f < PAGING_PAGES && g < PAGING_PAGES && s < 512
    && role[f].Node? && role[f].level <= 3 && mem[f][s] == 0
    && !role[g].Node?
    && (role[f].level < 3 ==> forall i: nat :: i < 512 ==> mem[g][i] == 0)
  }

  ghost function Child(r: Role, s: nat): Role
    requires r.Node?
  {
    Node(r.task, r.level + 1, r.name * 512 + s)
  }

  lemma BelowAfterWrite(mem: seq<Page>, mem': seq<Page>, f: nat, s: nat, e: Word, table: nat, l: nat, i: nat)
    requires Wrote(mem, mem', f, s, e) && InPool(table) && l <= 3 && i < 512
    ensures Below(mem', table, l, i) == if FrameOf(table) == f && i == s then Target(l, e) else Below(mem, table, l, i)
  {
  }

  lemma BelowZero(mem: seq<Page>, table: nat, l: nat, i: nat)
    requires |mem| == PAGING_PAGES && l <= 3 && i < 512
    requires InPool(table) ==> mem[FrameOf(table)][i] == 0
    ensures Below(mem, table, l, i) == 0
  {
  }

  lemma LinkStep(
      mem: seq<Page>, mem': seq<Page>, role: seq<Role>, f: nat, s: nat, g: nat,
      parent: Role, i: nat, table: nat, table': nat)
    requires |role| == PAGING_PAGES && f < PAGING_PAGES && g < PAGING_PAGES && s < 512 && i < 512
    requires role[f].Node? && role[f].level <= 3 && !role[g].Node? && parent.Node? && parent.level <= 3
    requires Wrote(mem, mem', f, s, FrameAddr(g) + Flags(role[f].level)) && mem[f][s] == 0
    requires role[f].level < 3 ==> forall i: nat :: i < 512 ==> mem[g][i] == 0
    requires table' == if parent == Child(role[f], s) then FrameAddr(g) else table
    requires parent == Child(role[f], s) ==> table == 0
    requires Owned(role, parent, table) && (role[f] == parent ==> table == FrameAddr(f))
    ensures Below(mem', table', parent.level, i)
         == if Child(parent, i) == Child(role[f], s) then FrameAddr(g) else Below(mem, table, parent.level, i)
    ensures Child(parent, i) == Child(role[f], s) ==> Below(mem, table, parent.level, i) == 0
  {
    var l := parent.level;
    if parent == Child(role[f], s) {
      assert f != g && mem'[g] == mem[g];
      BelowZero(mem', table', l, i);
    } else if table != 0 {
      BelowAfterWrite(mem, mem', f, s, FrameAddr(g) + Flags(role[f].level), table, l, i);
      if FrameOf(table) == f && i == s {
        TargetOfEncoding(l, FrameAddr(g));
        BelowZero(mem, table, l, i);
      } else if FrameOf(table) == f {
        assert role[f] == parent;
      }
    }
  }

  lemma LinkUp(
      mem: seq<Page>, mem': seq<Page>, mms: seq<MmStruct>, role: seq<Role>, f: nat, s: nat, g: nat,
      t: nat, l: nat, p: nat)
    requires |role| == PAGING_PAGES && f < PAGING_PAGES && g < PAGING_PAGES && s < 512
    requires role[f].Node? && role[f].level <= 3 && !role[g].Node?
    requires Wrote(mem, mem', f, s, FrameAddr(g) + Flags(role[f].level)) && mem[f][s] == 0
    requires role[f].level < 3 ==> forall i: nat :: i < 512 ==> mem[g][i] == 0
    requires l > 0 && IsNode(mms, t, l, p) && IsNode(mms, t, l - 1, p / 512)
    requires LookupPlus(mem, mms, mem', mms, Child(role[f], s), FrameAddr(g), t, l - 1, p / 512)
    requires Owned(role, Node(t, l - 1, p / 512), At(mem, mms, t, l - 1, p / 512))
    requires role[f] == Node(t, l - 1, p / 512) ==> At(mem, mms, t, l - 1, p / 512) == FrameAddr(f)
    ensures LookupPlus(mem, mms, mem', mms, Child(role[f], s), FrameAddr(g), t, l, p)
  {
    var parent := Node(t, l - 1, p / 512);
    assert Child(parent, p % 512) == Node(t, l, p);
    AtStep(mem, mms, t, l, p);
    AtStep(mem', mms, t, l, p);
    LinkStep(mem, mem', role, f, s, g, parent, p % 512,
             At(mem, mms, t, l - 1, p / 512), At(mem', mms, t, l - 1, p / 512));
  }

  lemma NodeFound(mem: seq<Page>, mms: seq<MmStruct>, role: seq<Role>, f: nat, t: nat, l: nat, p: nat)
    requires Trees(mem, mms, role) && f < PAGING_PAGES && IsNode(mms, t, l, p)
    ensures Owned(role, Node(t, l, p), At(mem, mms, t, l, p))
    ensures role[f] == Node(t, l, p) ==> At(mem, mms, t, l, p) == FrameAddr(f)
  {
    if role[f] == Node(t, l, p) {
      assert Placed(mem, mms, role[f], f);
    }
  }

  lemma LinkNext(
      mem: seq<Page>, mem': seq<Page>, mms: seq<MmStruct>, role: seq<Role>, f: nat, s: nat, g: nat,
      t: nat, l: nat, p: nat)
    requires CanLink(mem, mms, role, f, s, g) && l > 0 && IsNode(mms, t, l, p) && IsNode(mms, t, l - 1, p / 512)
    requires Wrote(mem, mem', f, s, FrameAddr(g) + Flags(role[f].level))
    requires LookupPlus(mem, mms, mem', mms, Child(role[f], s), FrameAddr(g), t, l - 1, p / 512)
    ensures LookupPlus(mem, mms, mem', mms, Child(role[f], s), FrameAddr(g), t, l, p)
  {
    NodeFound(mem, mms, role, f, t, l - 1, p / 512);
    LinkUp(mem, mem', mms, role, f, s, g, t, l, p);
  }

  lemma {:induction false} LinkLookup(
      mem: seq<Page>, mem': seq<Page>, mms: seq<MmStruct>, role: seq<Role>, f: nat, s: nat, g: nat,
      t: nat, l: nat, p: nat)
    requires CanLink(mem, mms, role, f, s, g) && IsNode(mms, t, l, p)
    requires Wrote(mem, mem', f, s, FrameAddr(g) + Flags(role[f].level))
    ensures LookupPlus(mem, mms, mem', mms, Child(role[f], s), FrameAddr(g), t, l, p)
    decreases l
  {
    if l > 0 {
      WidthStep(l, p);
      var p' := p / 512;
      assert IsNode(mms, t, l - 1, p');
      LinkLookup(mem, mem', mms, role, f, s, g, t, l - 1, p');
      LinkNext(mem, mem', mms, role, f, s, g, t, l, p);
    }
  }

  lemma LinkedIsNode(mem: seq<Page>, mms: seq<MmStruct>, role: seq<Role>, f: nat, s: nat)
    requires Trees(mem, mms, role) && f < PAGING_PAGES && role[f].Node? && role[f].level <= 3 && s < 512
    ensures IsNode(mms, role[f].task, role[f].level + 1, role[f].name * 512 + s)
  {
  }

  lemma LinkEntries(mem: seq<Page>, mem': seq<Page>, mms: seq<MmStruct>, role: seq<Role>, f: nat, s: nat, g: nat)
    requires CanLink(mem, mms, role, f, s, g)
    requires Wrote(mem, mem', f, s, FrameAddr(g) + Flags(role[f].level))
    ensures forall h: nat :: h < PAGING_PAGES ==> EntriesOk(role[h], mem'[h])
    ensures EntriesOk(Child(role[f], s), mem'[g])
  {
  }

  /** Writing a descriptor of page `g` into an empty entry adds one node and moves nothing. */
  lemma Link(mem: seq<Page>, mem': seq<Page>, mms: seq<MmStruct>, role: seq<Role>, f: nat, s: nat, g: nat)
    requires CanLink(mem, mms, role, f, s, g)
    requires Wrote(mem, mem', f, s, FrameAddr(g) + Flags(role[f].level))
    ensures LookupsPlus(mem, mms, mem', mms, Child(role[f], s), FrameAddr(g))
    ensures Trees(mem', mms, role[g := Child(role[f], s)])
  {
    var c := Child(role[f], s);
    forall t: nat, l: nat, p: nat | IsNode(mms, t, l, p)
      ensures LookupPlus(mem, mms, mem', mms, c, FrameAddr(g), t, l, p)
    {
      LinkLookup(mem, mem', mms, role, f, s, g, t, l, p);
    }
    LinkedIsNode(mem, mms, role, f, s);
    LinkEntries(mem, mem', mms, role, f, s, g);
    TreesFromLookups(mem, mms, mem', mms, role, c, g);
  }

  lemma {:induction false} RootLookup(
      mem: seq<Page>, mms: seq<MmStruct>, mms': seq<MmStruct>, t: nat, g: nat, u: nat, l: nat, p: nat)
    requires |mem| == PAGING_PAGES && t < |mms| && g < PAGING_PAGES && mms[t].pgd == 0
    requires forall i: nat :: i < 512 ==> mem[g][i] == 0
    requires |mms'| == |mms| && mms'[t].pgd == FrameAddr(g)
    requires forall v :: 0 <= v < |mms| && v != t ==> mms'[v].pgd == mms[v].pgd
    requires IsNode(mms, u, l, p)
    ensures LookupPlus(mem, mms, mem, mms', Node(t, 0, 0), FrameAddr(g), u, l, p)
    ensures u == t ==> At(mem, mms, u, l, p) == 0
    decreases l
  {
  }

  /** Giving a task without tables a zeroed page as its PGD. */
  lemma Root(mem: seq<Page>, mms: seq<MmStruct>, mms': seq<MmStruct>, role: seq<Role>, t: nat, g: nat)
    requires Trees(mem, mms, role) && t < |mms| && g < PAGING_PAGES && !role[g].Node? && mms[t].pgd == 0
    requires forall i: nat :: i < 512 ==> mem[g][i] == 0
    requires |mms'| == |mms| && mms'[t].pgd == FrameAddr(g)
    requires forall v :: 0 <= v < |mms| && v != t ==> mms'[v].pgd == mms[v].pgd
    ensures LookupsPlus(mem, mms, mem, mms', Node(t, 0, 0), FrameAddr(g))
    ensures Trees(mem, mms', role[g := Node(t, 0, 0)])
  {
    forall u: nat, l: nat, p: nat | IsNode(mms, u, l, p)
      ensures LookupPlus(mem, mms, mem, mms', Node(t, 0, 0), FrameAddr(g), u, l, p)
    {
      RootLookup(mem, mms, mms', t, g, u, l, p);
    }
    TreesFromLookups(mem, mms, mem, mms', role, Node(t, 0, 0), g);
  }
}
