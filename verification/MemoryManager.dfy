/** The memory manager as it runs: a page pool and address spaces updated in place. Every
    method computes exactly its function of module MmSpec. */
module MemoryManager {
  import opened Bits
  import opened PageTables
  import opened MmSpec

  /** `struct mm_struct` of one task. */
  class AddressSpace {
    var pgd: nat
    var userPagesCount: nat
    const userPages: array<UserPage>
    var kernelPagesCount: nat
    const kernelPages: array<nat>

    constructor ()
      ensures Valid() && State().pgd == 0 && State().userPagesCount == 0 && State().kernelPagesCount == 0
      ensures fresh(userPages) && fresh(kernelPages)
    {
      pgd, userPagesCount, kernelPagesCount := 0, 0, 0;
      userPages := new UserPage[MAX_PROCESS_PAGES](_ => UserPage(0, 0));
      kernelPages := new nat[MAX_PROCESS_PAGES](_ => 0);
    }

    ghost predicate Valid()
      reads this
    {
      && userPages.Length == MAX_PROCESS_PAGES && kernelPages.Length == MAX_PROCESS_PAGES
      && userPagesCount <= MAX_PROCESS_PAGES && kernelPagesCount < MAX_PROCESS_PAGES
      && (pgd == 0 || InPool(pgd))
    }

    ghost function State(): (mm: MmStruct)
      reads this, userPages, kernelPages
      requires Valid()
      ensures mm.Wf()
    {
      MmStruct(pgd, userPagesCount, userPages[..], kernelPagesCount, kernelPages[..])
    }
  }

  /** `mem_map` and the pages it stands for. */
  class PagePool {
    const memMap: array<nat>
    const mem: array<Page>

    constructor ()
      ensures Valid() && fresh(memMap) && fresh(mem)
      ensures forall f :: 0 <= f < PAGING_PAGES ==> State().memMap[f] == 0
    {
      memMap := new nat[PAGING_PAGES](_ => 0);
      mem := new Page[PAGING_PAGES](_ => ZeroPage());
    }

    ghost predicate Valid() {
      memMap.Length == PAGING_PAGES && mem.Length == PAGING_PAGES
    }

    ghost function State(): (ph: Phys)
      reads memMap, mem
      requires Valid()
      ensures ph.Wf()
    {
      Phys(memMap[..], mem[..])
    }

    method GetFreePage() returns (page: Word)
      requires Valid()
      modifies memMap, mem
      ensures (State(), page) == MmSpec.GetFreePage(old(State()))
    {
      var i := 0;
      while i < PAGING_PAGES
        invariant i <= PAGING_PAGES
        invariant State() == old(State())
        invariant FirstFree(memMap[..], 0) == FirstFree(memMap[..], i)
      {
        if memMap[i] == 0 {
          memMap[i] := 1;
          page := LOW_MEMORY + i * PAGE_SIZE;
          mem[i] := ZeroPage();
          assert State() == Take(old(State()), i);
          return;
        }
        i := i + 1;
      }
      return 0;
    }

    method FreePage(p: nat)
      requires Valid() && InPool(p)
      modifies memMap
      ensures State() == MmSpec.FreePage(old(State()), p)
    {
      memMap[(p - LOW_MEMORY) / PAGE_SIZE] := 0;
    }

    method WriteEntry(table: nat, index: nat, entry: Word)
      requires Valid() && InPool(table) && index < PTRS_PER_TABLE
      modifies mem
      ensures State() == WriteWord(old(State()), table, index, entry)
    {
      var f := FrameOf(table);
      mem[f] := mem[f][index := entry];
    }

    method MapTableEntry(pte: nat, va: nat, pa: nat)
      requires Valid() && InPool(pte) && InPool(pa)
      modifies mem
      ensures State() == WriteWord(old(State()), pte, Index(va, PAGE_SHIFT), Descriptor(pa, MMU_PTE_FLAGS))
    {
      var index := Shr(va, PAGE_SHIFT);
      index := And(index, PTRS_PER_TABLE - 1);
      OrIsSum(pa, MMU_PTE_FLAGS);
      assert index == Index(va, PAGE_SHIFT);
      WriteEntry(pte, index, Or(pa, MMU_PTE_FLAGS));
    }

    method MapTable(table: nat, shift: nat, va: nat) returns (next: nat, newTable: bool)
      requires Valid() && InPool(table)
      modifies memMap, mem
      ensures (State(), next, newTable) == MmSpec.MapTable(old(State()), table, shift, va)
    {
      var index := Shr(va, shift);
      index := And(index, PTRS_PER_TABLE - 1);
      assert index == Index(va, shift);
      if mem[FrameOf(table)][index] == 0 {
        newTable := true;
        next := GetFreePage();
        OrIsSum(next, MM_TYPE_PAGE_TABLE);
        WriteEntry(table, index, Or(next, MM_TYPE_PAGE_TABLE));
      } else {
        newTable := false;
        next := And(mem[FrameOf(table)][index], PAGE_MASK);
      }
    }

    /** `task->mm.kernel_pages[++task->mm.kernel_pages_count] = page`. */
    method RecordTable(task: AddressSpace, page: nat) returns (outcome: Outcome)
      requires Valid() && task.Valid() && task.kernelPages != memMap && (page == 0 || InPool(page))
      modifies task`kernelPagesCount, task.kernelPages
      ensures task.Valid() && State() == old(State())
      ensures Progress(State(), task.State(), page, outcome) == Record(old(State()), old(task.State()), page)
    {
      if page == 0 {
        return NullTable;
      }
      if task.kernelPagesCount + 1 >= MAX_PROCESS_PAGES {
        return ListOverflow;
      }
      task.kernelPagesCount := task.kernelPagesCount + 1;
      task.kernelPages[task.kernelPagesCount] := page;
      return Mapped;
    }

    method EnsurePgd(task: AddressSpace) returns (pgd: nat, outcome: Outcome)
      requires Valid() && task.Valid() && task.kernelPages != memMap
      modifies memMap, mem, task`pgd, task`kernelPagesCount, task.kernelPages
      ensures task.Valid()
      ensures Progress(State(), task.State(), pgd, outcome) == EnsureRoot(old(State()), old(task.State()))
    {
      outcome := Mapped;
      if task.pgd == 0 {
        task.pgd := GetFreePage();
        outcome := RecordTable(task, task.pgd);
      }
      pgd := task.pgd;
    }

    /** `map_table` for one level, with the record of a new table. */
    method NextLevel(task: AddressSpace, table: nat, shift: nat, va: nat) returns (next: nat, outcome: Outcome)
      requires Valid() && task.Valid() && task.kernelPages != memMap && InPool(table)
      modifies memMap, mem, task`kernelPagesCount, task.kernelPages
      ensures task.Valid()
      ensures Progress(State(), task.State(), next, outcome)
           == Descend(Progress(old(State()), old(task.State()), table, Mapped), shift, va)
    {
      var newTable: bool;
      next, newTable := MapTable(table, shift, va);
      if newTable {
        outcome := RecordTable(task, next);
      } else {
        outcome := if InPool(next) then Mapped else NullTable;
      }
    }

    /** The last-level entry and the record in the shadow list. */
    method MapInTable(task: AddressSpace, pte: nat, va: nat, page: nat) returns (outcome: Outcome)
      requires Valid() && task.Valid() && InPool(pte) && InPool(page)
      modifies mem, task`userPagesCount, task.userPages
      ensures task.Valid()
      ensures Progress(State(), task.State(), pte, outcome)
           == MapLeaf(Progress(old(State()), old(task.State()), pte, Mapped), va, page)
    {
      MapTableEntry(pte, va, page);
      if task.userPagesCount >= MAX_PROCESS_PAGES {
        return ListOverflow;
      }
      task.userPages[task.userPagesCount] := UserPage(page, va);
      task.userPagesCount := task.userPagesCount + 1;
      return Mapped;
    }

    method MapPage(task: AddressSpace, va: nat, page: nat) returns (outcome: Outcome)
      requires Valid() && task.Valid() && task.kernelPages != memMap && InPool(page)
      modifies memMap, mem, task, task.userPages, task.kernelPages
      ensures task.Valid()
      ensures var r := MmSpec.MapPage(old(State()), old(task.State()), va, page);
        State() == r.ph && task.State() == r.mm && outcome == r.outcome
    {
      var pgd, pud, pmd, pte;
      pgd, outcome := EnsurePgd(task);
      if outcome != Mapped { return; }
      pud, outcome := NextLevel(task, pgd, PGD_SHIFT, va);
      if outcome != Mapped { return; }
      pmd, outcome := NextLevel(task, pud, PUD_SHIFT, va);
      if outcome != Mapped { return; }
      pte, outcome := NextLevel(task, pmd, PMD_SHIFT, va);
      if outcome != Mapped { return; }
      outcome := MapInTable(task, pte, va, page);
    }

    method AllocateUserPage(task: AddressSpace, va: nat) returns (r: Alloc)
      requires Valid() && task.Valid() && task.kernelPages != memMap
      modifies memMap, mem, task, task.userPages, task.kernelPages
      ensures task.Valid()
      ensures (State(), task.State(), r) == MmSpec.AllocateUserPage(old(State()), old(task.State()), va)
      ensures r.Got? ==> InPool(r.page)
    {
      var page := GetFreePage();
      if page == 0 {
        return NoPage;
      }
      var outcome := MapPage(task, va, page);
      r := if outcome == Mapped then Got(page) else Broken(outcome);
    }

    method DoMemAbort(current: AddressSpace, addr: Word, esr: nat) returns (r: Alloc)
      requires Valid() && current.Valid() && current.kernelPages != memMap
      modifies memMap, mem, current, current.userPages, current.kernelPages
      ensures current.Valid()
      ensures (State(), current.State(), r) == MmSpec.DoMemAbort(old(State()), old(current.State()), addr, esr)
    {
      var dfs := And(esr, 0x3f);
      if And(dfs, 0x3c) == 0x4 {
        r := AllocateUserPage(current, And(addr, PAGE_MASK));
      } else {
        r := NoPage;
      }
    }

    /** `memcpy(va, page, PAGE_SIZE)`, the source read through the tables at `pgd`. */
    method CopyPageFrom(pgd: nat, va: nat, page: nat) returns (fault: bool)
      requires Valid() && InPool(page)
      modifies mem
      ensures var from := Walk(old(State()).mem, pgd, va);
        fault == !InPool(from) && State() == if fault then old(State()) else CopyPage(old(State()), from, page)
    {
      var from := Walk(mem[..], pgd, va);
      fault := !InPool(from);
      if !fault {
        mem[FrameOf(page)] := mem[FrameOf(from)];
      }
    }

    /** One round of the loop of `copy_virt_memory`; `Done` lets it go on. */
    method CopyUserPage(current: AddressSpace, child: AddressSpace, i: nat) returns (r: Copied)
      requires Valid() && current.Valid() && child.Valid() && i < current.userPagesCount
      requires current != child && current.userPages != child.userPages && current.kernelPages != child.kernelPages
      requires child.kernelPages != memMap && current.kernelPages != memMap
      modifies memMap, mem, child, child.userPages, child.kernelPages
      ensures child.Valid() && current.Valid() && current.State() == old(current.State())
      ensures CopyFrom(old(State()), old(current.State()), old(child.State()), i)
           == if r == Done then CopyFrom(State(), current.State(), child.State(), i + 1)
              else (State(), child.State(), r)
    {
      var va := current.userPages[i].virtAddr;
      var a := AllocateUserPage(child, va);
      match a
      case NoPage => return Refused;
      case Broken(why) => return Wrecked(why);
      case Got(page) =>
        var fault := CopyPageFrom(current.pgd, va, page);
        return if fault then SourceFault else Done;
    }

    /** `copy_virt_memory`: `current` is the running task, `child` the task being built. */
    method CopyVirtMemory(current: AddressSpace, child: AddressSpace) returns (r: Copied)
      requires Valid() && current.Valid() && child.Valid()
      requires current != child && current.userPages != child.userPages && current.kernelPages != child.kernelPages
      requires child.kernelPages != memMap && current.kernelPages != memMap
      modifies memMap, mem, child, child.userPages, child.kernelPages
      ensures child.Valid() && current.Valid() && current.State() == old(current.State())
      ensures (State(), child.State(), r) == CopyFrom(old(State()), old(current.State()), old(child.State()), 0)
    {
      var i := 0;
      while i < current.userPagesCount
        invariant i <= current.userPagesCount
        invariant child.Valid() && current.Valid() && current.State() == old(current.State())
        invariant CopyFrom(State(), current.State(), child.State(), i)
               == CopyFrom(old(State()), old(current.State()), old(child.State()), 0)
      {
        r := CopyUserPage(current, child, i);
        if r != Done {
          return;
        }
        i := i + 1;
      }
      return Done;
    }
  }
}
