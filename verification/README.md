# A verified model of the step-by-step Raspberry Pi 3 kernel

The kernel keeps its physical pages, page tables, run queues, mail rings and file buffer in
plain arrays and pointers, and most of its functions trust their callers. This project models
the parts of steps 5 to 8 with the most state, and proves what they keep, what they compute, and
exactly when an unchecked assumption of the code fails.

Code that updates state in place is modelled as classes and methods over arrays and objects.
Each such method is proved equal to a function on values, and the theorems are about those
functions and about whole runs of them. Where a promise of the code holds only under a
condition, the condition is stated with its converse.

| file | contents |
|---|---|
| `Bits.dfy`, `Common.dfy`, `Finite.dfy`, `PageTables.dfy` | bit operators of C, shared names, finite sets, physical memory, descriptors, the MMU's table walk |
| `MmSpec.dfy` | the memory manager as functions on values |
| `MmInvariant.dfy`, `MmOwnership.dfy` | who owns which frame, and what adding one node moves |
| `MmMapping.dfy`, `MmCalls.dfy`, `MmRemap.dfy` | `map_page`, its callers, and remapping |
| `MmShadow.dfy`, `MmFork.dfy`, `MmRuns.dfy`, `MmUses.dfy` | shadow lists and separation, fork, all reachable states, and what lasts over runs |
| `MemoryManager.dfy` | the memory manager in place |
| `SchedRing.dfy`, `ListScheduler.dfy` | the list scheduler as one ring, and in place |
| `CounterModel.dfy`, `CounterRuns.dfy`, `CounterScheduler.dfy` | the counter scheduler of step 5 |
| `IpcModel.dfy`, `IpcRuns.dfy`, `MailRing.dfy`, `MessageSystem.dfy` | rendezvous messages, the mail ring, both in place |
| `FatModel.dfy`, `FatLoad.dfy`, `FatVolume.dfy`, `FatLoop.dfy`, `FatReader.dfy` | FAT chains and layout, loading a file, volumes as the specification lays them out, the loop on any buffer, the reader in place |
| `Digits.dfy`, `Printf.dfy` | number printing and reading |
| `SdClock.dfy`, `SystemTimer.dfy` | clock divisor, 64-bit timer read |

## What the model takes for granted

- Memory. A physical page of the pool is a sequence of 512 words of 64 bits; the linear map at
  `VA_START` is the identity on it. `memcpy` and `memzero` do what their names say. The MMU walk
  is that of the Arm Architecture Reference Manual, section D5.3 of DDI 0487F, for a 4KB granule
  and 48-bit addresses, with the attributes of section D5.4 (access permissions, execute-never,
  access flag) and D5.5 (memory type); it yields 0 when it leaves the pool or meets a descriptor
  it would fault on, also one that refuses user code a load, a store or an instruction fetch.
- Unchecked failures. `map_table` and `map_page` go on with page 0 when no page is left, and
  write behind their lists when these are full. The model stops at the first such point and names
  it (`NullTable`, `ListOverflow`); the theorems say exactly when it is reached. What
  `copy_virt_memory` returns in the end depends on the bitmap of pages alone, which the stores
  through page 0 are taken not to hit.
- Faults reach `do_mem_abort` only for addresses that do not translate, and
  `allocate_user_page` is called for unmapped, page-aligned addresses below 2^48.
  `MmRemap.AgreementIffUnmapped` says what depends on this.
- Atomicity. A scheduling decision, and the code of message passing between two calls of
  `schedule`, run without interruption; any task may go next.
- The counter scheduler starts from its static first task with priority 15, and every fork
  inherits that priority. A fork that gets its page finds a free slot in the task table (the
  source does not test for one).
- Letters are of type Rendezvous. Tasks are numbered by their place in the task table, of which
  there are at most 64, and letters go to tasks that exist.
- FAT. Layout and end-of-chain marks of the specification are those of the Microsoft FAT32 File
  System Specification, version 1.03, sections "Boot Sector and BPB Structure" and "FAT Data
  Structure". The card is a sequence of
  bytes and a set of unreadable sectors. The buffer is as large as the board's memory at most
  (1 GB) and large enough for the file, which the source does not test.

## Where the code and its promises part

- The list scheduler bypasses a queued node between two selections of another exactly when some
  decision walks past it while it is not runnable (`SchedRing.BypassedExactly`); for a node that
  stays runnable the bound of one bypass holds (`SchedRing.BypassAtMostOnce`), for one that does
  not there is no bound (`SchedRing.BlockedIsBypassed`).
- END_Thread works exactly for a node that has a back pointer and is not the last of its list
  (`ListScheduler.Scheduler.Unlink`). Threads have no back pointer, but they are not entered in
  `task[]` either (`thread.c:108`), so the daemon cannot name them; the input that fails is the
  last node of a list (`ListScheduler.Scheduler.EndNewest`).
- `copy_virt_memory` returns 0 if and only if its last round finds the page to copy to, because
  tables are not tested for. So it returns 0 without having copied everything exactly when the
  free pages cover all user pages and all tables but those of the last one, and not all tables
  (`MmFork.ForkReturns`, `MmUses.OnePageFork`).
- The counter scheduler chooses a task at most once between two refills, except that decisions
  without a running task choose slot 0 each time (`CounterRuns.ChosenAgainIffIdle`,
  `CounterRuns.IdleFromBoot`).
- A fork leaves its caller preemptible if and only if it gets its page
  (`CounterRuns.ForkKeepsPreemptionIffServed`).
- Two letters to the same task before it receives lose the first one for ever
  (`IpcModel.StrandedExactly`); that a send returns only after its own letter was received holds
  all the same, without a proviso (`IpcRuns.SendReturnsAfterReceipt`).
- A FAT32 chain is read to its end if and only if every number on it, with its four reserved
  bits, is below 0xFFF8; otherwise it is cut before the first that is not
  (`FatModel.ReadsSpecifiedChain`, `FatModel.CutChains`).
- The FAT copy is right if and only if the sectors up to the end of the FAT can be read
  (`FatLoop.FatCopiedExactly`). When the read fails the clusters go right behind the boot record
  (`FatLoop.FailedReadIsOverwritten`), and the first one that reaches sector `rsc` of the buffer
  goes over the copy (`FatLoop.FailedReadReachesFat`).
- `a2i` stops at the end of the digits if and only if no digit equal to the base stands there
  (`Printf.TakesDigitsExactly`, `Printf.LetterInBaseTen`).
- The timer read is linearisable without any bound on the ticks during the call
  (`SystemTimer.ReadLinearises`); the bound of 2^32 ticks makes it a sampled value.

## Model

| member | source | states |
|---|---|---|
| PageTables.IndexIsSlot | 8.mutex/src/memory_manager/mm.c:65-66 | `(va >> shift) & (PTRS_PER_TABLE - 1)` is the slot of that level's table for `va`, at all four shifts |
| PageTables.OrIsSum | 8.mutex/src/memory_manager/mm.c:67 | `a \| flags` puts the flag bits beside a page address without disturbing it |
| PageTables.MaskDropsFlags | 8.mutex/src/memory_manager/mm.c:83 | `e & PAGE_MASK` gives back exactly the address that was combined with the flags |
| PageTables.TargetOfEncoding | 8.mutex/include/arm/mmu.h:4-26 | the descriptor that is written is one the MMU follows, at every level, and its output address is the page |
| PageTables.LeafFields | 8.mutex/include/arm/mmu.h:4-26 | the descriptor `map_page` writes is a valid page with access for user code, readable and writable, executable, the access flag set and no other attribute, of the memory type that the attribute register holds as normal non-cacheable |
| PageTables.WalkIsLookup | 8.mutex/src/memory_manager/mm.c:86-112 | the MMU's walk from the top passes exactly through the nodes that the prefixes of the address name from the bottom |
| MmOwnership.FirstFit | 8.mutex/src/memory_manager/mm.c:47-58 | the page handed out is the lowest free one, and only its mark and bytes change |
| MmOwnership.TakeKeeps | 8.mutex/src/memory_manager/mm.c:47-58 | `get_free_page` fails exactly when no page is free; otherwise the page was free, is zeroed and marked, and no task's translation moves |
| MmMapping.RootStep | 8.mutex/src/memory_manager/mm.c:88-93 | giving a task a PGD succeeds exactly when a page and a list slot are left, and changes no leaf translation |
| MmMapping.DescendStep | 8.mutex/src/memory_manager/mm.c:95-109 | one level of `map_page` either finds the table or builds and records it; nothing else moves and the page and list accounts stay exact |
| MmMapping.BuildTables | 8.mutex/src/memory_manager/mm.c:86-109 | building the missing tables for an address stops short only if free pages and list slots do not cover the mapping; otherwise the table of the last level is there, no leaf translation has changed and the accounts are exact |
| MmMapping.ExhaustedTable | 8.mutex/src/memory_manager/mm.c:74-79 | with no page left `map_table` stores a descriptor that the MMU follows to physical page 0, and hands out 0 as table: the unchecked failure at which the model stops |
| MmMapping.LeafOnlyMaps | 8.mutex/src/memory_manager/mm.c:111-113 | writing the last descriptor makes exactly this address translate to exactly this page, through the flag encoding |
| MmCalls.MapPageCorrect | 8.mutex/src/memory_manager/mm.c:86-114 | `map_page` on an unmapped address succeeds if and only if pages and list slots suffice; then the walk yields the page and every other walk of every task, and every user byte, is as before |
| MmCalls.AllocateUserPageCorrect | 8.mutex/src/memory_manager/mm.c:38-45 | `allocate_user_page`: clean failure exactly when no page is free, unchecked failure exactly when tables run out, otherwise a zeroed page is mapped |
| MmCalls.ServedStatus | 8.mutex/src/memory_manager/mm.c:135-136 | the two masks of the fault handler let through exactly the status codes 4 to 7, the translation faults |
| MmCalls.DoMemAbortCorrect | 8.mutex/src/memory_manager/mm.c:134-154 | demand paging: a fault with status 4 to 7 maps a zeroed page so that the faulting walk yields it; one with any other status changes nothing |
| MmRemap.RemapBreaksAgreement | 8.mutex/src/memory_manager/mm.c:111-113 | mapping an address that is already mapped retargets the walk but keeps the stale pair in the shadow list |
| MmRemap.AgreementIffUnmapped | 8.mutex/src/memory_manager/mm.c:38-45 | after a successful `allocate_user_page` the shadow list agrees with the page tables if and only if the address was unmapped before |
| MmShadow.ShadowListIsTranslation | 8.mutex/src/memory_manager/mm.c:111-113 | the walk of `va` yields `page` exactly when `(page, va)` is in `user_pages[0..count)` |
| MmShadow.MappedIsUserMemory | 8.mutex/src/memory_manager/mm.c:111-113 | whatever address of a task translates, the MMU finds memory of the normal type there that user code may read, write and execute |
| MmShadow.InvSeparates | 8.mutex/src/memory_manager/mm.c:38-154 | all tables and user pages are in the pool, marked and pairwise distinct, within a task and between tasks |
| MmShadow.TablesAreOnTheWay | 8.mutex/src/memory_manager/mm.c:95-109 | a task owns a table for a prefix exactly when a listed address has that prefix: no table is missing and none is idle |
| MmShadow.TableCount | 8.mutex/src/memory_manager/mm.c:88-109 | `kernel_pages_count` equals the number of distinct table prefixes of the listed addresses |
| MmShadow.MissingIsNewNodes | 8.mutex/src/memory_manager/mm.c:95-109 | mapping one more address takes exactly as many tables as it adds prefixes |
| MmFork.CountsFit | 8.mutex/src/memory_manager/mm.c:116-130 | the child's lists never overflow during a fork: it needs no more slots than the parent has |
| MmFork.RoundKeeps | 8.mutex/src/memory_manager/mm.c:120-127 | one round of the copy loop keeps the loop's invariant: earlier copies survive and one more page is an exact copy |
| MmFork.CopyFromCorrect | 8.mutex/src/memory_manager/mm.c:116-130 | the copy loop from any round on, with the round it ends in: it completes exactly when the free pages cover all rounds, is refused in the round that finds no page, and goes wrong in the round that finds its page but not all its tables, with no page left |
| MmFork.ForkCopies | 8.mutex/src/memory_manager/mm.c:116-130 | every page gets its copy if and only if free pages cover the parent's pages plus tables; then for every address the child's walk yields a fresh page with the same 4096 bytes, and every other task keeps its translations and bytes |
| MmFork.NextRoundRefused | 8.mutex/src/memory_manager/mm.c:38-45 | with no page free `allocate_user_page` returns 0 and changes nothing, whatever the task looks like: so ends the loop that went on after an unchecked failure |
| MmFork.ForkReturns | 8.mutex/src/memory_manager/mm.c:116-130 | `copy_virt_memory` returns 0 if and only if the last round finds its page; so 0 is wrong exactly when the free pages cover that and not all tables |
| MmUses.OnePageFork | 8.mutex/src/memory_manager/mm.c:116-130 | from boot a state is reached in which `copy_virt_memory` of a task with one page and four tables, with four pages free, returns 0 without the last table |
| MmRuns.FreePageKeepsIffUnlisted | 8.mutex/src/memory_manager/mm.c:60-62 | `free_page` keeps the invariant if and only if the page is in nobody's lists |
| MmRuns.StoreKeeps | 8.mutex/src/memory_manager/mm.c:116-127 | a store by user code through its own translation cannot damage any table |
| MmRuns.StepKeeps | 8.mutex/src/memory_manager/mm.c:38-154 | every operation keeps the ownership invariant; pages in use keep their use, and pages that are no tables their bytes, except the page freed or stored to |
| MmRuns.ReachableIsSafe | 8.mutex/src/memory_manager/mm.c:38-154 | in every state reachable from boot all pages are separated and every shadow list agrees with its page table |
| MmRuns.ReachableIsUserMemory | 8.mutex/src/memory_manager/mm.c:38-154 | in every state reachable from boot each mapped address of each task is user memory to the MMU |
| MmUses.TranslationsStay | 8.mutex/src/memory_manager/mm.c:38-154 | over every run a mapped address keeps its physical page: no operation unmaps or moves it |
| MmUses.KernelPageIsExclusive | 8.mutex/src/memory_manager/mm.c:7-13 | a kernel page stays marked, unlisted and is not handed out again until it is freed, whatever runs in between; its bytes are the zeros it came with, changed by its owner's stores and by nothing else |
| MmUses.FirstPage | 8.mutex/src/memory_manager/mm.c:38-45 | from boot a new task can be given a page at any aligned address, and then sees it there: the theorems are not about impossible runs |
| MmUses.FirstFault | 8.mutex/src/memory_manager/mm.c:134-154 | from boot a new task that touches any address gets a page there if and only if the fault status is 4 to 7 |
| MemoryManager.PagePool.GetFreePage | 8.mutex/src/memory_manager/mm.c:47-58 | first-fit search loop, equal to its specification function |
| MemoryManager.PagePool.FreePage | 8.mutex/src/memory_manager/mm.c:60-62 | clears the bitmap entry of the page and nothing else |
| MemoryManager.PagePool.MapTableEntry | 8.mutex/src/memory_manager/mm.c:64-69 | writes the one descriptor word that the specification writes |
| MemoryManager.PagePool.MapTable | 8.mutex/src/memory_manager/mm.c:71-84 | in-place table step with its new-table flag, equal to its specification |
| MemoryManager.PagePool.MapPage | 8.mutex/src/memory_manager/mm.c:86-114 | the four-level mapping in place, equal to the specification `MmCalls.MapPageCorrect` is about |
| MemoryManager.PagePool.AllocateUserPage | 8.mutex/src/memory_manager/mm.c:38-45 | in place, equal to its specification, with the three outcomes told apart |
| MemoryManager.PagePool.DoMemAbort | 8.mutex/src/memory_manager/mm.c:134-154 | fault handler in place, equal to its specification |
| MemoryManager.PagePool.CopyVirtMemory | 8.mutex/src/memory_manager/mm.c:116-130 | the copy loop in place, equal to the specification `MmFork.ForkCopies` is about |
| SchedRing.SomeRunnableIsFound | 8.mutex/src/proc_manager/sched.c:78-95 | the search over the ring finds a node if and only if some queued node is runnable |
| SchedRing.DecisionApproaches | 8.mutex/src/proc_manager/sched.c:78-97 | a decision with `x` runnable selects `x`, or brings it nearer by exactly the nodes passed |
| SchedRing.AppendShifts | 8.mutex/src/app/fork.c:72-104 | an append moves a queued node away by one place or not at all, depending on where the new node lands |
| SchedRing.RemoveShifts | 8.mutex/src/proc_manager/pm_deamon.c:48-51 | unlinking another node never moves a node away |
| SchedRing.WaitIsBounded | 8.mutex/src/proc_manager/sched.c:68-131 | a node that stays runnable is selected within as many decisions as nodes were queued plus nodes appended meanwhile, over every run |
| SchedRing.NoOvertaking | 8.mutex/src/proc_manager/sched.c:78-97 | a node behind a runnable node is not selected before it, over every run |
| SchedRing.BypassAtMostOnce | 8.mutex/src/proc_manager/sched.c:78-97 | between two selections of `y`, a queued node that stays runnable is selected |
| SchedRing.PassedIsBlocked | 8.mutex/src/proc_manager/sched.c:87-93 | a decision walks past a node only if the node is not runnable then |
| SchedRing.SelectedIsFirst | 8.mutex/src/proc_manager/sched.c:78-97 | a decision selects a runnable node, and no node that comes up before it is runnable |
| SchedRing.SelectedIffNotPassedOver | 8.mutex/src/proc_manager/sched.c:78-97 | up to the next selection of a runnable node `y`, a node queued before it is selected if and only if no decision walks past it, that is, if the test of line 87 never fails at it |
| SchedRing.BypassedExactly | 8.mutex/src/proc_manager/sched.c:78-97 | between two successive selections of `y`, which stays runnable, a queued node is bypassed if and only if some decision walks past it |
| SchedRing.BlockedIsBypassed | 8.mutex/src/proc_manager/sched.c:87-93 | in every ring of two nodes or more, a node that is not runnable can be bypassed any number of times by any other |
| ListScheduler.FlatAppend | 8.mutex/src/app/fork.c:72-104 | appending to one of the four lists inserts at that list's end in their concatenation and moves nothing else |
| ListScheduler.FlatRemove | 8.mutex/src/proc_manager/pm_deamon.c:48-51 | taking a node out of one list takes exactly that node out of the concatenation |
| ListScheduler.HopDecreases | 8.mutex/src/proc_manager/sched.c:80-85 | the measure under which the hop over exhausted lists, with the wrap of `index`, terminates |
| ListScheduler.Scheduler.ViewValid | 8.mutex/src/proc_manager/sched.c:21-22 | the queued nodes are pairwise distinct: the lists are acyclic and share no node |
| ListScheduler.Scheduler.SkipExhausted | 8.mutex/src/proc_manager/sched.c:80-85 | the inner loop resets exhausted cursors to their heads, stops in front of a node and passes no node |
| ListScheduler.Scheduler.Search | 8.mutex/src/proc_manager/sched.c:78-95 | both loops terminate in front of the first runnable node in cyclic order |
| ListScheduler.Scheduler.IdleRound | 8.mutex/src/proc_manager/sched.c:78-95 | with nodes queued but none runnable, a round of the outer loop passes on and leaves the same situation: the loop never ends |
| ListScheduler.Scheduler.IdleHop | 8.mutex/src/proc_manager/sched.c:80-85 | with nothing queued, a turn of the inner loop meets an exhausted list again: that loop never ends |
| ListScheduler.Scheduler.ScheduleNext | 8.mutex/src/proc_manager/sched.c:68-131 | `_schedule` is a decision event of the ring: it selects the next runnable node of L0++L1++L2++L3 after the current one; `current` is the active cursor and all other cursors are at their heads; its state is 0, 2 or 3, and no node walked past has one of these states |
| ListScheduler.Scheduler.Schedule | 8.mutex/src/proc_manager/sched.c:133-138 | the same with the counter of the running task given up |
| ListScheduler.Scheduler.FindTail | 8.mutex/src/app/fork.c:74-77 | walking `nextp` from the cursor reaches the true tail of the list |
| ListScheduler.Scheduler.CopyProcess | 8.mutex/src/app/fork.c:49-106 | a fork is an append event of the ring: its block, not queued before, goes to the end of the list its flag names, runnable and with a back pointer to the node before it, and to none for another flag; no other node's back pointer changes |
| ListScheduler.Scheduler.AddThread | 8.mutex/src/proc_manager/thread.c:81-107 | a thread is an append event at the end of list 0, joinable and so among those that may run, without a back pointer |
| ListScheduler.Scheduler.PointersOf | 8.mutex/src/proc_manager/sched.c:76-97 | every queued node's `nextp` is its successor in the list, its `prevp` the predecessor or null |
| ListScheduler.Scheduler.Unlink | 8.mutex/src/proc_manager/pm_deamon.c:48-51 | the unlink faults exactly for a node without `prevp` or at the end of its list; otherwise it is an unlink event of the ring and never moves the active cursor |
| ListScheduler.Scheduler.LastHasNoNext | 8.mutex/src/proc_manager/pm_deamon.c:50 | the last node of a list has no successor whose `prevp` could be set |
| ListScheduler.Scheduler.EndForked | 8.mutex/src/proc_manager/pm_deamon.c:48-51 | taking out a forked block behind which another was forked works, in every state and for each of the four lists, and the block is queued no more |
| ListScheduler.Scheduler.EndNewest | 8.mutex/src/proc_manager/pm_deamon.c:48-51 | taking out the block that was forked last dereferences a null pointer, in every state and for each of the four lists |
| CounterModel.ScanFindsBest | 5.mmu+sys_call/src/proc_manager/sched.c:30-41 | the scan finds the lowest-index running task of largest counter, or nothing when every running counter is negative |
| CounterModel.ChooseIsBest | 5.mmu+sys_call/src/proc_manager/sched.c:29-48 | the loop refills at most once, exactly at the end of an epoch, and with a running task chooses the lowest of largest counter, at least 1 |
| CounterRuns.EpochBegins | 5.mmu+sys_call/src/proc_manager/sched.c:43-50 | after the decision that ends an epoch every running task holds exactly its priority, every other task half its old counter and its priority, and a running task has the CPU |
| CounterRuns.EpochSlice | 5.mmu+sys_call/src/proc_manager/sched.c:76-87 | the task chosen when an epoch begins keeps the CPU for exactly 15 ticks: fourteen decide nothing, the fifteenth decides |
| CounterRuns.FirstSlice | 5.mmu+sys_call/src/proc_manager/sched.c:53-87 | so it is from boot: the initial task yields to itself and then has 15 ticks |
| CounterModel.DecideKeeps | 5.mmu+sys_call/src/proc_manager/sched.c:24-51 | a decision keeps counters between 0 and 29 and preemption counts consistent |
| CounterModel.NextKeeps | 5.mmu+sys_call/src/proc_manager/sched.c:76-107 | ticks, yields, exits and forks keep the invariant: counters at most 29 = 2*15-1, waiting tasks at 0 or more |
| CounterModel.CountsCancel | 5.mmu+sys_call/src/proc_manager/sched.c:97-107 | the raised and lowered preemption count around an exit or a fork cancels out |
| CounterRuns.UsedUpUntilRefill | 5.mmu+sys_call/src/proc_manager/sched.c:29-48 | a slot chosen or used up is not chosen again before the next refill by any decision that finds a running task, over every run |
| CounterRuns.ChosenAgainIffIdle | 5.mmu+sys_call/src/proc_manager/sched.c:27-41 | such a slot is chosen again before the next refill if and only if it is slot 0 and some decision finds no running task |
| CounterRuns.OncePerEpoch | 5.mmu+sys_call/src/proc_manager/sched.c:29-48 | between two refills each task is chosen at most once by decisions that find a running task, and again, over every run, exactly if it is in slot 0 and some decision finds none |
| CounterRuns.IdleFromBoot | 5.mmu+sys_call/src/proc_manager/sched.c:27-57 | from boot, one exit and any number of yields choose slot 0 every time, with no refill |
| CounterRuns.RankFalls | 5.mmu+sys_call/src/proc_manager/sched.c:24-51 | each decision that does not choose `t` lowers its rank, no other event raises it |
| CounterRuns.WaitIsBounded | 5.mmu+sys_call/src/proc_manager/sched.c:24-57 | a running task waits for fewer than 128 decisions, over every run of ticks, yields, exits and forks |
| CounterRuns.ReachableCounters | 5.mmu+sys_call/src/proc_manager/sched.c:76-87 | from boot on every counter is at most 29, and every waiting task's at least 0 |
| CounterRuns.ForkAdds | 5.mmu+sys_call/src/app/fork.c:33-43 | a fork that gets its page adds exactly one task, running, with its parent's priority as priority and as counter, and waiting for the CPU |
| CounterRuns.ExitStops | 5.mmu+sys_call/src/proc_manager/sched.c:97-107 | an exit leaves the current task not running |
| CounterRuns.StoppedIsNotChosen | 5.mmu+sys_call/src/proc_manager/sched.c:30-41 | a task that is not running never is again, and no decision that finds a running task chooses it, over every run |
| CounterRuns.PreemptibleExactly | 5.mmu+sys_call/src/proc_manager/sched.c:76-87 | ticks lead to a decision if and only if the current task's preemption count is 0, and then 29 ticks do |
| CounterRuns.ForkKeepsPreemptionIffServed | 5.mmu+sys_call/src/app/fork.c:14-45 | a preemptible task is still preemptible after its fork if and only if the fork got its page |
| CounterRuns.FailedForkEndsPreemption | 5.mmu+sys_call/src/app/fork.c:14-24 | a fork that gets no page leaves the preemption count raised: no number of ticks leads to a decision afterwards |
| CounterScheduler.Scheduler.Search | 5.mmu+sys_call/src/proc_manager/sched.c:30-41 | the scanning loop computes the specified scan |
| CounterScheduler.Scheduler.RefillAll | 5.mmu+sys_call/src/proc_manager/sched.c:45-50 | the refill loop updates every task, running or not, in place |
| CounterScheduler.Scheduler.ChooseNext | 5.mmu+sys_call/src/proc_manager/sched.c:29-51 | search and refill repeated until a counter is found; terminates after at most one refill |
| CounterScheduler.Scheduler.InnerSchedule | 5.mmu+sys_call/src/proc_manager/sched.c:24-53 | `_schedule` in place equals the decision on values |
| CounterScheduler.Scheduler.TimerTick | 5.mmu+sys_call/src/proc_manager/sched.c:76-87 | `timer_tick` in place equals its event |
| CounterScheduler.Scheduler.Yielded | 5.mmu+sys_call/src/proc_manager/sched.c:53-57 | `schedule` in place equals its event |
| CounterScheduler.Scheduler.ExitProcess | 5.mmu+sys_call/src/proc_manager/sched.c:97-107 | `exit_process` with its search for the current task equals its event |
| CounterScheduler.Scheduler.CopyProcess | 5.mmu+sys_call/src/app/fork.c:12-46 | `copy_process`: table insertion and initial counters, or the early return, equals its event |
| IpcModel.LettersNeedWaitingTasks | 8.mutex/src/proc_manager/pm_deamon.c:116-132 | there are never more letters in the two rings together than tasks waiting for a reply |
| IpcModel.RoomToSend | 8.mutex/src/app/sys.c:86-94 | the unchecked push of `sys_send_msg` always hits an empty slot, and `send_msg` never reports a full mailbox |
| IpcModel.RoomToForward | 7.module_sd_elf/src/proc_manager/pm_deamon.c:132-146 | step 7's `user_send_msg` never takes its full branch: forwarding drops no letter |
| IpcModel.TokensAfter | 8.mutex/src/proc_manager/pm_deamon.c:82-132 | exact change of a task's letters and replies by each event |
| IpcModel.NextKeeps | 8.mutex/src/proc_manager/pm_deamon.c:82-132 | token conservation: a waiting task owns at most one letter or reply, another task none; every letter is the one its sender waits for |
| IpcModel.ExactlyOnePlace | 8.mutex/src/proc_manager/pm_deamon.c:82-132 | a waiting task's letter is in exactly one of: a ring, the other ring, a rendezvous slot, the reply flag, lost; a task that does not wait has none |
| IpcModel.StrandedExactly | 8.mutex/src/proc_manager/pm_deamon.c:36 | a letter is lost exactly when the daemon delivers into an occupied slot, and it is the letter that was there |
| IpcRuns.ReplyCountsReceipts | 8.mutex/src/proc_manager/pm_deamon.c:88-112 | while a task waits, its reply flag counts the receipts of its letter |
| IpcRuns.SendReturnsAfterReceipt | 8.mutex/src/proc_manager/pm_deamon.c:88-132 | a send returns only after its own letter was received, exactly once, over every run and with no proviso |
| IpcRuns.LetterComesThrough | 8.mutex/src/proc_manager/pm_deamon.c:88-132 | a letter to a task that is free to receive can be delivered, received and answered, and the system is then as before |
| IpcRuns.StartInv | 8.mutex/src/proc_manager/pm_deamon.c:8-16 | empty rings and idle tasks satisfy the invariant |
| IpcRuns.StrandsIffOverwrites | 8.mutex/src/proc_manager/pm_deamon.c:36 | a run leaves a task waiting for ever through loss if and only if it delivers into an occupied slot |
| IpcRuns.StrandedForever | 8.mutex/src/proc_manager/pm_deamon.c:88-94 | a task whose letter is lost never returns |
| IpcRuns.TwoSendersLoseOne | 8.mutex/src/proc_manager/pm_deamon.c:32-41 | two sends to the same task before it receives: the first sender is stranded |
| IpcRuns.DeadlockIsForever | 8.mutex/src/proc_manager/pm_deamon.c:88-112 | tasks that wait for replies from each other never return |
| MailRing.FullExactly | 8.mutex/src/proc_manager/pm_deamon.c:118-120 | the slot test rejects exactly when 64 letters are held |
| MailRing.FirstAtPop | 8.mutex/src/proc_manager/pm_deamon.c:32-36 | the daemon's loop test succeeds exactly when a letter is held and sees the oldest |
| MailRing.HoldsOne | 8.mutex/src/proc_manager/pm_deamon.c:12-16 | the slots with `letter_type != 0` determine the queue that is held |
| MailRing.PutAppends | 8.mutex/src/proc_manager/pm_deamon.c:122-128 | a push appends, across the wrap of the index |
| MailRing.TakeRemovesFirst | 8.mutex/src/proc_manager/pm_deamon.c:36-39 | a pop removes the oldest, across the wrap of the index |
| MailRing.UncheckedPutExactly | 8.mutex/src/app/sys.c:88-92 | the unchecked push leaves a queue if and only if a slot is free; into a full ring it overwrites the oldest letter |
| MailRing.FirstInFirstOut | 8.mutex/src/proc_manager/pm_deamon.c:32-59 | over any sequence of pushes and pops letters leave in the order accepted, none lost or doubled |
| MessageSystem.PassIsRun | 8.mutex/src/proc_manager/pm_deamon.c:31-73 | one turn of the daemon is a run of single deliveries, so all results about runs hold for it |
| MessageSystem.MailBuffer.Push | 8.mutex/src/proc_manager/pm_deamon.c:122-128 | slot, index and wrap in place append to the queue |
| MessageSystem.MailBuffer.Pop | 8.mutex/src/proc_manager/pm_deamon.c:36-39 | slot, index and wrap in place remove the oldest letter |
| MessageSystem.MessageSystem.SendMsg | 8.mutex/src/proc_manager/pm_deamon.c:116-132 | `send_msg` in place equals its event, including the full branch |
| MessageSystem.MessageSystem.SysSendMsg | 8.mutex/src/app/sys.c:87-94 | `sys_send_msg` in place equals its event although it tests no slot |
| MessageSystem.MessageSystem.DaemonPass | 8.mutex/src/proc_manager/pm_deamon.c:31-73 | one turn of step 8's daemon empties both rings into the rendezvous slots, as specified |
| MessageSystem.MessageSystem.ForwardFromUser | 7.module_sd_elf/src/proc_manager/pm_deamon.c:58-70 | step 7's handling of the user ring equals its event |
| MessageSystem.MessageSystem.UserSendMsg | 7.module_sd_elf/src/proc_manager/pm_deamon.c:132-146 | `user_send_msg` in place, both branches |
| MessageSystem.MessageSystem.ReceiveMsg | 8.mutex/src/proc_manager/pm_deamon.c:97-107 | `recieve_msg` hands out the whole slot as it was, its type included, empties it and raises the sender's flag |
| MessageSystem.MessageSystem.AcceptReply | 8.mutex/src/proc_manager/pm_deamon.c:88-94 | the end of `accept_reply` equals its event |
| FatModel.CopySectorsResult | 8.mutex/src/device/sd.c:186-215 | a block read succeeds exactly when every sector is readable; nothing outside its range changes in any case |
| FatModel.ClusterSecIsSpecified | 8.mutex/src/file_system/fat.c:182-189 | the code's sector of a cluster is the specified one (reserved sectors, FATs, root directory, clusters) modulo 2^32, for 512-byte sectors |
| FatModel.ChainIffAcyclic | 8.mutex/src/file_system/fat.c:211-218 | the loop ends, with every look-up inside the table, if and only if the chain stays in the table and visits no cluster twice |
| FatModel.ReadsSpecifiedChain | 8.mutex/src/file_system/fat.c:211 | the loop reads a prefix of the specified chain, and all of it if and only if every number on the way, reserved bits included, is below 0xFFF8; always on FAT16 |
| FatModel.CutChains | 8.mutex/src/file_system/fat.c:211-217 | two FAT32 tables whose chain of two clusters is cut after the first: the second is 0xFFF8, or is named with a reserved bit set |
| FatModel.EntryOfTable | 8.mutex/src/file_system/fat.c:217 | the look-up finds entry `c` of a table written out in little-endian entries of two or of four bytes |
| FatVolume.ParsesBack | 8.mutex/src/file_system/fat.c:36-60 | parsing a boot record gives back each field of the volume that the specification lays out in it, whatever its other bytes |
| FatLoad.LoadChainFrame | 8.mutex/src/file_system/fat.c:211-218 | loading clusters never touches the boot record or the FAT copy below the file |
| FatLoad.ClusterInPlace | 8.mutex/src/file_system/fat.c:213-215 | cluster `i` ends up `i` strides behind the start, unharmed by later clusters, if its own sectors are readable |
| FatLoad.PlaceIsProduct | 8.mutex/src/file_system/fat.c:215 | the pointer moves by sectors per cluster times bytes per sector for each cluster |
| FatLoad.LoadedIsContents | 8.mutex/src/file_system/fat.c:209-219 | with 512-byte sectors the region returned is the concatenation of the clusters in chain order |
| FatLoad.FatCopied | 8.mutex/src/file_system/fat.c:176-209 | the FAT copy at `_end + rsc * 512` is the FAT on the card, and it ends below the file |
| FatLoad.ReadFileCorrect | 8.mutex/src/file_system/fat.c:171-220 | the whole read: boot record and FAT copy unchanged at the end, FAT copy equal to the card's FAT, file region equal to the clusters |
| FatVolume.VolumeIsRead | 8.mutex/src/file_system/fat.c:171-220 | the whole read on a volume given by its boot record: behind boot record, reserved sectors, first FAT and one sector the buffer holds the sectors of the file, each found from the volume's own fields, and the FAT is where the volume has it |
| FatLoop.LoopFollowsChain | 8.mutex/src/file_system/fat.c:211-218 | from any state in which the buffer holds a table and room for the chain, the loop ends after that chain and has loaded it |
| FatLoop.MountedLoop | 8.mutex/src/file_system/fat.c:207-218 | on a mounted volume the loop, which reads its entries from the buffer it fills, ends after the chain on the card |
| FatLoop.FatCopiedExactly | 8.mutex/src/file_system/fat.c:207 | the FAT copy is right, whatever the buffer held before, if and only if every sector of the partition up to the end of the FAT can be read |
| FatLoop.FailedReadIsOverwritten | 8.mutex/src/file_system/fat.c:207-213 | after a failed read of the FAT, which is not tested, the first cluster is loaded right behind the boot record |
| FatLoop.FailedReadReachesFat | 8.mutex/src/file_system/fat.c:207-217 | the clusters loaded after a failed read leave the FAT copy alone as long as they end before sector `rsc` of the buffer; the one that reaches that sector overwrites the start of the copy |
| FatReader.FatReader.ReadSectors | 8.mutex/src/device/sd.c:186-215 | the loop in place: sectors up to the first that cannot be read, as specified |
| FatReader.FatReader.ReadBlock | 8.mutex/src/device/sd.c:186-215 | the sector loop in place equals its specification; returns the byte count or 0 |
| FatReader.FatReader.GetPartition | 8.mutex/src/file_system/fat.c:68-101 | succeeds exactly on a bootable card and then has the boot record of the partition in the buffer |
| FatReader.BootableExactly | 8.mutex/src/file_system/fat.c:68-101 | given the master record by its fields, a card boots if and only if it is signed 0xAA55, its first partition has type 0x0E or 0x0C, and its boot record can be read and names FAT at byte 54 or 82 |
| FatReader.FatReader.ReadCluster | 8.mutex/src/file_system/fat.c:213-217 | one turn of the loop in place equals its specification: fields and FAT entry are read from the buffer again after the load |
| FatReader.FatReader.ReadFile | 8.mutex/src/file_system/fat.c:171-220 | on any buffer and card, also when the read of the FAT fails: the read returns if the loop has an end, and leaves the buffer that the run of the loop leaves |
| FatReader.FatReader.ReadMounted | 8.mutex/src/file_system/fat.c:171-220 | on a mounted volume the read ends for every chain that ends, and leaves the chain on the card loaded behind the FAT |
| FatReader.FatReader.ReadVolume | 8.mutex/src/file_system/fat.c:171-220 | the same on a volume given by its boot record: the address returned and the bytes there in terms of the volume |
| Digits.NumeralMeans | 8.mutex/src/kernel/printf.c:60-76 | a numeral has digits of the base, the right value and no superfluous leading zero |
| Digits.NumeralUnique | 8.mutex/src/kernel/printf.c:60-76 | these three properties determine the numeral |
| Digits.PaddedIsNumeral | 8.mutex/src/kernel/printf.c:66-75 | division by falling powers, begun at the largest power not above the number, yields the numeral |
| Digits.NumeralLength | 8.mutex/src/kernel/printf.c:128 | a number below ten to the k has at most k digits in a base of ten or more |
| Printf.LargestPower | 8.mutex/src/kernel/printf.c:63-65 | the first loop ends at the largest power of the base; no step of it leaves 32 bits |
| Printf.DigitsInOrder | 8.mutex/src/kernel/printf.c:71 | the digits are 0 to 9 and then the letters in order, small or capital as asked for |
| Printf.ValuedExactly | 8.mutex/src/kernel/printf.c:87-96 | `a2d` gives a value below 16 exactly to the sixteen digits, letters in both cases, and -1 to every other character |
| Printf.PowerFits | 8.mutex/src/kernel/printf.c:64-65 | `d *= base` does not overflow while the loop's condition holds |
| Printf.Ui2a | 8.mutex/src/kernel/printf.c:60-76 | `ui2a` writes the numeral and its NUL and nothing else, in every base from 2 to 36 |
| Printf.I2a | 8.mutex/src/kernel/printf.c:78-85 | `i2a` writes sign, numeral of the magnitude and NUL, also for the least `int` |
| Printf.IntFits | 8.mutex/src/kernel/printf.c:128 | sign, digits and NUL fit the buffer of 12 bytes |
| Printf.A2i | 8.mutex/src/kernel/printf.c:98-111 | `a2i` takes characters up to the first one it does not accept, leaves the pointer behind it, and never overflows on the way to a result that fits |
| Printf.RoundTrip | 8.mutex/src/kernel/printf.c:60-111 | what `ui2a` prints in a base from 2 to 16 reads back as the number |
| Printf.TakesDigitsExactly | 8.mutex/src/kernel/printf.c:103-104 | `a2i` stops where the digits of the base end if and only if no digit equal to the base stands there |
| Printf.LetterInBaseTen | 8.mutex/src/kernel/printf.c:103-104 | in base 10 the text 1a is read as twenty |
| Printf.Putchw | 8.mutex/src/kernel/printf.c:113-124 | the text is filled up on the left to the width and never cut |
| SdClock.BitLength | 8.mutex/src/device/sd.c:231-236 | the five-step search finds the bit length of every 32-bit word |
| SdClock.Divisor | 8.mutex/src/device/sd.c:231-241 | before version 3 the divisor is a power of two with d < c <= 2d for 3 <= c <= 256; from version 3 on it is c, at least 2 |
| SdClock.EncodedKeeps | 8.mutex/src/device/sd.c:243-245 | no other bit of CONTROL1 changes, neither above bit 15 nor below bit 6 |
| SdClock.EncodedDecodes | 8.mutex/src/device/sd.c:243-245 | the split into bits 15-8 and 7-6 decodes to d if and only if d < 1024 |
| SdClock.EncodedDecodesOld | 8.mutex/src/device/sd.c:244-245 | the old encoding decodes to d if and only if d < 256 |
| SdClock.SetDivisor | 8.mutex/src/device/sd.c:231-245 | divisor and register from the ratio: the bounds of the divisor, the field that reads back as the divisor (from version 3 on if and only if it is below 1024), every other bit kept |
| SdClock.SetClock | 8.mutex/src/device/sd.c:220-245 | the same for every frequency from 1 to 41666666 |
| SystemTimer.ReadLinearises | 8.mutex/src/proc_manager/timer.c:27-40 | the result lies between the counter's values at the first and the last access, however fast the counter runs |
| SystemTimer.ReadIsASample | 8.mutex/src/proc_manager/timer.c:27-40 | with fewer than 2^32 ticks during the call the result is the counter's value at one of the two low-word accesses |
| SystemTimer.RereadIsNeeded | 8.mutex/src/proc_manager/timer.c:33-37 | a read without the second look at the high word is torn if and only if the high word changes and the low word falls |
| SystemTimer.Timer.GetSystemTimer | 8.mutex/src/proc_manager/timer.c:27-40 | the sequence of register reads returns a value of the counter between call and return |

## Left out

- MemoryManager.PagePool.MapPage: does not model what happens after an unchecked failure; it stops there and reports which one.
- MemoryManager.PagePool.CopyVirtMemory: likewise; the value the source returns in the end is the subject of `MmFork.ForkReturns`.
- MemoryManager.PagePool.MapTableEntry: a page is one value of 512 words in the array of pages, so a store of a word replaces the page's value.
- MemoryManager.PagePool.FreePage: is called with the address of a pool page; the source computes an index from any address.
- ListScheduler.Scheduler.ScheduleNext: requires some queued node to be runnable, because the source loops for ever otherwise; preemption counts, register contexts and `switch_to` are not part of it.
- ListScheduler.Scheduler.CopyProcess: models the control block and its place in the queues only, for the case that both page allocations succeed.
- ListScheduler.Scheduler.AddThread: likewise.
- ListScheduler.Scheduler.Search: `task_prio_table` and `head` are sequences of four pointers here, not arrays; nothing else points into them.
- ListScheduler.Scheduler.Unlink: excludes the current node; the daemon runs when it unlinks, and the call of `free_page` with a pid is not part of it.
- CounterScheduler.Scheduler.CopyProcess: does not model the copy of user pages or registers, and requires a free slot when a page was given.
- MessageSystem.MessageSystem.SendMsg: models letters of type Rendezvous; a letter of another type is dropped without a reply or loops in the daemon.
- MessageSystem.MessageSystem.ReceiveMsg: models the part of the call after its waiting loop; the loop itself is the wait for the event to be enabled.
- MessageSystem.MessageSystem.AcceptReply: likewise.
- MessageSystem.MailBuffer.Push: one class stands for the two rings, whose code the source writes out twice.
- FatReader.FatReader.ReadFile: requires a run of the loop that ends and stays in the buffer, which the source does not test; what it does on a run without an end is not modelled.
- FatReader.FatReader.ReadBlock: the status and command steps of the card are one success or failure per sector.
- Printf.A2i: requires a character that ends the number, and a number that fits an `int`; beyond that C leaves the result undefined.
- SdClock.SetClock: waits, and the clock enable and stable bits, are not part of it.
- `allocate_kernel_page` is `get_free_page` at another address; it is the event KernelAlloc of `MmRuns`.
- `allocate_pcb_space` is never called.
- `tfp_format` and the long variants of the printer.
- `fat_getcluster`, directory listing, ELF loading and the shell.
- Thread join, signals and the mutex code.
- Interrupt controller, UART, GPIO, mailbox hardware, exception levels and boot code.
- Steps 1 to 4 and the headers-only steps.
