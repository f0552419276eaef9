/** The counter scheduler of step 5 as its source has it: a table of pointers to task
    structures, each updated in place; every method is proved equal to its event on values. */
module CounterScheduler {
  import opened Common
  import opened CounterModel

  class TaskStruct {
    var state: int
    var counter: int
    var priority: int
    var preemptCount: int

    function View(): Task
      reads this
    {
      Task(state, counter, priority, preemptCount)
    }
  }

  /** `task[]`, `current` and `nr_tasks`; `slot` is the index at which `current` stands. */
  class Scheduler {
    const task: array<TaskStruct?>
    var current: TaskStruct
    var nrTasks: nat
    ghost var slot: nat

    /** The state at boot; `init` is the statically initialised first task. */
    constructor (init: TaskStruct)
      requires init.View() == Task(TASK_RUNNING, 0, INIT_PRIORITY, 0)
      ensures Valid() && fresh(task) && Boot(Abs())
    {
      task := new TaskStruct?[NR_TASKS](i => null);
      current, nrTasks, slot := init, 1, 0;
      new;
      task[0] := init;
    }

    ghost predicate Valid()
      reads this, task
    {
      && task.Length == NR_TASKS && slot < NR_TASKS && task[slot] == current
      && forall i, j :: 0 <= i < j < task.Length && task[i] != null ==> task[i] != task[j]
    }

    ghost function Slot(i: nat): Option<Task>
      requires i < task.Length
      reads task, task[i]
    {
      if task[i] == null then None else Some(task[i].View())
    }

    ghost function Objects(): set<TaskStruct>
      reads task
    {
      set i | 0 <= i < task.Length && task[i] != null :: task[i]
    }

    ghost function Table(): (t: Table)
      reads task, Objects()
      ensures |t| == task.Length && forall i: nat :: i < |t| ==> t[i] == Slot(i)
    {
      seq(task.Length, i requires 0 <= i < task.Length reads task, Objects() => Slot(i))
    }

    ghost function Abs(): Kernel
      reads this, task, Objects()
    {
      Kernel(Table(), slot, nrTasks)
    }

    method PreemptDisable()
      requires Valid()
      modifies current`preemptCount
      ensures Abs() == Counted(old(Abs()), 1)
    {
      current.preemptCount := current.preemptCount + 1;
    }

    method PreemptEnable()
      requires Valid()
      modifies current`preemptCount
      ensures Abs() == Counted(old(Abs()), -1)
    {
      current.preemptCount := current.preemptCount - 1;
    }

    /** The first inner loop of `_schedule`. */
    method Search() returns (c: int, next: nat)
      requires Valid()
      ensures (c, next) == Scan(Table(), 0, -1, 0) && next < NR_TASKS
    {
      c, next := -1, 0;
      var i := 0;
      while i < NR_TASKS
        invariant i <= NR_TASKS && next < NR_TASKS
        invariant Scan(Table(), i, c, next) == Scan(Table(), 0, -1, 0)
      {
        var p := task[i];
        assert Table()[i] == Slot(i);
        if p != null && p.state == TASK_RUNNING && p.counter > c {
          c, next := p.counter, i;
        }
        i := i + 1;
      }
    }

    /** The second inner loop of `_schedule`; a shift right of a counter that is not negative
        is a halving. */
    method RefillAll()
      requires Valid() && Ready(Table())
      modifies Objects()
      ensures Table() == Refill(old(Table()))
    {
      ghost var t0 := Table();
      var i := 0;
      while i < NR_TASKS
        invariant i <= NR_TASKS
        invariant forall j: nat :: j < i ==> Slot(j) == Refilled(t0[j])
        invariant forall j: nat :: i <= j < NR_TASKS ==> Slot(j) == t0[j]
      {
        var p := task[i];
        if p != null {
          p.counter := p.counter / 2 + p.priority;
        }
        i := i + 1;
      }
    }

    method SwitchTo(next: TaskStruct, ghost at: nat)
      requires Valid() && at < NR_TASKS && task[at] == next
      modifies this`current, this`slot
      ensures Valid() && slot == at
    {
      if current == next {
        return;
      }
      current, slot := next, at;
    }

    /** The loop of `_schedule`: search, and refill until the search finds a counter. */
    method ChooseNext() returns (next: nat)
      requires Valid() && Ready(Table())
      modifies Objects()
      ensures (Table(), next) == Choose(old(Table())) && next < NR_TASKS
    {
      ghost var t1 := Table();
      ChooseIsBest(t1);
      ScanFindsBest(t1);
      next := 0;
      ghost var refilled := false;
      while true
        invariant refilled ==> Scan(t1, 0, -1, 0).0 == 0
        invariant Table() == if refilled then Refill(t1) else t1
        decreases !refilled
      {
        var c: int;
        c, next := Search();
        if c != 0 {
          break;
        }
        RefillAll();
        refilled := true;
      }
    }

    /** The choice and the switch to the chosen task. */
    method Switch()
      requires Valid() && Ready(Table())
      modifies this`current, this`slot, Objects()
      ensures Valid() && Abs() == Kernel(Choose(old(Table())).0, Choose(old(Table())).1, old(nrTasks))
    {
      ChooseIsBest(Table());
      var next := ChooseNext();
      SwitchTo(task[next], next);
    }

    /** `_schedule` */
    method InnerSchedule()
      requires Valid() && Ready(Table())
      modifies this`current, this`slot, Objects()
      ensures Valid() && Abs() == Decide(old(Abs()))
    {
      PreemptDisable();
      ghost var k1 := Abs();
      assert Ready(k1.task);
      Switch();
      PreemptEnable();
    }

    method Schedule()
      requires Valid() && Ready(Zeroed(Abs()).task)
      modifies this`current, this`slot, Objects()
      ensures Valid() && Abs() == Decide(Zeroed(old(Abs())))
    {
      current.counter := 0;
      assert Abs() == Zeroed(old(Abs()));
      InnerSchedule();
    }

    /** `timer_tick` */
    method TimerTick()
      requires Valid() && Inv(Abs())
      modifies this`current, this`slot, Objects()
      ensures Valid() && Abs() == Next(old(Abs()), Tick)
    {
      ZeroedReady(Abs());
      current.counter := current.counter - 1;
      assert Abs() == Ticked(old(Abs()));
      if current.counter > 0 || current.preemptCount > 0 {
        return;
      }
      current.counter := 0;
      assert Abs() == Zeroed(old(Abs()));
      InnerSchedule();
    }

    /** `schedule` called by a task */
    method Yielded()
      requires Valid() && Inv(Abs())
      modifies this`current, this`slot, Objects()
      ensures Valid() && Abs() == Next(old(Abs()), Event.Yield)
    {
      ZeroedReady(Abs());
      Schedule();
    }

    /** The loop of `exit_process`. */
    method MarkZombie()
      requires Valid()
      modifies Objects()
      ensures Abs() == Ended(old(Abs()))
    {
      var i := 0;
      while i < NR_TASKS
        invariant i <= slot
        invariant Table() == old(Table())
      {
        if task[i] == current {
          task[i].state := TASK_ZOMBIE;
          break;
        }
        i := i + 1;
      }
    }

    /** `exit_process` */
    method ExitProcess()
      requires Valid() && Inv(Abs())
      modifies this`current, this`slot, Objects()
      ensures Valid() && Abs() == Next(old(Abs()), Exit)
    {
      ghost var k := Abs();
      CountsCancel(k);
      EndedReady(k);
      PreemptDisable();
      MarkZombie();
      PreemptEnable();
      assert Abs() == Ended(k);
      Schedule();
    }

    /** `copy_process`; `p` is the task structure in the page that was allocated, or null. */
    method CopyProcess(p: TaskStruct?) returns (pid: int)
      requires Valid() && Inv(Abs()) && p !in Objects()
      requires p != null ==> nrTasks < NR_TASKS
      modifies this`nrTasks, task, p, current`preemptCount
      ensures Valid() && Abs() == Next(old(Abs()), Fork(p != null))
      ensures pid == if p == null then -1 else old(nrTasks)
    {
      ghost var k := Abs();
      CountsCancel(k);
      PreemptDisable();
      if p == null {
        return -1;
      }
      p.priority := current.priority;
      p.state := TASK_RUNNING;
      p.counter := p.priority;
      p.preemptCount := 1;
      pid := nrTasks;
      nrTasks := nrTasks + 1;
      task[pid] := p;
      assert Abs() == Forked(Counted(k, 1), true);
      PreemptEnable();
    }
  }
}
