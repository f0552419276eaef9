/** The counter scheduler of step 5 on values: epochs of counters, as events of a run. */
module CounterModel {
  import opened Common

  const TASK_ZOMBIE: int := 1
  const MAX_COUNTER: int := 29

  datatype Task = Task(state: int, counter: int, priority: int, preemptCount: int)

  type Table = seq<Option<Task>>

  datatype Kernel = Kernel(task: Table, current: nat, nrTasks: nat)

  predicate Running(o: Option<Task>) {
    o.Some? && o.value.state == TASK_RUNNING
  }

  ghost predicate SomeRunning(task: Table) {
    exists i :: 0 <= i < |task| && Running(task[i])
  }

  // ---- One decision -----------------------------------------------------------------

  /** The scan of the task table from index `i` on, with the best counter and index so far. */
  function Scan(task: Table, i: nat, c: int, next: nat): (int, nat)
    requires i <= |task|
    decreases |task| - i
  {
    if i == |task| then (c, next)
    else if Running(task[i]) && task[i].value.counter > c then Scan(task, i + 1, task[i].value.counter, i)
    else Scan(task, i + 1, c, next)
  }

  function Refilled(o: Option<Task>): Option<Task> {
    if o.Some? then Some(o.value.(counter := o.value.counter / 2 + o.value.priority)) else None
  }

  /** `counter = (counter >> 1) + priority` for every task, running or not. */
  function Refill(task: Table): (r: Table)
    ensures |r| == |task|
  {
    seq(|task|, i requires 0 <= i < |task| => Refilled(task[i]))
  }

  /** What every decision finds: slot 0 in use, counters not negative, priorities positive. */
  ghost predicate Ready(task: Table) {
    && |task| == NR_TASKS && task[0].Some?
    && forall i :: 0 <= i < NR_TASKS && task[i].Some? ==> task[i].value.counter >= 0 && task[i].value.priority >= 1
  }

  /** `next` is the lowest of the running tasks with the largest counter, which is `c`. */
  ghost predicate IsBest(task: Table, c: int, next: nat) {
    && next < |task| && Running(task[next]) && task[next].value.counter == c
    && (forall i :: 0 <= i < |task| && Running(task[i]) ==> task[i].value.counter <= c)
    && (forall i :: 0 <= i < next && Running(task[i]) ==> task[i].value.counter < c)
  }

  lemma {:induction false} ScanKeepsBest(task: Table, i: nat, c: int, next: nat)
    requires i <= |task|
    requires forall j :: 0 <= j < i && Running(task[j]) ==> task[j].value.counter <= c
    requires next < i && Running(task[next]) && task[next].value.counter == c
    requires forall j :: 0 <= j < next && Running(task[j]) ==> task[j].value.counter < c
    ensures Scan(task, i, c, next).0 >= c
    ensures IsBest(task, Scan(task, i, c, next).0, Scan(task, i, c, next).1)
    decreases |task| - i
  {
    if i < |task| {
      if Running(task[i]) && task[i].value.counter > c {
        ScanKeepsBest(task, i + 1, task[i].value.counter, i);
      } else {
        ScanKeepsBest(task, i + 1, c, next);
      }
    }
  }

  lemma {:induction false} ScanFrom(task: Table, i: nat)
    requires i <= |task|
    requires forall j :: 0 <= j < i && Running(task[j]) ==> task[j].value.counter < 0
    ensures var (c, next) := Scan(task, i, -1, 0);
      if exists j :: 0 <= j < |task| && Running(task[j]) && task[j].value.counter >= 0
      then c >= 0 && IsBest(task, c, next) else c == -1 && next == 0
    decreases |task| - i
  {
    if i < |task| {
      if Running(task[i]) && task[i].value.counter > -1 {
        ScanKeepsBest(task, i + 1, task[i].value.counter, i);
      } else {
        ScanFrom(task, i + 1);
      }
    }
  }

  /** The scan finds the first of the running tasks with the largest counter; when every
      running task has a negative counter, or none runs, it falls back to slot 0. */
  lemma ScanFindsBest(task: Table)
    ensures var (c, next) := Scan(task, 0, -1, 0);
      if exists j :: 0 <= j < |task| && Running(task[j]) && task[j].value.counter >= 0
      then c >= 0 && IsBest(task, c, next) else c == -1 && next == 0
  {
    ScanFrom(task, 0);
  }

  /** Every running task has used up its counter. */
  ghost predicate EpochOver(task: Table) {
    SomeRunning(task) && forall i :: 0 <= i < |task| && Running(task[i]) ==> task[i].value.counter == 0
  }

  /** The table after the scheduler's loop and the slot it chooses. */
  function Choose(task: Table): (Table, nat) {
    var (c, next) := Scan(task, 0, -1, 0);
    if c != 0 then (task, next)
    else
      var refilled := Refill(task);
      (refilled, Scan(refilled, 0, -1, 0).1)
  }

  lemma RefillReady(task: Table)
    requires Ready(task)
    ensures Ready(Refill(task))
    ensures SomeRunning(Refill(task)) <==> SomeRunning(task)
  {
    var r := Refill(task);
    assert forall i :: 0 <= i < |task| ==> Running(r[i]) == Running(task[i]);
    if SomeRunning(task) {
      var i :| 0 <= i < |task| && Running(task[i]);
      assert Running(r[i]);
    }
  }

  /** A decision refills exactly at the end of an epoch, and then once is enough; with a
      running task it chooses the first one of largest counter, which is positive. */
  lemma ChooseIsBest(task: Table)
    requires Ready(task)
    ensures var (task', next) := Choose(task);
      && task' == (if EpochOver(task) then Refill(task) else task)
      && Ready(task') && next < NR_TASKS && task'[next].Some?
      && (SomeRunning(task) ==>
            IsBest(task', task'[next].value.counter, next) && task'[next].value.counter >= 1)
      && (!SomeRunning(task) ==> next == 0)
      && (EpochOver(task) ==> Scan(task', 0, -1, 0).0 >= 1)
  {
    ScanFindsBest(task);
    ScanFindsBest(Refill(task));
    RefillReady(task);
    var (c, next) := Scan(task, 0, -1, 0);
    if SomeRunning(task) {
      var i :| 0 <= i < |task| && Running(task[i]);
      assert task[i].value.counter >= 0;
      var r := Refill(task);
      assert Running(r[i]) && r[i].value.counter >= 0;
      if c == 0 {
        assert r[next].value.counter >= 1;
      }
    }
  }

  // ---- Events -----------------------------------------------------------------------

  /** `Tick` is a timer interrupt, `Yield` a call of `schedule`, `Exit` one of
      `exit_process`, `Fork(ok)` a `copy_process` whose page allocation succeeds or not. */
  datatype Event = Tick | Yield | Exit | Fork(ok: bool)

  ghost predicate Inv(k: Kernel) {
    && |k.task| == NR_TASKS && k.current < k.nrTasks <= NR_TASKS
    && (forall i :: 0 <= i < NR_TASKS ==> (k.task[i].Some? <==> i < k.nrTasks))
    && (forall i :: 0 <= i < k.nrTasks ==> SlotOk(k.task[i].value, i == k.current))
  }

  /** Priorities are inherited, counters bounded; only the current task can be below 0 and
      preemptible. */
  ghost predicate SlotOk(t: Task, isCurrent: bool) {
    && t.priority == INIT_PRIORITY && t.counter <= MAX_COUNTER
    && (!isCurrent ==> t.counter >= 0 && t.preemptCount >= 1)
    && (isCurrent ==> t.preemptCount >= 0)
  }

  /** The state at boot: the initial task alone, with counter 0. */
  ghost predicate Boot(k: Kernel) {
    && |k.task| == NR_TASKS && k.current == 0 && k.nrTasks == 1
    && k.task[0] == Some(Task(TASK_RUNNING, 0, INIT_PRIORITY, 0))
    && forall i :: 1 <= i < NR_TASKS ==> k.task[i] == None
  }

  function Current(k: Kernel): Task
    requires k.current < |k.task| && k.task[k.current].Some?
  {
    k.task[k.current].value
  }

  function SetTask(k: Kernel, i: nat, t: Task): Kernel
    requires i < |k.task|
  {
    k.(task := k.task[i := Some(t)])
  }

  /** The current task's preemption count raised (or lowered) by `d`. */
  function Counted(k: Kernel, d: int): Kernel
    requires k.current < |k.task| && k.task[k.current].Some?
  {
    SetTask(k, k.current, Current(k).(preemptCount := Current(k).preemptCount + d))
  }

  /** `_schedule` without the context switch itself: the outgoing task keeps its
      `preempt_count` raised, the incoming one lowers its own. */
  ghost function Decide(k: Kernel): Kernel
    requires k.current < |k.task| == NR_TASKS && k.task[k.current].Some?
    requires Ready(k.task)
  {
    var k1 := Counted(k, 1);
    var (task', next) := Choose(k1.task);
    ChooseIsBest(k1.task);
    Counted(Kernel(task', next, k.nrTasks), -1)
  }

  ghost function Zeroed(k: Kernel): Kernel
    requires k.current < |k.task| && k.task[k.current].Some?
  {
    SetTask(k, k.current, Current(k).(counter := 0))
  }

  lemma ZeroedReady(k: Kernel)
    requires Inv(k)
    ensures Ready(Zeroed(k).task) && Inv(Zeroed(k))
  {
  }

  lemma EndedReady(k: Kernel)
    requires Inv(k)
    ensures Inv(Ended(k)) && Ready(Zeroed(Ended(k)).task)
  {
  }

  /** A tick leads to a decision exactly when the slice is used up and preemption is on. */
  ghost predicate TickDecides(k: Kernel)
    requires k.current < |k.task| && k.task[k.current].Some?
  {
    Current(k).counter - 1 <= 0 && Current(k).preemptCount <= 0
  }

  ghost function Ticked(k: Kernel): Kernel
    requires k.current < |k.task| && k.task[k.current].Some?
  {
    SetTask(k, k.current, Current(k).(counter := Current(k).counter - 1))
  }

  ghost function Ended(k: Kernel): Kernel
    requires k.current < |k.task| && k.task[k.current].Some?
  {
    SetTask(k, k.current, Current(k).(state := TASK_ZOMBIE))
  }

  /** Raising and lowering the preemption count around an exit or a fork cancels out. */
  lemma CountsCancel(k: Kernel)
    requires Inv(k)
    ensures Counted(Ended(Counted(k, 1)), -1) == Ended(k)
    ensures k.nrTasks < NR_TASKS ==> Counted(Forked(Counted(k, 1), true), -1) == Forked(k, true)
  {
  }

  ghost function Forked(k: Kernel, ok: bool): Kernel
    requires k.current < |k.task| && k.task[k.current].Some?
  {
    if !ok then Counted(k, 1)
    else if k.nrTasks >= |k.task| then k
    else
      var p := Current(k).priority;
      Kernel(k.task[k.nrTasks := Some(Task(TASK_RUNNING, p, p, 1))], k.current, k.nrTasks + 1)
  }

  /** A fork needs a free slot: the source does not check for one. */
  ghost predicate Enabled(k: Kernel, e: Event) {
    Inv(k) && (e == Fork(true) ==> k.nrTasks < NR_TASKS)
  }

  ghost predicate Decides(k: Kernel, e: Event)
    requires Inv(k)
  {
    e == Yield || e == Exit || (e == Tick && TickDecides(k))
  }

  /** The state in which the decision of `e` is taken. */
  ghost function Before(k: Kernel, e: Event): (r: Kernel)
    requires Inv(k) && Decides(k, e)
    ensures Inv(r) && Ready(r.task) && r.current == k.current && r.nrTasks == k.nrTasks
  {
    var k1 := if e == Exit then Ended(k) else k;
    ZeroedReady(k1);
    Zeroed(k1)
  }

  ghost function Next(k: Kernel, e: Event): Kernel
    requires Enabled(k, e)
  {
    if Decides(k, e) then Decide(Before(k, e))
    else if e == Tick then Ticked(k)
    else Forked(k, e.ok)
  }

  lemma RefillBound(c: int)
    requires 0 <= c <= MAX_COUNTER
    ensures INIT_PRIORITY <= c / 2 + INIT_PRIORITY <= MAX_COUNTER
  {
  }

  /** A slot between the search and `preempt_enable`. */
  predicate SlotAfter(slot: Option<Task>, used: bool) {
    && (slot.Some? <==> used)
    && (used ==>
          && slot.value.priority == INIT_PRIORITY && 0 <= slot.value.counter <= MAX_COUNTER
          && slot.value.preemptCount >= 1)
  }

  lemma SlotKept(k: Kernel, i: nat)
    requires Inv(k) && Ready(k.task) && Ready(Counted(k, 1).task) && i < NR_TASKS
    ensures SlotAfter(Choose(Counted(k, 1).task).0[i], i < k.nrTasks)
  {
    var k1 := Counted(k, 1);
    assert k1.task[i].Some? <==> i < k.nrTasks;
    if i < k.nrTasks {
      assert SlotOk(k.task[i].value, i == k.current);
      RefillBound(k1.task[i].value.counter);
    }
  }

  /** A decision keeps the invariant. */
  lemma DecideKeeps(k: Kernel)
    requires Inv(k) && Ready(k.task)
    ensures Inv(Decide(k))
  {
    var k1 := Counted(k, 1);
    assert Ready(k1.task);
    ChooseIsBest(k1.task);
    var (task', next) := Choose(k1.task);
    forall i: nat | i < NR_TASKS
      ensures SlotAfter(task'[i], i < k.nrTasks)
    {
      SlotKept(k, i);
    }
  }

  /** Every event keeps the invariant: counters never exceed 29 = 2 * 15 - 1, and every task
      but the current one has a counter of at least 0. */
  lemma NextKeeps(k: Kernel, e: Event)
    requires Enabled(k, e)
    ensures Inv(Next(k, e))
  {
    if Decides(k, e) {
      DecideKeeps(Before(k, e));
    }
  }
}
