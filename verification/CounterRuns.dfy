/** Runs of the counter scheduler: nobody is chosen twice in an epoch, and a running task
    waits for fewer than 2 * NR_TASKS decisions. */
module CounterRuns {
  import opened Common
  import opened CounterModel
  import opened Finite

  ghost predicate Accepted(k: Kernel, es: seq<Event>)
    decreases |es|
  {
    Inv(k) && (es != [] ==> Enabled(k, es[0]) && Accepted(Next(k, es[0]), es[1..]))
  }

  ghost function Run(k: Kernel, es: seq<Event>): (k': Kernel)
    requires Accepted(k, es)
    ensures Inv(k')
    decreases |es|
  {
    if es == [] then k else Run(Next(k, es[0]), es[1..])
  }

  /** The slots chosen by the decisions of a run, in order. */
  ghost function Selected(k: Kernel, es: seq<Event>): seq<nat>
    requires Accepted(k, es)
    decreases |es|
  {
    if es == [] then []
    else (if Decides(k, es[0]) then [Next(k, es[0]).current] else []) + Selected(Next(k, es[0]), es[1..])
  }

  /** Some decision of the run starts a new epoch. */
  ghost predicate Refills(k: Kernel, es: seq<Event>)
    requires Accepted(k, es)
    decreases |es|
  {
    es != [] && ((Decides(k, es[0]) && EpochOver(Before(k, es[0]).task)) || Refills(Next(k, es[0]), es[1..]))
  }

  /** The event is a decision that finds no running task. */
  ghost predicate DecidesIdle(k: Kernel, e: Event)
    requires Enabled(k, e)
  {
    Decides(k, e) && !SomeRunning(Before(k, e).task)
  }

  /** Some decision of the run finds no running task. */
  ghost predicate Idles(k: Kernel, es: seq<Event>)
    requires Accepted(k, es)
    decreases |es|
  {
    es != [] && (DecidesIdle(k, es[0]) || Idles(Next(k, es[0]), es[1..]))
  }

  /** The slots chosen by the decisions that find a running task. */
  ghost function SelectedBusy(k: Kernel, es: seq<Event>): seq<nat>
    requires Accepted(k, es)
    decreases |es|
  {
    if es == [] then []
    else
      (if Decides(k, es[0]) && !DecidesIdle(k, es[0]) then [Next(k, es[0]).current] else [])
      + SelectedBusy(Next(k, es[0]), es[1..])
  }

  lemma BootInv(k: Kernel)
    requires Boot(k)
    ensures Inv(k)
  {
  }

  // ---- Effect of one event on the slots ---------------------------------------------

  ghost function CounterOf(k: Kernel, i: nat): int
    requires i < |k.task| && k.task[i].Some?
  {
    k.task[i].value.counter
  }

  /** The slots that can still be chosen in this epoch: free ones and waiting tasks with a
      positive counter. */
  ghost function Live(k: Kernel): set<nat>
    requires |k.task| == NR_TASKS
  {
    set i: nat | i < NR_TASKS && i != k.current && (k.task[i].None? || k.task[i].value.counter > 0)
  }

  lemma DecisionWithoutRefill(k: Kernel)
    requires Inv(k) && Ready(k.task) && CounterOf(k, k.current) == 0
    requires SomeRunning(k.task) && !EpochOver(k.task)
    ensures var k' := Decide(k);
      && |k'.task| == NR_TASKS && k'.nrTasks == k.nrTasks
      && k'.current != k.current && k'.current in Live(k) && Live(k') == Live(k) - {k'.current}
      && forall i :: 0 <= i < k.nrTasks ==>
           k'.task[i].Some? && CounterOf(k', i) == CounterOf(k, i) && Running(k'.task[i]) == Running(k.task[i])
  {
    var k1 := Counted(k, 1);
    SameRunning(k, k1);
    ChooseIsBest(k1.task);
  }

  /** Without a running task the search falls back to slot 0 and refills nothing. */
  lemma IdleDecision(k: Kernel)
    requires Inv(k) && Ready(k.task) && CounterOf(k, k.current) == 0 && !SomeRunning(k.task)
    ensures Decide(k).current == 0 && |Decide(k).task| == NR_TASKS && Live(Decide(k)) <= Live(k)
  {
    var k1 := Counted(k, 1);
    SameRunning(k, k1);
    ChooseIsBest(k1.task);
  }

  lemma DecisionWithRefill(k: Kernel)
    requires Inv(k) && Ready(k.task) && EpochOver(k.task)
    ensures var k' := Decide(k);
      && k'.nrTasks == k.nrTasks && |k'.task| == NR_TASKS
      && forall i :: 0 <= i < k.nrTasks ==>
           k'.task[i].Some? && CounterOf(k', i) > 0 && Running(k'.task[i]) == Running(k.task[i])
  {
    var k1 := Counted(k, 1);
    SameRunning(k, k1);
    ChooseIsBest(k1.task);
    forall i | 0 <= i < k.nrTasks
      ensures Refill(k1.task)[i].value.counter > 0
    {
      assert k1.task[i].value.counter >= 0;
    }
  }

  /** The preemption count does not enter the choice. */
  lemma SameRunning(k: Kernel, k1: Kernel)
    requires Inv(k) && k1 == Counted(k, 1)
    ensures SomeRunning(k1.task) <==> SomeRunning(k.task)
    ensures EpochOver(k1.task) <==> EpochOver(k.task)
  {
    forall i | 0 <= i < NR_TASKS
      ensures Running(k1.task[i]) == Running(k.task[i])
    {
    }
    if SomeRunning(k.task) {
      var i :| 0 <= i < NR_TASKS && Running(k.task[i]);
      assert Running(k1.task[i]);
    }
    if SomeRunning(k1.task) {
      var i :| 0 <= i < NR_TASKS && Running(k1.task[i]);
      assert Running(k.task[i]);
    }
    assert forall i :: 0 <= i < NR_TASKS && Running(k.task[i]) ==> k1.task[i].value.counter == k.task[i].value.counter;
  }

  // ---- Once per epoch ---------------------------------------------------------------

  lemma BeforeLive(k: Kernel, e: Event)
    requires Enabled(k, e) && Decides(k, e)
    ensures Live(Before(k, e)) == Live(k) && CounterOf(Before(k, e), k.current) == 0
    ensures forall i :: 0 <= i < k.nrTasks && i != k.current ==> Before(k, e).task[i] == k.task[i]
  {
  }

  lemma QuietLive(k: Kernel, e: Event)
    requires Enabled(k, e) && !Decides(k, e)
    ensures Live(Next(k, e)) == Live(k) && Next(k, e).current == k.current
    ensures forall i :: 0 <= i < k.nrTasks && i != k.current ==> Next(k, e).task[i] == k.task[i]
    ensures k.nrTasks <= Next(k, e).nrTasks
  {
  }

  lemma DecisionKeepsUsedUp(k: Kernel, e: Event, x: nat)
    requires Enabled(k, e) && |Next(k, e).task| == NR_TASKS && x < NR_TASKS && x !in Live(k)
    requires Decides(k, e) ==> !EpochOver(Before(k, e).task)
    ensures x !in Live(Next(k, e))
    ensures Decides(k, e) && !DecidesIdle(k, e) ==> Next(k, e).current != x
    ensures DecidesIdle(k, e) ==> Next(k, e).current == 0
  {
    if Decides(k, e) {
      BeforeLive(k, e);
      if DecidesIdle(k, e) {
        IdleDecision(Before(k, e));
      } else {
        DecisionWithoutRefill(Before(k, e));
      }
    } else {
      QuietLive(k, e);
    }
  }

  /** Before the next refill a slot that has been chosen, or has a used-up counter, is not
      chosen by any decision that finds a running task. */
  lemma {:induction false} UsedUpUntilRefill(k: Kernel, es: seq<Event>, x: nat)
    requires Accepted(k, es) && !Refills(k, es)
    requires x < NR_TASKS && x !in Live(k)
    ensures x !in SelectedBusy(k, es)
    decreases |es|
  {
    if es != [] {
      DecisionKeepsUsedUp(k, es[0], x);
      UsedUpUntilRefill(Next(k, es[0]), es[1..], x);
    }
  }

  /** Such a slot is chosen again before the next refill if and only if it is slot 0 and some
      decision finds no running task. */
  lemma {:induction false} ChosenAgainIffIdle(k: Kernel, es: seq<Event>, x: nat)
    requires Accepted(k, es) && !Refills(k, es)
    requires x < NR_TASKS && x !in Live(k)
    ensures x in Selected(k, es) <==> x == 0 && Idles(k, es)
    decreases |es|
  {
    if es != [] {
      DecisionKeepsUsedUp(k, es[0], x);
      ChosenAgainIffIdle(Next(k, es[0]), es[1..], x);
    }
  }

  /** Between two refills every task is chosen at most once by decisions that find a running
      task; the only one chosen again is slot 0, by decisions that find none. */
  lemma OncePerEpoch(k: Kernel, e: Event, es: seq<Event>)
    requires Enabled(k, e) && Decides(k, e)
    requires Accepted(Next(k, e), es) && !Refills(Next(k, e), es)
    ensures var x := Next(k, e).current;
      x !in SelectedBusy(Next(k, e), es) && (x in Selected(Next(k, e), es) <==> x == 0 && Idles(Next(k, e), es))
  {
    NextKeeps(k, e);
    UsedUpUntilRefill(Next(k, e), es, Next(k, e).current);
    ChosenAgainIffIdle(Next(k, e), es, Next(k, e).current);
  }

  lemma NoneRunning(k: Kernel)
    requires Inv(k) && Ready(k.task) && CounterOf(k, k.current) == 0
    requires forall i :: 0 <= i < NR_TASKS ==> !Running(k.task[i])
    ensures Decide(k).current == 0 && |Decide(k).task| == NR_TASKS && !SomeRunning(Decide(k).task)
  {
    IdleDecision(k);
    SameRunning(k, Counted(k, 1));
    ChooseIsBest(Counted(k, 1).task);
    assert forall i :: 0 <= i < NR_TASKS ==> !Running(Decide(k).task[i]);
  }

  lemma IdleYield(k: Kernel)
    requires Inv(k) && k.current == 0 && !SomeRunning(k.task)
    ensures DecidesIdle(k, Yield) && Next(k, Yield).current == 0 && !SomeRunning(Next(k, Yield).task)
  {
    BeforeLive(k, Yield);
    assert forall i :: 0 <= i < NR_TASKS ==> !Running(Before(k, Yield).task[i]);
    NoneRunning(Before(k, Yield));
  }

  /** With no task running, every yield chooses slot 0 again, and none refills. */
  lemma {:induction false} IdleRepeats(k: Kernel, n: nat)
    requires Inv(k) && k.current == 0 && !SomeRunning(k.task)
    ensures var es := seq(n, _ => Yield);
      Accepted(k, es) && Selected(k, es) == seq(n, _ => 0) && !Refills(k, es)
    decreases n
  {
    if n > 0 {
      var es: seq<Event> := seq(n, _ => Yield);
      NextKeeps(k, Yield);
      IdleYield(k);
      IdleRepeats(Next(k, Yield), n - 1);
      assert es[1..] == seq(n - 1, _ => Yield);
      assert seq(n, _ => 0) == [0] + seq(n - 1, _ => 0);
    }
  }

  lemma SoleExit(k: Kernel)
    requires Boot(k)
    ensures DecidesIdle(k, Exit) && Next(k, Exit).current == 0 && !SomeRunning(Next(k, Exit).task)
  {
    BeforeLive(k, Exit);
    NoneRunning(Before(k, Exit));
  }

  /** From boot: an exit and then any number of yields choose slot 0 every time, within one
      epoch. */
  lemma IdleFromBoot(k: Kernel, n: nat)
    requires Boot(k)
    ensures var es := [Exit] + seq(n, _ => Yield);
      Accepted(k, es) && Selected(k, es) == seq(n + 1, _ => 0) && !Refills(k, es)
  {
    var es := [Exit] + seq(n, _ => Yield);
    SoleExit(k);
    NextKeeps(k, Exit);
    IdleRepeats(Next(k, Exit), n);
    assert es[1..] == seq(n, _ => Yield);
    assert seq(n + 1, _ => 0) == [0] + seq(n, _ => 0);
  }

  // ---- Bounded waiting --------------------------------------------------------------

  ghost predicate Waiting(k: Kernel, t: nat) {
    Inv(k) && t < k.nrTasks && t != k.current && Running(k.task[t])
  }

  /** An upper bound on the decisions left until `t` is chosen: what is live in this epoch,
      and a whole epoch more when `t` has used up its counter. */
  ghost function Rank(k: Kernel, t: nat): nat
    requires Waiting(k, t)
  {
    |Live(k)| + if CounterOf(k, t) > 0 then 0 else NR_TASKS
  }

  lemma LiveBound(k: Kernel)
    requires |k.task| == NR_TASKS && k.current < NR_TASKS
    ensures |Live(k)| < NR_TASKS
  {
    SmallerWithout(Live(k), NR_TASKS, k.current);
  }

  /** Every decision that does not choose `t` lowers its rank; other events do not raise it. */
  lemma RankFalls(k: Kernel, e: Event, t: nat)
    requires Enabled(k, e) && Waiting(k, t)
    requires Decides(k, e) ==> Next(k, e).current != t
    ensures Waiting(Next(k, e), t)
    ensures Rank(Next(k, e), t) + (if Decides(k, e) then 1 else 0) <= Rank(k, t)
  {
    NextKeeps(k, e);
    LiveBound(k);
    LiveBound(Next(k, e));
    if Decides(k, e) {
      var b := Before(k, e);
      BeforeLive(k, e);
      assert Running(b.task[t]);
      if EpochOver(b.task) {
        DecisionWithRefill(b);
      } else {
        DecisionWithoutRefill(b);
      }
    } else {
      QuietLive(k, e);
    }
  }

  ghost function Decisions(k: Kernel, es: seq<Event>): nat
    requires Accepted(k, es)
  {
    |Selected(k, es)|
  }

  lemma {:induction false} RankBoundsDecisions(k: Kernel, es: seq<Event>, t: nat)
    requires Accepted(k, es) && Waiting(k, t) && t !in Selected(k, es)
    ensures Waiting(Run(k, es), t)
    ensures Decisions(k, es) + Rank(Run(k, es), t) <= Rank(k, t)
    decreases |es|
  {
    if es != [] {
      var k' := Next(k, es[0]);
      assert forall x :: x in Selected(k', es[1..]) ==> x in Selected(k, es);
      assert Decides(k, es[0]) ==> Selected(k, es)[0] == k'.current;
      RankFalls(k, es[0], t);
      RankBoundsDecisions(k', es[1..], t);
    }
  }

  /** Bounded waiting: a running task that is not current and has not been chosen in a run
      has seen fewer than 2 * NR_TASKS decisions; it is still running. */
  lemma WaitIsBounded(k: Kernel, es: seq<Event>, t: nat)
    requires Accepted(k, es) && Waiting(k, t) && t !in Selected(k, es)
    ensures Decisions(k, es) < 128
    ensures Waiting(Run(k, es), t)
  {
    RankBoundsDecisions(k, es, t);
    LiveBound(k);
  }

  /** From boot on, counters stay at most 29 and every waiting task's at least 0. */
  lemma ReachableCounters(k: Kernel, es: seq<Event>, t: nat)
    requires Boot(k) && Accepted(k, es) && t < Run(k, es).nrTasks
    ensures var k' := Run(k, es);
      && k'.nrTasks <= NR_TASKS && k'.task[t].Some?
      && CounterOf(k', t) <= MAX_COUNTER && (t != k'.current ==> CounterOf(k', t) >= 0)
  {
  }

  // ---- What a task gets -------------------------------------------------------------

  lemma CounterAtEpochEnd(b: Kernel, i: nat)
    requires Inv(b) && Ready(b.task) && EpochOver(b.task) && i < b.nrTasks
    ensures |Decide(b).task| == NR_TASKS && b.task[i].Some? && Decide(b).task[i].Some?
    ensures Running(Decide(b).task[i]) == Running(b.task[i])
    ensures Decide(b).task[i].value.counter
         == b.task[i].value.priority + if Running(b.task[i]) then 0 else b.task[i].value.counter / 2
  {
    var b1 := Counted(b, 1);
    SameRunning(b, b1);
    ChooseIsBest(b1.task);
    assert b1.task[i].value.counter == b.task[i].value.counter;
    assert Choose(b1.task).0[i] == Refilled(b1.task[i]);
  }

  lemma RunningChosen(b: Kernel)
    requires Inv(b) && Ready(b.task) && EpochOver(b.task)
    ensures |Decide(b).task| == NR_TASKS && Decide(b).current < b.nrTasks && Running(Decide(b).task[Decide(b).current])
  {
    var b1 := Counted(b, 1);
    SameRunning(b, b1);
    ChooseIsBest(b1.task);
  }

  /** The decision that ends an epoch gives every running task exactly its priority, and every
      other task half of what it had left and its priority; it chooses a running task. */
  lemma EpochBegins(k: Kernel, e: Event)
    requires Enabled(k, e) && Decides(k, e) && EpochOver(Before(k, e).task)
    ensures var b, k' := Before(k, e), Next(k, e);
      && |k'.task| == |b.task| && k'.current < k.nrTasks && Running(k'.task[k'.current])
      && forall i :: 0 <= i < k.nrTasks ==>
           && b.task[i].Some? && k'.task[i].Some? && Running(k'.task[i]) == Running(b.task[i])
           && k'.task[i].value.counter
              == b.task[i].value.priority + if Running(b.task[i]) then 0 else b.task[i].value.counter / 2
  {
    var b, k' := Before(k, e), Next(k, e);
    RunningChosen(b);
    forall i | 0 <= i < k.nrTasks
      ensures b.task[i].Some? && k'.task[i].Some? && Running(k'.task[i]) == Running(b.task[i])
      ensures k'.task[i].value.counter
           == b.task[i].value.priority + if Running(b.task[i]) then 0 else b.task[i].value.counter / 2
    {
      CounterAtEpochEnd(b, i);
    }
  }

  ghost function Ticks(n: nat): seq<Event> {
    if n == 0 then [] else [Tick] + Ticks(n - 1)
  }

  /** Fewer ticks than the current task's counter do not take the CPU from it. */
  lemma {:induction false} TicksBelowCounter(k: Kernel, n: nat)
    requires Inv(k) && n < Current(k).counter
    ensures Accepted(k, Ticks(n)) && Selected(k, Ticks(n)) == []
    decreases n
  {
    if n > 0 {
      NextKeeps(k, Tick);
      assert Ticks(n)[1..] == Ticks(n - 1);
      TicksBelowCounter(Next(k, Tick), n - 1);
    }
  }

  /** That many do, when preemption is on. */
  lemma {:induction false} TicksAtCounter(k: Kernel, n: nat)
    requires Inv(k) && Current(k).preemptCount == 0 && n == Current(k).counter >= 1
    ensures Accepted(k, Ticks(n)) && |Selected(k, Ticks(n))| == 1
    decreases n
  {
    NextKeeps(k, Tick);
    assert Ticks(n)[1..] == Ticks(n - 1);
    if n > 1 {
      TicksAtCounter(Next(k, Tick), n - 1);
    } else {
      assert Ticks(0) == [];
    }
  }

  /** The task chosen when an epoch begins keeps the CPU for exactly 15 ticks. */
  lemma EpochSlice(k: Kernel, e: Event, n: nat)
    requires Enabled(k, e) && Decides(k, e) && EpochOver(Before(k, e).task)
    requires Inv(Next(k, e)) && Current(Next(k, e)).preemptCount == 0
    ensures n < 15 ==> Accepted(Next(k, e), Ticks(n)) && Selected(Next(k, e), Ticks(n)) == []
    ensures n == 15 ==> Accepted(Next(k, e), Ticks(n)) && |Selected(Next(k, e), Ticks(n))| == 1
  {
    NextKeeps(k, e);
    EpochBegins(k, e);
    assert SlotOk(Before(k, e).task[Next(k, e).current].value, Next(k, e).current == k.current);
    if n < 15 {
      TicksBelowCounter(Next(k, e), n);
    } else if n == 15 {
      TicksAtCounter(Next(k, e), n);
    }
  }

  /** So it is from boot on: the initial task, alone, yields to itself and has 15 ticks. */
  lemma FirstSlice(k: Kernel, n: nat)
    requires Boot(k)
    ensures Enabled(k, Yield) && Next(k, Yield).current == 0
    ensures n < 15 ==> Accepted(Next(k, Yield), Ticks(n)) && Selected(Next(k, Yield), Ticks(n)) == []
    ensures n == 15 ==> Accepted(Next(k, Yield), Ticks(n)) && |Selected(Next(k, Yield), Ticks(n))| == 1
  {
    BootInv(k);
    NextKeeps(k, Yield);
    var b := Before(k, Yield);
    assert Running(b.task[0]) && b.task[0].value.counter == 0;
    EpochBegins(k, Yield);
    EpochSlice(k, Yield, n);
  }

  /** A fork that gets its page adds one task: running, with its parent's priority as its
      priority and its counter, and not yet preemptible. It waits for the CPU from then on. */
  lemma ForkAdds(k: Kernel)
    requires Enabled(k, Fork(true))
    ensures var k', p := Next(k, Fork(true)), Current(k).priority;
      && k'.nrTasks == k.nrTasks + 1 <= |k'.task| && k'.task == k.task[k.nrTasks := Some(Task(0, p, p, 1))]
      && k'.current == k.current && Waiting(k', k.nrTasks)
  {
    NextKeeps(k, Fork(true));
  }

  lemma StoppedStays(k: Kernel, e: Event, t: nat)
    requires Enabled(k, e) && t < k.nrTasks && !Running(k.task[t])
    ensures |Next(k, e).task| == NR_TASKS && t < Next(k, e).nrTasks && !Running(Next(k, e).task[t])
    ensures Decides(k, e) && !DecidesIdle(k, e) ==> Next(k, e).current != t
  {
    if Decides(k, e) {
      var b := Before(k, e);
      var b1 := Counted(b, 1);
      SameRunning(b, b1);
      ChooseIsBest(b1.task);
      assert !Running(b1.task[t]);
    }
  }

  /** A task that does not run, as one that has exited, never runs again, and no decision that
      finds a running task chooses it. */
  lemma {:induction false} StoppedIsNotChosen(k: Kernel, es: seq<Event>, t: nat)
    requires Accepted(k, es) && t < k.nrTasks && !Running(k.task[t])
    ensures t < Run(k, es).nrTasks && !Running(Run(k, es).task[t]) && t !in SelectedBusy(k, es)
    decreases |es|
  {
    if es != [] {
      StoppedStays(k, es[0], t);
      StoppedIsNotChosen(Next(k, es[0]), es[1..], t);
    }
  }

  lemma ExitStops(k: Kernel)
    requires Enabled(k, Exit)
    ensures k.current < |Next(k, Exit).task| && !Running(Next(k, Exit).task[k.current])
  {
    var b := Before(k, Exit);
    var b1 := Counted(b, 1);
    SameRunning(b, b1);
    ChooseIsBest(b1.task);
    assert !Running(b1.task[k.current]);
  }

  // ---- A failed fork ----------------------------------------------------------------

  lemma {:induction false} TicksDoNotDecide(k: Kernel, n: nat)
    requires Inv(k) && Current(k).preemptCount >= 1
    ensures Accepted(k, Ticks(n)) && Selected(k, Ticks(n)) == []
    decreases n
  {
    if n > 0 {
      NextKeeps(k, Tick);
      assert Ticks(n)[1..] == Ticks(n - 1);
      TicksDoNotDecide(Next(k, Tick), n - 1);
    }
  }

  lemma {:induction false} TicksDecide(k: Kernel, n: nat)
    requires Inv(k) && Current(k).preemptCount == 0
    requires n >= 1 && n >= Current(k).counter
    ensures Accepted(k, Ticks(n)) && Selected(k, Ticks(n)) != []
    decreases n
  {
    NextKeeps(k, Tick);
    assert Ticks(n)[1..] == Ticks(n - 1);
    if TickDecides(k) {
      TicksAccepted(Next(k, Tick), n - 1);
    } else {
      TicksDecide(Next(k, Tick), n - 1);
    }
  }

  lemma {:induction false} TicksAccepted(k: Kernel, n: nat)
    requires Inv(k)
    ensures Accepted(k, Ticks(n))
    decreases n
  {
    if n > 0 {
      NextKeeps(k, Tick);
      assert Ticks(n)[1..] == Ticks(n - 1);
      TicksAccepted(Next(k, Tick), n - 1);
    }
  }

  /** Some number of timer ticks takes the CPU from the current task. */
  ghost predicate Preemptible(k: Kernel) {
    exists n: nat :: Accepted(k, Ticks(n)) && Selected(k, Ticks(n)) != []
  }

  /** Ticks lead to a decision exactly when the preemption count is 0; then 29 are enough. */
  lemma PreemptibleExactly(k: Kernel)
    requires Inv(k)
    ensures Preemptible(k) <==> Current(k).preemptCount == 0
    ensures Preemptible(k) ==> Accepted(k, Ticks(MAX_COUNTER)) && Selected(k, Ticks(MAX_COUNTER)) != []
  {
    assert SlotOk(Current(k), true);
    if Current(k).preemptCount == 0 {
      TicksDecide(k, MAX_COUNTER);
    } else {
      forall n: nat
        ensures Accepted(k, Ticks(n)) && Selected(k, Ticks(n)) == []
      {
        TicksDoNotDecide(k, n);
      }
    }
  }

  lemma ForkCount(k: Kernel, ok: bool)
    requires Enabled(k, Fork(ok)) && Inv(k) && Inv(Next(k, Fork(ok)))
    ensures Current(Next(k, Fork(ok))).preemptCount == Current(k).preemptCount + if ok then 0 else 1
  {
  }

  /** A fork leaves its caller preemptible exactly when it gets its page: without one,
      `copy_process` returns before `preempt_enable`. */
  lemma ForkKeepsPreemptionIffServed(k: Kernel, ok: bool)
    requires Enabled(k, Fork(ok)) && Preemptible(k)
    ensures Preemptible(Next(k, Fork(ok))) <==> ok
  {
    NextKeeps(k, Fork(ok));
    ForkCount(k, ok);
    PreemptibleExactly(k);
    PreemptibleExactly(Next(k, Fork(ok)));
  }

  /** `copy_process` leaves without `preempt_enable` when it gets no page: from then on no
      number of timer ticks takes the CPU from the caller. */
  lemma FailedForkEndsPreemption(k: Kernel, n: nat)
    requires Inv(k)
    ensures var k' := Next(k, Fork(false));
      Accepted(k', Ticks(n)) && Selected(k', Ticks(n)) == []
  {
    NextKeeps(k, Fork(false));
    TicksDoNotDecide(Next(k, Fork(false)), n);
  }
}
