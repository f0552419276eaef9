/** The list scheduler seen from outside: one ring of queued nodes, walked cyclically. */
module SchedRing {

  /** The queued nodes in walking order (the four lists one after the other), and how many
      of them lie up to and including the current one. */
  datatype Ring<T> = Ring(order: seq<T>, at: nat) {
    ghost predicate Valid() {
      at <= |order| && forall i, j :: 0 <= i < j < |order| ==> order[i] != order[j]
    }
  }

  /** The node reached from the current one after passing over `j` others. */
  function Ahead(n: nat, at: nat, j: nat): (k: nat)
    requires at <= n && j < n
    ensures k < n
  {
    if at + j < n then at + j else at + j - n
  }

  /** The fewest nodes, at least `j`, to pass over before one in `run` comes up. */
  ghost function FirstRunnable<T>(r: Ring<T>, run: set<T>, j: nat): (k: nat)
    requires r.at <= |r.order| && j <= |r.order|
    ensures j <= k <= |r.order|
    ensures forall i :: j <= i < k ==> r.order[Ahead(|r.order|, r.at, i)] !in run
    ensures k < |r.order| ==> r.order[Ahead(|r.order|, r.at, k)] in run
    decreases |r.order| - j
  {
    if j == |r.order| || r.order[Ahead(|r.order|, r.at, j)] in run then j else FirstRunnable(r, run, j + 1)
  }

  ghost predicate SomeRunnable<T>(r: Ring<T>, run: set<T>) {
    exists i :: 0 <= i < |r.order| && r.order[i] in run
  }

  /** Every node is passed within one round. */
  lemma RoundReaches<T>(r: Ring<T>, i: nat) returns (j: nat)
    requires r.at <= |r.order| && i < |r.order|
    ensures j < |r.order| && Ahead(|r.order|, r.at, j) == i
  {
    j := if i >= r.at then i - r.at else |r.order| - r.at + i;
  }

  lemma SomeRunnableIsFound<T>(r: Ring<T>, run: set<T>)
    requires r.at <= |r.order|
    ensures SomeRunnable(r, run) <==> FirstRunnable(r, run, 0) < |r.order|
  {
    if SomeRunnable(r, run) {
      var i :| 0 <= i < |r.order| && r.order[i] in run;
      var j := RoundReaches(r, i);
      assert r.order[Ahead(|r.order|, r.at, j)] in run;
    }
  }

  /** The next runnable node in cyclic order becomes current. */
  ghost function Decide<T>(r: Ring<T>, run: set<T>): (r': Ring<T>)
    requires r.at <= |r.order| && SomeRunnable(r, run)
    ensures r'.order == r.order && 1 <= r'.at <= |r'.order| && r'.order[r'.at - 1] in run
  {
    SomeRunnableIsFound(r, run);
    Ring(r.order, Ahead(|r.order|, r.at, FirstRunnable(r, run, 0)) + 1)
  }

  ghost function Current<T>(r: Ring<T>): T
    requires 1 <= r.at <= |r.order|
  {
    r.order[r.at - 1]
  }

  /** A node appended to one of the lists, whose end is at `e`. */
  ghost function Insert<T>(r: Ring<T>, e: nat, x: T): Ring<T>
    requires r.at <= |r.order| && e <= |r.order|
  {
    Ring(r.order[..e] + [x] + r.order[e..], if e < r.at then r.at + 1 else r.at)
  }

  /** The node at `k`, not the current one, taken out. */
  ghost function Remove<T>(r: Ring<T>, k: nat): Ring<T>
    requires r.at <= |r.order| && k < |r.order| && k + 1 != r.at
  {
    Ring(r.order[..k] + r.order[k + 1..], if k < r.at then r.at - 1 else r.at)
  }

  // ---- Runs -------------------------------------------------------------------------

  /** A scheduling decision with the set of nodes runnable at that moment, an append, or an
      unlink. */
  datatype Event<T> = Decision(run: set<T>) | Append(end: nat, node: T) | Unlink(node: T)

  ghost predicate Enabled<T>(r: Ring<T>, e: Event<T>) {
    r.Valid() &&
    match e
    case Decision(run) => SomeRunnable(r, run)
    case Append(end, x) => end <= |r.order| && x !in r.order
    case Unlink(x) => x in r.order && (r.at >= 1 ==> Current(r) != x)
  }

  ghost function IndexOf<T>(s: seq<T>, x: T): (i: nat)
    requires x in s
    ensures i < |s| && s[i] == x
  {
    var i :| 0 <= i < |s| && s[i] == x;
    i
  }

  ghost function Next<T>(r: Ring<T>, e: Event<T>): Ring<T>
    requires Enabled(r, e)
  {
    match e
    case Decision(run) => Decide(r, run)
    case Append(end, x) => Insert(r, end, x)
    case Unlink(x) => Remove(r, IndexOf(r.order, x))
  }

  /** `r'` is `r` after the event `e`, which can happen in `r`. */
  ghost predicate Steps<T>(r: Ring<T>, e: Event<T>, r': Ring<T>) {
    Enabled(r, e) && r' == Next(r, e)
  }

  lemma InsertAt<T>(r: Ring<T>, e: nat, x: T, i: nat)
    requires r.at <= |r.order| && e <= |r.order| && i <= |r.order|
    ensures Insert(r, e, x).order[i] == if i < e then r.order[i] else if i == e then x else r.order[i - 1]
  {
  }

  lemma UnlinkedIsGone<T>(r: Ring<T>, x: T)
    requires Enabled(r, Unlink(x))
    ensures x !in Next(r, Unlink(x)).order
  {
    var k := IndexOf(r.order, x);
    assert Next(r, Unlink(x)).order == r.order[..k] + r.order[k + 1..];
  }

  lemma NextValid<T>(r: Ring<T>, e: Event<T>)
    requires Enabled(r, e)
    ensures Next(r, e).Valid()
  {
  }

  ghost predicate Accepted<T>(r: Ring<T>, es: seq<Event<T>>)
    decreases |es|
  {
    r.Valid() && (es != [] ==> Enabled(r, es[0]) && Accepted(Next(r, es[0]), es[1..]))
  }

  ghost function Run<T>(r: Ring<T>, es: seq<Event<T>>): (r': Ring<T>)
    requires Accepted(r, es)
    ensures r'.Valid()
    decreases |es|
  {
    if es == [] then r else Run(Next(r, es[0]), es[1..])
  }

  /** The nodes selected by the decisions of a run, in order. */
  ghost function Selected<T>(r: Ring<T>, es: seq<Event<T>>): seq<T>
    requires Accepted(r, es)
    decreases |es|
  {
    if es == [] then []
    else (if es[0].Decision? then [Current(Next(r, es[0]))] else []) + Selected(Next(r, es[0]), es[1..])
  }

  ghost function Appends<T>(es: seq<Event<T>>): nat {
    if es == [] then 0 else (if es[0].Append? then 1 else 0) + Appends(es[1..])
  }

  ghost function Decisions<T>(es: seq<Event<T>>): nat {
    if es == [] then 0 else (if es[0].Decision? then 1 else 0) + Decisions(es[1..])
  }

  /** `x` is runnable at every decision and never unlinked. */
  ghost predicate StaysRunnable<T>(x: T, es: seq<Event<T>>) {
    && (forall i :: 0 <= i < |es| && es[i].Decision? ==> x in es[i].run)
    && (forall i :: 0 <= i < |es| && es[i].Unlink? ==> es[i].node != x)
  }

  // ---- Distance ---------------------------------------------------------------------

  /** How many nodes come up before `x` does. */
  ghost function Distance<T>(r: Ring<T>, x: T): (d: nat)
    requires r.at <= |r.order| && x in r.order
    ensures d < |r.order| && r.order[Ahead(|r.order|, r.at, d)] == x
  {
    var i := IndexOf(r.order, x);
    if i >= r.at then i - r.at else |r.order| - r.at + i
  }

  /** The node that comes up after `i` others. */
  ghost function NodeAhead<T>(r: Ring<T>, i: nat): T
    requires r.at <= |r.order| && i < |r.order|
  {
    r.order[Ahead(|r.order|, r.at, i)]
  }

  lemma DistanceUnique<T>(r: Ring<T>, x: T, d: nat)
    requires r.Valid() && d < |r.order| && r.order[Ahead(|r.order|, r.at, d)] == x
    ensures Distance(r, x) == d
  {
  }

  /** The same place seen from the node that was `j` places ahead. */
  lemma AheadFromThere(n: nat, at: nat, j: nat, d: nat)
    requires at <= n && j < n && d < n
    ensures var d' := if d > j then d - j - 1 else n + d - j - 1;
      d' < n && Ahead(n, Ahead(n, at, j) + 1, d') == Ahead(n, at, d)
  {
  }

  lemma DecideIs<T>(r: Ring<T>, run: set<T>)
    requires r.at <= |r.order| && SomeRunnable(r, run)
    ensures var j := FirstRunnable(r, run, 0);
      j < |r.order| && Decide(r, run) == Ring(r.order, Ahead(|r.order|, r.at, j) + 1)
  {
    SomeRunnableIsFound(r, run);
  }

  /** What a decision does to the distance of a node: it falls by the nodes the decision walks
      to, or starts over when the walk reaches the node. */
  lemma DecisionMoves<T>(r: Ring<T>, run: set<T>, x: T)
    requires r.Valid() && SomeRunnable(r, run) && x in r.order
    ensures var r', j, d := Decide(r, run), FirstRunnable(r, run, 0), Distance(r, x);
      && r'.Valid() && x in r'.order && j < |r.order|
      && (Current(r') == x <==> j == d)
      && Distance(r', x) == if d > j then d - j - 1 else |r.order| + d - j - 1
  {
    var r', j, d, n := Decide(r, run), FirstRunnable(r, run, 0), Distance(r, x), |r.order|;
    DecideIs(r, run);
    AheadFromThere(n, r.at, j, d);
    DistanceUnique(r', x, if d > j then d - j - 1 else n + d - j - 1);
    if Current(r') == x {
      DistanceUnique(r, x, j);
    }
  }

  /** A decision selects a node of `run`, and none that comes up before it is in `run`. */
  lemma SelectedIsFirst<T>(r: Ring<T>, run: set<T>)
    requires r.Valid() && SomeRunnable(r, run)
    ensures Current(Decide(r, run)) in r.order && Current(Decide(r, run)) in run
    ensures forall i :: 0 <= i < Distance(r, Current(Decide(r, run))) ==> NodeAhead(r, i) !in run
  {
    var x := Current(Decide(r, run));
    DecideIs(r, run);
    DecisionMoves(r, run, x);
  }

  lemma WalkStopsAtRunnable<T>(r: Ring<T>, run: set<T>, x: T)
    requires r.at <= |r.order| && x in r.order && x in run
    ensures FirstRunnable(r, run, 0) <= Distance(r, x)
  {
  }

  /** A decision with `x` runnable selects `x`, or brings it nearer by the nodes passed. */
  lemma DecisionApproaches<T>(r: Ring<T>, run: set<T>, x: T)
    requires r.Valid() && SomeRunnable(r, run) && x in r.order && x in run
    ensures var r', j := Decide(r, run), FirstRunnable(r, run, 0);
      && j <= Distance(r, x)
      && (Current(r') == x <==> j == Distance(r, x))
      && (Current(r') != x ==> Distance(r', x) == Distance(r, x) - j - 1)
  {
    DecisionMoves(r, run, x);
    WalkStopsAtRunnable(r, run, x);
  }

  /** How many queued nodes come up before a node inserted at `e` would. */
  function GapAhead(n: nat, at: nat, e: nat): nat
    requires at <= n && e <= n
  {
    if e >= at then e - at else n - at + e
  }

  /** Places and distances around an insertion at `e`: `i` is the place of a node before it. */
  lemma InsertedDistance(n: nat, at: nat, e: nat, i: nat, d: nat)
    requires at <= n && e <= n && i < n && d < n && Ahead(n, at, d) == i
    ensures var d' := d + if GapAhead(n, at, e) <= d then 1 else 0;
      d' < n + 1 && Ahead(n + 1, if e < at then at + 1 else at, d') == if i < e then i else i + 1
  {
  }

  /** An append moves any queued node at most one place away. */
  lemma AppendShifts<T>(r: Ring<T>, e: nat, x: T, y: T)
    requires r.Valid() && e <= |r.order| && y !in r.order && x in r.order
    ensures x in Insert(r, e, y).order
    ensures Distance(Insert(r, e, y), x)
         == Distance(r, x) + if GapAhead(|r.order|, r.at, e) <= Distance(r, x) then 1 else 0
  {
    var r', d := Insert(r, e, y), Distance(r, x);
    var i := Ahead(|r.order|, r.at, d);
    NextValid(r, Append(e, y));
    InsertAt(r, e, y, if i < e then i else i + 1);
    InsertedDistance(|r.order|, r.at, e, i, d);
    DistanceUnique(r', x, d + if GapAhead(|r.order|, r.at, e) <= d then 1 else 0);
  }

  lemma RemoveAt<T>(r: Ring<T>, k: nat, i: nat)
    requires r.at <= |r.order| && k < |r.order| && k + 1 != r.at && i < |r.order| && i != k
    ensures |Remove(r, k).order| == |r.order| - 1
    ensures Remove(r, k).order[if i < k then i else i - 1] == r.order[i]
  {
  }

  /** Places and distances around a removal at `k`, which is `dk` places ahead. */
  lemma RemovedDistance(n: nat, at: nat, k: nat, dk: nat, i: nat, d: nat)
    requires at <= n && dk < n && d < n && Ahead(n, at, dk) == k && Ahead(n, at, d) == i && i != k && k + 1 != at
    ensures var d' := d - if dk < d then 1 else 0; var at' := if k < at then at - 1 else at;
      at' <= n - 1 && 0 <= d' < n - 1 && Ahead(n - 1, at', d') == if i < k then i else i - 1
  {
  }

  lemma RemoveMoves<T>(r: Ring<T>, k: nat, dk: nat, x: T)
    requires r.Valid() && k < |r.order| && k + 1 != r.at && x in r.order && r.order[k] != x
    requires dk < |r.order| && Ahead(|r.order|, r.at, dk) == k && Remove(r, k).Valid()
    ensures x in Remove(r, k).order
    ensures Distance(Remove(r, k), x) == Distance(r, x) - if dk < Distance(r, x) then 1 else 0
  {
    var d := Distance(r, x);
    var i := Ahead(|r.order|, r.at, d);
    RemoveAt(r, k, i);
    RemovedDistance(|r.order|, r.at, k, dk, i, d);
    DistanceUnique(Remove(r, k), x, d - if dk < d then 1 else 0);
  }

  lemma RemoveShifts<T>(r: Ring<T>, x: T, y: T)
    requires Enabled(r, Unlink(y)) && x in r.order && x != y
    ensures x in Next(r, Unlink(y)).order
    ensures Distance(Next(r, Unlink(y)), x) == Distance(r, x) - if Distance(r, y) < Distance(r, x) then 1 else 0
  {
    NextValid(r, Unlink(y));
    RemoveMoves(r, IndexOf(r.order, y), Distance(r, y), x);
  }

  // ---- Fairness ---------------------------------------------------------------------

  lemma StaysRunnableTail<T>(x: T, es: seq<Event<T>>)
    requires es != [] && StaysRunnable(x, es)
    ensures StaysRunnable(x, es[1..])
  {
  }

  ghost predicate NeverUnlinked<T>(x: T, es: seq<Event<T>>) {
    forall i :: 0 <= i < |es| && es[i].Unlink? ==> es[i].node != x
  }

  lemma NeverUnlinkedTail<T>(x: T, es: seq<Event<T>>)
    requires es != [] && NeverUnlinked(x, es)
    ensures NeverUnlinked(x, es[1..]) && (es[0].Unlink? ==> es[0].node != x)
  {
    assert forall i :: 0 <= i < |es| - 1 ==> es[1..][i] == es[i + 1];
  }

  /** Bounded waiting: as long as a queued, runnable node has not been selected, the number
      of decisions taken is below the nodes queued at the start plus those appended since. */
  lemma {:induction false} WaitIsBounded<T>(r: Ring<T>, es: seq<Event<T>>, x: T)
    requires Accepted(r, es) && x in r.order && StaysRunnable(x, es)
    requires x !in Selected(r, es)
    ensures x in Run(r, es).order
    ensures Decisions(es) + Distance(Run(r, es), x) <= Distance(r, x) + Appends(es)
    ensures Decisions(es) < |r.order| + Appends(es)
    decreases |es|
  {
    if es != [] {
      var r' := Next(r, es[0]);
      StaysRunnableTail(x, es);
      match es[0] {
        case Decision(run) =>
          DecisionApproaches(r, run, x);
          assert Selected(r, es)[0] == Current(r');
        case Append(e, y) => AppendShifts(r, e, x, y);
        case Unlink(y) => RemoveShifts(r, x, y);
      }
      assert forall z :: z in Selected(r', es[1..]) ==> z in Selected(r, es);
      WaitIsBounded(r', es[1..], x);
    }
  }

  /** An append or an unlink of another node leaves `x` before `y`. */
  lemma QuietOrder<T>(r: Ring<T>, e: Event<T>, x: T, y: T)
    requires Enabled(r, e) && !e.Decision? && x in r.order && y in r.order && x != y
    requires Distance(r, x) < Distance(r, y)
    requires e.Unlink? ==> e.node != x && e.node != y
    ensures var r' := Next(r, e);
      r'.Valid() && x in r'.order && y in r'.order && Distance(r', x) < Distance(r', y)
  {
    NextValid(r, e);
    match e {
      case Append(end, z) =>
        AppendShifts(r, end, x, z);
        AppendShifts(r, end, y, z);
      case Unlink(z) =>
        RemoveShifts(r, x, z);
        RemoveShifts(r, y, z);
    }
  }

  /** One event leaves `x` before `y`, unless it is a decision that selects `x`. */
  lemma OrderKept<T>(r: Ring<T>, e: Event<T>, x: T, y: T)
    requires Enabled(r, e) && x in r.order && y in r.order && x != y && Distance(r, x) < Distance(r, y)
    requires e.Decision? ==> x in e.run && Current(Next(r, e)) != x
    requires e.Unlink? ==> e.node != x && e.node != y
    ensures var r' := Next(r, e);
      && r'.Valid() && x in r'.order && y in r'.order && Distance(r', x) < Distance(r', y)
      && (e.Decision? ==> Current(r') != y)
  {
    if e.Decision? {
      DecisionApproaches(r, e.run, x);
      DecisionMoves(r, e.run, y);
    } else {
      QuietOrder(r, e, x, y);
    }
  }

  /** While `x` lies before `y` and stays runnable, `y` is not selected before `x`. */
  lemma {:induction false} NoOvertaking<T>(r: Ring<T>, es: seq<Event<T>>, x: T, y: T)
    requires Accepted(r, es) && x in r.order && y in r.order && x != y
    requires StaysRunnable(x, es) && Distance(r, x) < Distance(r, y)
    requires x !in Selected(r, es)
    requires NeverUnlinked(y, es)
    ensures y !in Selected(r, es)
    decreases |es|
  {
    if es != [] {
      var r' := Next(r, es[0]);
      StaysRunnableTail(x, es);
      NeverUnlinkedTail(y, es);
      assert es[0].Decision? ==> Selected(r, es)[0] == Current(r');
      OrderKept(r, es[0], x, y);
      assert forall z :: z in Selected(r', es[1..]) ==> z in Selected(r, es);
      NoOvertaking(r', es[1..], x, y);
    }
  }

  /** Bounded bypass: after a decision has selected `y`, a queued node `x` that stays
      runnable is selected before `y` is selected again. */
  lemma BypassAtMostOnce<T>(r: Ring<T>, run: set<T>, es: seq<Event<T>>, x: T, y: T)
    requires r.Valid() && SomeRunnable(r, run) && Current(Decide(r, run)) == y
    requires x in r.order && x != y && Accepted(Decide(r, run), es)
    requires StaysRunnable(x, es) && x !in Selected(Decide(r, run), es)
    requires NeverUnlinked(y, es)
    ensures y !in Selected(Decide(r, run), es)
  {
    var r' := Decide(r, run);
    DecisionMoves(r, run, x);
    DecisionMoves(r, run, y);
    NoOvertaking(r', es, x, y);
  }

  /** Some decision of the run walks past `x`: it finds `x` not runnable and goes on. */
  ghost predicate PassedOver<T>(r: Ring<T>, es: seq<Event<T>>, x: T)
    requires Accepted(r, es)
    decreases |es|
  {
    es != [] &&
    (PassesOver(r, es[0], x) || PassedOver(Next(r, es[0]), es[1..], x))
  }

  ghost predicate PassesOver<T>(r: Ring<T>, e: Event<T>, x: T)
    requires Enabled(r, e)
  {
    e.Decision? && x in r.order && FirstRunnable(r, e.run, 0) > Distance(r, x)
  }

  /** The last event of the run selects `y`, and no other does. */
  ghost predicate SelectedLast<T>(r: Ring<T>, es: seq<Event<T>>, y: T)
    requires Accepted(r, es)
    decreases |es|
  {
    && es != []
    && var selects := es[0].Decision? && Current(Next(r, es[0])) == y;
       if |es| == 1 then selects else !selects && SelectedLast(Next(r, es[0]), es[1..], y)
  }

  /** A decision passes over `x` only if `x` is not runnable then. */
  lemma PassedIsBlocked<T>(r: Ring<T>, e: Event<T>, x: T)
    requires Enabled(r, e) && PassesOver(r, e, x)
    ensures x !in e.run
  {
  }

  /** Up to the next selection of a runnable `y`, a node behind it is neither selected nor
      passed over. */
  lemma {:induction false} BehindIsUntouched<T>(r: Ring<T>, es: seq<Event<T>>, x: T, y: T)
    requires Accepted(r, es) && x in r.order && y in r.order && Distance(r, y) < Distance(r, x)
    requires StaysRunnable(y, es) && NeverUnlinked(x, es) && SelectedLast(r, es, y)
    ensures x !in Selected(r, es) && !PassedOver(r, es, x)
    decreases |es|
  {
    var e, r' := es[0], Next(r, es[0]);
    NeverUnlinkedTail(x, es);
    if e.Decision? {
      DecisionApproaches(r, e.run, y);
      DecisionMoves(r, e.run, x);
      if Current(r') != y {
        OrderKept(r, e, y, x);
      }
    }
    if |es| > 1 {
      StaysRunnableTail(y, es);
      OrderKept(r, e, y, x);
      BehindIsUntouched(r', es[1..], x, y);
    } else {
      assert es[1..] == [];
    }
  }

  /** When a node before `y` is bypassed: up to the next selection of `y`, which stays
      runnable, `x` is selected if and only if no decision passes over it. */
  lemma {:induction false} SelectedIffNotPassedOver<T>(r: Ring<T>, es: seq<Event<T>>, x: T, y: T)
    requires Accepted(r, es) && x in r.order && y in r.order && Distance(r, x) < Distance(r, y)
    requires StaysRunnable(y, es) && NeverUnlinked(x, es) && SelectedLast(r, es, y)
    ensures x in Selected(r, es) <==> !PassedOver(r, es, x)
    decreases |es|
  {
    var e, r' := es[0], Next(r, es[0]);
    NeverUnlinkedTail(x, es);
    if e.Decision? {
      DecisionMoves(r, e.run, x);
      DecisionMoves(r, e.run, y);
      WalkStopsAtRunnable(r, e.run, y);
    }
    if |es| > 1 {
      StaysRunnableTail(y, es);
      NextValid(r, e);
      if !e.Decision? {
        QuietOrder(r, e, x, y);
        SelectedIffNotPassedOver(r', es[1..], x, y);
      } else if FirstRunnable(r, e.run, 0) < Distance(r, x) {
        SelectedIffNotPassedOver(r', es[1..], x, y);
      } else {
        BehindIsUntouched(r', es[1..], x, y);
      }
    } else {
      assert es[1..] == [];
    }
  }

  /** The exact bypass bound: between a selection of `y` and the next one, with `y` runnable
      throughout, a queued node `x` is bypassed if and only if some decision walks past it
      while it is not runnable. */
  lemma BypassedExactly<T>(r: Ring<T>, run: set<T>, es: seq<Event<T>>, x: T, y: T)
    requires r.Valid() && SomeRunnable(r, run) && Current(Decide(r, run)) == y
    requires x in r.order && x != y && Accepted(Decide(r, run), es)
    requires StaysRunnable(y, es) && NeverUnlinked(x, es) && SelectedLast(Decide(r, run), es, y)
    ensures x !in Selected(Decide(r, run), es) <==> PassedOver(Decide(r, run), es, x)
  {
    var r' := Decide(r, run);
    DecisionMoves(r, run, x);
    DecisionMoves(r, run, y);
    SelectedIffNotPassedOver(r', es, x, y);
  }

  /** The only runnable node is selected. */
  lemma OnlyRunnable<T>(r: Ring<T>, y: T)
    requires r.Valid() && y in r.order
    ensures SomeRunnable(r, {y}) && Current(Decide(r, {y})) == y
    ensures Decide(r, {y}).Valid() && Decide(r, {y}).order == r.order
  {
    var i := IndexOf(r.order, y);
    assert r.order[i] in {y};
  }

  /** In every ring of two nodes or more, a node that is not runnable can be bypassed any
      number of times by any other. */
  lemma {:induction false} BlockedIsBypassed<T>(r: Ring<T>, x: T, y: T, n: nat)
    requires r.Valid() && x in r.order && y in r.order && x != y
    ensures var es := seq(n, _ => Decision({y}));
      Accepted(r, es) && Selected(r, es) == seq(n, _ => y) && x !in Selected(r, es)
    decreases n
  {
    if n > 0 {
      var es: seq<Event<T>> := seq(n, _ => Decision({y}));
      OnlyRunnable(r, y);
      BlockedIsBypassed(Decide(r, {y}), x, y, n - 1);
      assert es[1..] == seq(n - 1, _ => Decision({y}));
      assert seq(n, _ => y) == [y] + seq(n - 1, _ => y);
    }
  }
}
