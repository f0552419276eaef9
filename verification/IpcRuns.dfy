/** Runs of the message passing: when a send returns, which tasks never return, and which
    runs lose a letter. */
module IpcRuns {
  import opened Common
  import opened IpcModel

  ghost predicate Accepted(s: Ipc, es: seq<Event>)
    decreases |es|
  {
    Inv(s) && (es != [] ==> Enabled(s, es[0]) && Accepted(Next(s, es[0]), es[1..]))
  }

  ghost function Run(s: Ipc, es: seq<Event>): (s': Ipc)
    requires Accepted(s, es)
    ensures Inv(s')
    decreases |es|
  {
    if es == [] then s else Run(Next(s, es[0]), es[1..])
  }

  /** The letters `recieve_msg` returns during a run, in order. */
  ghost function Received(s: Ipc, es: seq<Event>): seq<Letter>
    requires Accepted(s, es)
    decreases |es|
  {
    if es == [] then []
    else
      (if es[0].Receive? then [s.tasks[es[0].t].rdv.value] else []) + Received(Next(s, es[0]), es[1..])
  }

  /** `n` idle tasks and empty rings. */
  function Start(n: nat): Ipc {
    Ipc([], [], seq(n, i => Pcb(None, false, None)))
  }

  lemma {:induction false} IdleCount(tasks: seq<Pcb>, t: nat)
    requires forall d :: 0 <= d < |tasks| ==> tasks[d].rdv == None
    ensures RdvCount(tasks, t) == 0
    decreases |tasks|
  {
    if tasks != [] {
      IdleCount(tasks[1..], t);
    }
  }

  lemma StartInv(n: nat)
    requires n <= NR_TASKS
    ensures Inv(Start(n))
  {
    forall t: nat | t < n
      ensures Tokens(Start(n), t) == 0
    {
      IdleCount(Start(n).tasks, t);
    }
  }

  lemma {:induction false} RunInv(s: Ipc, e: Event, es: seq<Event>)
    requires Inv(s) && Enabled(s, e) && Accepted(Next(s, e), es)
    ensures Accepted(s, [e] + es) && Run(s, [e] + es) == Run(Next(s, e), es)
  {
  }

  // ---- A send returns after its letter was received ---------------------------------

  /** One event, seen from a waiting task that does not return in it: its reply flag goes up
      exactly when its letter is received. */
  lemma ReplyStep(s: Ipc, e: Event, t: nat)
    requires Inv(s) && Enabled(s, e) && t < |s.tasks| && Waits(s, t) && e != AcceptReply(t)
    ensures Inv(Next(s, e)) && t < |Next(s, e).tasks|
    ensures Next(s, e).tasks[t].waiting == s.tasks[t].waiting
    ensures One(Next(s, e).tasks[t].reply) ==
            One(s.tasks[t].reply) + One(e.Receive? && s.tasks[e.t].rdv.value.from == t)
    ensures e.Receive? && s.tasks[e.t].rdv.value.from == t ==>
              Some(s.tasks[e.t].rdv.value) == s.tasks[t].waiting && s.tasks[e.t].rdv.value.dst == e.t
  {
    NextKeeps(s, e);
    WaitingAfter(s, e, t);
    if e.Receive? {
      assert Awaited(s, s.tasks[e.t].rdv.value);
      RdvCountAt(s.tasks, e.t, s.tasks[e.t].rdv.value.from);
      assert Tokens(s, s.tasks[e.t].rdv.value.from) <= 1;
    }
  }

  /** While a task waits, the reply flag counts the receipts of its letter. */
  lemma {:induction false} ReplyCountsReceipts(s: Ipc, es: seq<Event>, t: nat)
    requires Accepted(s, es) && t < |s.tasks| && Waits(s, t) && AcceptReply(t) !in es
    ensures t < |Run(s, es).tasks| && Run(s, es).tasks[t].waiting == s.tasks[t].waiting
    ensures Count(Received(s, es), t) + One(s.tasks[t].reply) == One(Run(s, es).tasks[t].reply)
    ensures Count(Received(s, es), t) >= 1 ==> s.tasks[t].waiting.value in Received(s, es)
    decreases |es|
  {
    if es != [] {
      var e := es[0];
      assert AcceptReply(t) !in es[1..];
      ReplyStep(s, e, t);
      ReplyCountsReceipts(Next(s, e), es[1..], t);
      ghost var rest := Received(Next(s, e), es[1..]);
      if e.Receive? {
        assert Received(s, es) == [s.tasks[e.t].rdv.value] + rest;
        assert Received(s, es)[1..] == rest;
      } else {
        assert Received(s, es) == rest;
      }
    }
  }

  /** A send returns only after its own letter was received, and it was received once: between
      the send and the return exactly one `recieve_msg` hands out a letter of this task, and
      it is the letter sent. */
  lemma SendReturnsAfterReceipt(s: Ipc, l: Letter, user: bool, es: seq<Event>)
    requires Inv(s)
    requires var e := if user then SysSend(l) else Send(l);
      && Enabled(s, e) && AcceptReply(l.from) !in es
      && Accepted(Next(s, e), es) && Enabled(Run(Next(s, e), es), AcceptReply(l.from))
    ensures var s1 := Next(s, if user then SysSend(l) else Send(l));
      Count(Received(s1, es), l.from) == 1 && l in Received(s1, es)
  {
    var e := if user then SysSend(l) else Send(l);
    WaitingAfter(s, e, l.from);
    NextKeeps(s, e);
    RoomToSend(s, l.from);
    assert Tokens(s, l.from) <= 0;
    assert !Next(s, e).tasks[l.from].reply;
    ReplyCountsReceipts(Next(s, e), es, l.from);
  }

  function Answered(tasks: seq<Pcb>, l: Letter): seq<Pcb>
    requires l.from < |tasks| && l.dst < |tasks|
  {
    var emptied := tasks[l.dst := tasks[l.dst].(rdv := None)];
    emptied[l.from := emptied[l.from].(reply := false, waiting := None)]
  }

  lemma ReceiptAndReturn(s: Ipc, l: Letter)
    requires l.from < |s.tasks| && l.dst < |s.tasks| && s.tasks[l.dst].rdv == Some(l)
    requires Waits(s, l.from) && !Waits(s, l.dst)
    ensures Enabled(s, Receive(l.dst)) && Enabled(Next(s, Receive(l.dst)), AcceptReply(l.from))
    ensures Next(Next(s, Receive(l.dst)), AcceptReply(l.from)) == s.(tasks := Answered(s.tasks, l))
  {
  }

  lemma SendAndDelivery(s: Ipc, l: Letter)
    requires s.pm == [] && Enabled(s, Send(l)) && l.from != l.dst && !Waits(s, l.dst)
    requires s.tasks[l.dst].rdv == None && !s.tasks[l.from].reply
    ensures Enabled(Next(s, Send(l)), DeliverPm)
    ensures var s2 := Next(Next(s, Send(l)), DeliverPm);
      && |s2.tasks| == |s.tasks| && s2.tasks[l.dst].rdv == Some(l) && Waits(s2, l.from) && !Waits(s2, l.dst)
      && s2.(tasks := Answered(s2.tasks, l)) == s
  {
    var s1 := Next(s, Send(l));
    assert s1.pm == [l];
    var s2 := Next(s1, DeliverPm);
    assert Answered(s2.tasks, l) == s.tasks;
  }

  lemma OneMore(s: Ipc, e: Event, es: seq<Event>, all: seq<Event>)
    requires Inv(s) && Enabled(s, e) && Accepted(Next(s, e), es) && all == [e] + es
    ensures Accepted(s, all) && Run(s, all) == Run(Next(s, e), es)
    ensures Received(s, all) == (if e.Receive? then [s.tasks[e.t].rdv.value] else []) + Received(Next(s, e), es)
  {
    assert all[1..] == es;
  }

  lemma DeliveredIsAnswered(s: Ipc, l: Letter)
    requires Inv(s) && l.from < |s.tasks| && l.dst < |s.tasks| && s.tasks[l.dst].rdv == Some(l)
    requires Waits(s, l.from) && !Waits(s, l.dst)
    ensures var es := [Receive(l.dst), AcceptReply(l.from)];
      Accepted(s, es) && Received(s, es) == [l] && Run(s, es) == s.(tasks := Answered(s.tasks, l))
  {
    ReceiptAndReturn(s, l);
    var s1 := Next(s, Receive(l.dst));
    NextKeeps(s, Receive(l.dst));
    NextKeeps(s1, AcceptReply(l.from));
    OneMore(s1, AcceptReply(l.from), [], [AcceptReply(l.from)]);
    OneMore(s, Receive(l.dst), [AcceptReply(l.from)], [Receive(l.dst), AcceptReply(l.from)]);
  }

  lemma FreeTaskHasNoReply(s: Ipc, t: nat)
    requires Inv(s) && t < |s.tasks| && !Waits(s, t)
    ensures !s.tasks[t].reply
  {
    assert Tokens(s, t) <= 0;
  }

  lemma LetterIsAnswered(s: Ipc, l: Letter)
    requires Inv(s) && Enabled(s, DeliverPm) && l.from < |s.tasks| && l.dst < |s.tasks|
    requires var s' := Next(s, DeliverPm);
      |s'.tasks| == |s.tasks| && s'.tasks[l.dst].rdv == Some(l) && Waits(s', l.from) && !Waits(s', l.dst)
    ensures var es := [DeliverPm, Receive(l.dst), AcceptReply(l.from)]; var s' := Next(s, DeliverPm);
      Accepted(s, es) && Received(s, es) == [l] && Run(s, es) == s'.(tasks := Answered(s'.tasks, l))
  {
    NextKeeps(s, DeliverPm);
    DeliveredIsAnswered(Next(s, DeliverPm), l);
    OneMore(s, DeliverPm, [Receive(l.dst), AcceptReply(l.from)], [DeliverPm, Receive(l.dst), AcceptReply(l.from)]);
  }

  /** A letter to a task that is free to receive comes through: the run of one send, one
      delivery, one receipt and one return is possible, hands out exactly this letter, and
      ends where it began. */
  lemma LetterComesThrough(s: Ipc, l: Letter)
    requires Inv(s) && s.pm == [] && Enabled(s, Send(l)) && l.from != l.dst
    requires !Waits(s, l.dst) && s.tasks[l.dst].rdv == None
    ensures var es := [Send(l), DeliverPm, Receive(l.dst), AcceptReply(l.from)];
      Accepted(s, es) && Received(s, es) == [l] && Run(s, es) == s
  {
    FreeTaskHasNoReply(s, l.from);
    SendAndDelivery(s, l);
    NextKeeps(s, Send(l));
    LetterIsAnswered(Next(s, Send(l)), l);
    OneMore(s, Send(l), [DeliverPm, Receive(l.dst), AcceptReply(l.from)],
            [Send(l), DeliverPm, Receive(l.dst), AcceptReply(l.from)]);
  }

  // ---- Loss -------------------------------------------------------------------------

  /** Some delivery of the run finds a rendezvous slot occupied. */
  ghost predicate Overwrites(s: Ipc, es: seq<Event>)
    requires Accepted(s, es)
    decreases |es|
  {
    es != [] && (Displaced(s, es[0]).Some? || Overwrites(Next(s, es[0]), es[1..]))
  }

  /** A stranded task stays in `accept_reply` for ever. */
  lemma {:induction false} StrandedForever(s: Ipc, es: seq<Event>, t: nat)
    requires Accepted(s, es) && Stranded(s, t)
    ensures Stranded(Run(s, es), t) && AcceptReply(t) !in es
    decreases |es|
  {
    if es != [] {
      StrandedExactly(s, es[0], t);
      WaitingAfter(s, es[0], t);
      StrandedForever(Next(s, es[0]), es[1..], t);
    }
  }

  /** A run strands a task if and only if it delivers into an occupied rendezvous slot. */
  lemma {:induction false} StrandsIffOverwrites(s: Ipc, es: seq<Event>)
    requires Accepted(s, es) && forall t :: 0 <= t < |s.tasks| ==> !Stranded(s, t)
    ensures |Run(s, es).tasks| == |s.tasks|
    ensures (exists t :: 0 <= t < |s.tasks| && Stranded(Run(s, es), t)) <==> Overwrites(s, es)
    decreases |es|
  {
    if es != [] {
      var s1 := Next(s, es[0]);
      WaitingAfterAll(s, es[0]);
      forall t: nat | t < |s.tasks|
        ensures Stranded(s1, t) <==> (Displaced(s, es[0]).Some? && Displaced(s, es[0]).value.from == t)
      {
        StrandedExactly(s, es[0], t);
      }
      if Displaced(s, es[0]).Some? {
        assert Awaited(s, Displaced(s, es[0]).value);
        var t := Displaced(s, es[0]).value.from;
        assert Stranded(s1, t);
        StrandedForever(s1, es[1..], t);
        TasksStay(s1, es[1..]);
      } else {
        StrandsIffOverwrites(s1, es[1..]);
      }
    }
  }

  lemma {:induction false} TasksStay(s: Ipc, es: seq<Event>)
    requires Accepted(s, es)
    ensures |Run(s, es).tasks| == |s.tasks|
    decreases |es|
  {
    if es != [] {
      WaitingAfterAll(s, es[0]);
      TasksStay(Next(s, es[0]), es[1..]);
    }
  }

  /** Two tasks that send to a third before it receives: the first of them never returns. */
  lemma TwoSendersLoseOne(s: Ipc, a: Letter, b: Letter)
    requires Inv(s) && s.pm == [] && a.from != b.from && a.dst == b.dst
    requires Enabled(s, Send(a)) && Enabled(s, Send(b))
    ensures Accepted(s, [Send(a), Send(b), DeliverPm, DeliverPm])
    ensures Stranded(Run(s, [Send(a), Send(b), DeliverPm, DeliverPm]), a.from)
  {
    var s1 := Next(s, Send(a));
    NextKeeps(s, Send(a));
    RoomToSend(s, a.from);
    RoomToSend(s1, b.from);
    var s2 := Next(s1, Send(b));
    NextKeeps(s1, Send(b));
    TwoDeliveriesLoseOne(s2, a, b);
    RunInv(s1, Send(b), [DeliverPm, DeliverPm]);
    RunInv(s, Send(a), [Send(b), DeliverPm, DeliverPm]);
    assert [Send(b)] + [DeliverPm, DeliverPm] == [Send(b), DeliverPm, DeliverPm];
    assert [Send(a)] + [Send(b), DeliverPm, DeliverPm] == [Send(a), Send(b), DeliverPm, DeliverPm];
  }

  lemma TwoDeliveriesLoseOne(s: Ipc, a: Letter, b: Letter)
    requires Inv(s) && s.pm == [a, b] && a.dst == b.dst < |s.tasks|
    ensures Accepted(s, [DeliverPm, DeliverPm])
    ensures Stranded(Run(s, [DeliverPm, DeliverPm]), a.from)
  {
    assert Awaited(s, s.pm[0]);
    var s1 := Next(s, DeliverPm);
    NextKeeps(s, DeliverPm);
    assert s1.pm == [b];
    NextKeeps(s1, DeliverPm);
    StrandedExactly(s1, DeliverPm, a.from);
    RunInv(s1, DeliverPm, []);
    RunInv(s, DeliverPm, [DeliverPm]);
    assert [DeliverPm] + [] == [DeliverPm] && [DeliverPm] + [DeliverPm] == [DeliverPm, DeliverPm];
  }

  // ---- Deadlock ---------------------------------------------------------------------

  /** Every task of `w` waits for a reply from a task of `w`, and none has one. */
  ghost predicate Deadlocked(s: Ipc, w: set<nat>) {
    forall t :: t in w ==>
      t < |s.tasks| && Waits(s, t) && !s.tasks[t].reply && s.tasks[t].waiting.value.dst in w
  }

  lemma DeadlockStep(s: Ipc, e: Event, w: set<nat>)
    requires Inv(s) && Enabled(s, e) && Deadlocked(s, w)
    ensures Inv(Next(s, e)) && Deadlocked(Next(s, e), w)
    ensures forall t :: t in w ==> e != AcceptReply(t)
  {
    NextKeeps(s, e);
    WaitingAfterAll(s, e);
    forall t | t in w
      ensures t < |Next(s, e).tasks| && Waits(Next(s, e), t) && !Next(s, e).tasks[t].reply
      ensures Next(s, e).tasks[t].waiting == s.tasks[t].waiting
    {
      ReplyStep(s, e, t);
    }
  }

  /** Tasks that send to each other never return: a receiver that waits does not receive. */
  lemma {:induction false} DeadlockIsForever(s: Ipc, es: seq<Event>, w: set<nat>)
    requires Accepted(s, es) && Deadlocked(s, w)
    ensures Deadlocked(Run(s, es), w) && forall t :: t in w ==> AcceptReply(t) !in es
    decreases |es|
  {
    if es != [] {
      DeadlockStep(s, es[0], w);
      DeadlockIsForever(Next(s, es[0]), es[1..], w);
    }
  }
}
