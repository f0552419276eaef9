/** Rendezvous message passing on values: letters in two queues, one rendezvous slot and one
    reply flag per task. Every event is the code a task runs between two calls of `schedule`. */
module IpcModel {
  import opened Common
  import opened Finite

  const MAIL_SIZE: nat := 64

  /** A letter of type Rendezvous; `from` is the sender's place in the task table. */
  datatype Letter = Letter(from: nat, dst: nat, msg: int)

  /** `waiting` is the letter whose reply the task awaits in `accept_reply`. */
  datatype Pcb = Pcb(rdv: Option<Letter>, reply: bool, waiting: Option<Letter>)

  datatype Ipc = Ipc(pm: seq<Letter>, user: seq<Letter>, tasks: seq<Pcb>)

  /** `Forward` is step 7's handling of the user ring, `DeliverUser` step 8's. */
  datatype Event =
    | Send(l: Letter)
    | SysSend(l: Letter)
    | DeliverPm
    | DeliverUser
    | Forward
    | Receive(t: nat)
    | AcceptReply(t: nat)

  predicate Waits(s: Ipc, t: nat)
    requires t < |s.tasks|
  {
    s.tasks[t].waiting.Some?
  }

  /** A task acts only when it does not wait for a reply, except to take the reply. */
  ghost predicate Enabled(s: Ipc, e: Event) {
    match e
    case Send(l) => l.from < |s.tasks| && l.dst < |s.tasks| && !Waits(s, l.from)
    case SysSend(l) => l.from < |s.tasks| && l.dst < |s.tasks| && !Waits(s, l.from)
    case DeliverPm => s.pm != [] && s.pm[0].dst < |s.tasks|
    case DeliverUser => s.user != [] && s.user[0].dst < |s.tasks|
    case Forward => s.user != []
    case Receive(t) =>
      && t < |s.tasks| && !Waits(s, t)
      && s.tasks[t].rdv.Some? && s.tasks[t].rdv.value.from < |s.tasks|
    case AcceptReply(t) => t < |s.tasks| && Waits(s, t) && s.tasks[t].reply
  }

  function Wait(s: Ipc, l: Letter): seq<Pcb>
    requires l.from < |s.tasks|
  {
    s.tasks[l.from := s.tasks[l.from].(waiting := Some(l))]
  }

  function PutRdv(tasks: seq<Pcb>, l: Letter): seq<Pcb>
    requires l.dst < |tasks|
  {
    tasks[l.dst := tasks[l.dst].(rdv := Some(l))]
  }

  /** `recieve_msg` empties the slot and raises the sender's flag. */
  function TakeRdv(tasks: seq<Pcb>, t: nat): seq<Pcb>
    requires t < |tasks| && tasks[t].rdv.Some? && tasks[t].rdv.value.from < |tasks|
  {
    var from := tasks[t].rdv.value.from;
    var emptied := tasks[t := tasks[t].(rdv := None)];
    emptied[from := emptied[from].(reply := true)]
  }

  function Next(s: Ipc, e: Event): Ipc
    requires Enabled(s, e)
  {
    match e
    case Send(l) => if |s.pm| >= MAIL_SIZE then s else Ipc(s.pm + [l], s.user, Wait(s, l))
    case SysSend(l) => Ipc(s.pm, s.user + [l], Wait(s, l))
    case DeliverPm => Ipc(s.pm[1..], s.user, PutRdv(s.tasks, s.pm[0]))
    case DeliverUser => Ipc(s.pm, s.user[1..], PutRdv(s.tasks, s.user[0]))
    case Forward => Ipc(if |s.pm| >= MAIL_SIZE then s.pm else s.pm + [s.user[0]], s.user[1..], s.tasks)
    case Receive(t) => s.(tasks := TakeRdv(s.tasks, t))
    case AcceptReply(t) => s.(tasks := s.tasks[t := s.tasks[t].(reply := false, waiting := None)])
  }

  // ---- Counting the letters of a task ------------------------------------------------

  function One(b: bool): nat {
    if b then 1 else 0
  }

  function Count(q: seq<Letter>, t: nat): nat {
    if q == [] then 0 else One(q[0].from == t) + Count(q[1..], t)
  }

  predicate RdvFrom(p: Pcb, t: nat) {
    p.rdv.Some? && p.rdv.value.from == t
  }

  function RdvCount(tasks: seq<Pcb>, t: nat): nat {
    if tasks == [] then 0 else One(RdvFrom(tasks[0], t)) + RdvCount(tasks[1..], t)
  }

  lemma {:induction false} CountAppend(q: seq<Letter>, l: Letter, t: nat)
    ensures Count(q + [l], t) == Count(q, t) + One(l.from == t)
    decreases |q|
  {
    if q == [] {
    } else {
      assert (q + [l])[1..] == q[1..] + [l];
      CountAppend(q[1..], l, t);
    }
  }

  lemma {:induction false} RdvCountUpdate(tasks: seq<Pcb>, d: nat, p: Pcb, t: nat)
    requires d < |tasks|
    ensures RdvCount(tasks[d := p], t) + One(RdvFrom(tasks[d], t)) == RdvCount(tasks, t) + One(RdvFrom(p, t))
    decreases |tasks|
  {
    if d == 0 {
      assert tasks[d := p][1..] == tasks[1..];
    } else {
      assert tasks[d := p][1..] == tasks[1..][d - 1 := p];
      RdvCountUpdate(tasks[1..], d - 1, p, t);
    }
  }

  lemma {:induction false} CountAt(q: seq<Letter>, i: nat, t: nat)
    requires i < |q| && q[i].from == t
    ensures Count(q, t) >= 1
    ensures forall j :: 0 <= j < |q| && j != i && q[j].from == t ==> Count(q, t) >= 2
    decreases |q|
  {
    if i == 0 {
      forall j | 1 <= j < |q| && q[j].from == t
        ensures Count(q, t) >= 2
      {
        CountAt(q[1..], j - 1, t);
      }
    } else {
      CountAt(q[1..], i - 1, t);
      forall j | 0 <= j < |q| && j != i && q[j].from == t
        ensures Count(q, t) >= 2
      {
        if j > 0 {
          assert q[1..][j - 1].from == t;
        }
      }
    }
  }

  lemma {:induction false} CountFinds(q: seq<Letter>, t: nat) returns (i: nat)
    requires Count(q, t) >= 1
    ensures i < |q| && q[i].from == t
    decreases |q|
  {
    if q[0].from == t {
      i := 0;
    } else {
      i := CountFinds(q[1..], t);
      i := i + 1;
    }
  }

  lemma {:induction false} RdvCountAt(tasks: seq<Pcb>, d: nat, t: nat)
    requires d < |tasks| && RdvFrom(tasks[d], t)
    ensures RdvCount(tasks, t) >= 1
    decreases |tasks|
  {
    if d > 0 {
      RdvCountAt(tasks[1..], d - 1, t);
    }
  }

  lemma {:induction false} RdvCountFinds(tasks: seq<Pcb>, t: nat) returns (d: nat)
    requires RdvCount(tasks, t) >= 1
    ensures d < |tasks| && RdvFrom(tasks[d], t)
    decreases |tasks|
  {
    if RdvFrom(tasks[0], t) {
      d := 0;
    } else {
      d := RdvCountFinds(tasks[1..], t);
      d := d + 1;
    }
  }

  // ---- The invariant ----------------------------------------------------------------

  /** How many letters and replies of task `t` there are. */
  function Tokens(s: Ipc, t: nat): nat
    requires t < |s.tasks|
  {
    Count(s.pm, t) + Count(s.user, t) + RdvCount(s.tasks, t) + One(s.tasks[t].reply)
  }

  /** The letter is the one its sender is waiting for. */
  predicate Awaited(s: Ipc, l: Letter) {
    l.from < |s.tasks| && l.dst < |s.tasks| && s.tasks[l.from].waiting == Some(l)
  }

  ghost predicate QueueAwaited(s: Ipc, q: seq<Letter>) {
    forall i :: 0 <= i < |q| ==> Awaited(s, q[i])
  }

  ghost predicate RdvAwaited(s: Ipc) {
    forall d :: 0 <= d < |s.tasks| && s.tasks[d].rdv.Some? ==>
      Awaited(s, s.tasks[d].rdv.value) && s.tasks[d].rdv.value.dst == d
  }

  ghost predicate Conserved(s: Ipc) {
    forall t: nat :: t < |s.tasks| ==> Tokens(s, t) <= One(Waits(s, t))
  }

  /** A waiting task sent what it waits for, to a task that exists. */
  ghost predicate WaitsForOwn(s: Ipc) {
    forall t :: 0 <= t < |s.tasks| && Waits(s, t) ==>
      Awaited(s, s.tasks[t].waiting.value) && s.tasks[t].waiting.value.from == t
  }

  ghost predicate Inv(s: Ipc) {
    && |s.tasks| <= NR_TASKS
    && QueueAwaited(s, s.pm) && QueueAwaited(s, s.user) && RdvAwaited(s) && WaitsForOwn(s)
    && Conserved(s)
  }

  /** A waiting task with neither a letter anywhere nor a reply. */
  ghost predicate Stranded(s: Ipc, t: nat) {
    t < |s.tasks| && Waits(s, t) && Tokens(s, t) == 0
  }

  /** The letter thrown out of a rendezvous slot by a delivery, if any. */
  function Displaced(s: Ipc, e: Event): Option<Letter>
    requires Enabled(s, e)
  {
    if e.DeliverPm? then s.tasks[s.pm[0].dst].rdv
    else if e.DeliverUser? then s.tasks[s.user[0].dst].rdv
    else None
  }

  // ---- Pigeonhole -------------------------------------------------------------------

  ghost function Senders(q: seq<Letter>): set<nat> {
    set i | 0 <= i < |q| :: q[i].from
  }

  lemma {:induction false} SendersSize(q: seq<Letter>)
    requires forall t: nat :: Count(q, t) <= 1
    ensures |Senders(q)| == |q|
    decreases |q|
  {
    if q == [] {
    } else {
      forall t: nat
        ensures Count(q[1..], t) <= 1
      {
        assert Count(q, t) <= 1;
      }
      SendersSize(q[1..]);
      assert Count(q, q[0].from) <= 1;
      if q[0].from in Senders(q[1..]) {
        var i :| 0 <= i < |q[1..]| && q[1..][i].from == q[0].from;
        CountAt(q[1..], i, q[0].from);
        assert false;
      }
      assert Senders(q) == {q[0].from} + Senders(q[1..]) by {
        assert forall i :: 1 <= i < |q| ==> q[i] == q[1..][i - 1];
        assert forall i :: 0 <= i < |q[1..]| ==> q[1..][i] == q[i + 1];
      }
    }
  }

  lemma {:induction false} CountConcat(p: seq<Letter>, q: seq<Letter>, t: nat)
    ensures Count(p + q, t) == Count(p, t) + Count(q, t)
    decreases |q|
  {
    if q == [] {
      assert p + q == p;
    } else {
      assert p + q == (p + [q[0]]) + q[1..];
      CountConcat(p + [q[0]], q[1..], t);
      CountAppend(p, q[0], t);
    }
  }

  ghost function WaitingTasks(s: Ipc): set<nat> {
    set t: nat | t < |s.tasks| && Waits(s, t)
  }

  /** There are never more letters in the two rings together than there are tasks waiting. */
  lemma LettersNeedWaitingTasks(s: Ipc)
    requires Inv(s)
    ensures |s.pm| + |s.user| <= |WaitingTasks(s)|
  {
    var q := s.pm + s.user;
    forall t: nat
      ensures Count(q, t) <= 1
    {
      CountConcat(s.pm, s.user, t);
      if t < |s.tasks| {
        assert Tokens(s, t) <= 1;
      } else if Count(q, t) >= 1 {
        var i := CountFinds(q, t);
        assert false;
      }
    }
    SendersSize(q);
    var waiting := WaitingTasks(s);
    forall t | t in Senders(q)
      ensures t in waiting
    {
      var i :| 0 <= i < |q| && q[i].from == t;
      assert Awaited(s, q[i]);
    }
    SubsetSize(Senders(q), waiting);
  }

  /** Neither ring can be full when a task that does not wait sends: the unchecked push of
      `sys_send_msg` hits an empty slot, and `send_msg` never reports a full mailbox. */
  lemma RoomToSend(s: Ipc, t: nat)
    requires Inv(s) && t < |s.tasks| && !Waits(s, t)
    ensures |s.pm| + |s.user| < MAIL_SIZE
  {
    LettersNeedWaitingTasks(s);
    var waiting := WaitingTasks(s);
    SubsetSize(waiting, Below(|s.tasks|) - {t});
  }

  /** Step 7 never drops the letter it forwards: `pm_mail` has a free slot. */
  lemma RoomToForward(s: Ipc)
    requires Inv(s) && s.user != []
    ensures |s.pm| < MAIL_SIZE
    ensures Next(s, Forward).pm == s.pm + [s.user[0]] && Next(s, Forward).user == s.user[1..]
  {
    LettersNeedWaitingTasks(s);
    SubsetSize(WaitingTasks(s), Below(|s.tasks|));
  }

  // ---- Every event keeps the invariant ----------------------------------------------

  lemma CountTail(q: seq<Letter>, t: nat)
    requires q != []
    ensures Count(q, t) == One(q[0].from == t) + Count(q[1..], t)
  {
  }

  lemma TakeRdvCounts(tasks: seq<Pcb>, d: nat, t: nat)
    requires d < |tasks| && tasks[d].rdv.Some? && tasks[d].rdv.value.from < |tasks| && t < |tasks|
    ensures RdvCount(TakeRdv(tasks, d), t) + One(tasks[d].rdv.value.from == t) == RdvCount(tasks, t)
    ensures |TakeRdv(tasks, d)| == |tasks|
    ensures TakeRdv(tasks, d)[t].reply == (tasks[t].reply || tasks[d].rdv.value.from == t)
  {
    var from := tasks[d].rdv.value.from;
    var emptied := tasks[d := tasks[d].(rdv := None)];
    RdvCountUpdate(tasks, d, tasks[d].(rdv := None), t);
    RdvCountUpdate(emptied, from, emptied[from].(reply := true), t);
  }

  lemma TokensAfterSend(s: Ipc, e: Event, t: nat)
    requires Inv(s) && Enabled(s, e) && t < |s.tasks| && (e.Send? || e.SysSend?)
    ensures |Next(s, e).tasks| == |s.tasks|
    ensures Tokens(Next(s, e), t) == Tokens(s, t) + One(e.l.from == t)
  {
    RoomToSend(s, e.l.from);
    CountAppend(s.pm, e.l, t);
    CountAppend(s.user, e.l, t);
    RdvCountUpdate(s.tasks, e.l.from, s.tasks[e.l.from].(waiting := Some(e.l)), t);
  }

  lemma TokensAfterDelivery(s: Ipc, e: Event, t: nat)
    requires Inv(s) && Enabled(s, e) && t < |s.tasks| && (e.DeliverPm? || e.DeliverUser?)
    ensures |Next(s, e).tasks| == |s.tasks|
    ensures Tokens(Next(s, e), t) + One(Displaced(s, e).Some? && Displaced(s, e).value.from == t) == Tokens(s, t)
  {
    var l := if e.DeliverPm? then s.pm[0] else s.user[0];
    CountTail(if e.DeliverPm? then s.pm else s.user, t);
    RdvCountUpdate(s.tasks, l.dst, s.tasks[l.dst].(rdv := Some(l)), t);
  }

  /** What an event does to the letters and replies of one task. */
  lemma TokensAfter(s: Ipc, e: Event, t: nat)
    requires Inv(s) && Enabled(s, e) && t < |s.tasks|
    ensures |Next(s, e).tasks| == |s.tasks|
    ensures Tokens(Next(s, e), t) + One(e.AcceptReply? && e.t == t)
              + One(Displaced(s, e).Some? && Displaced(s, e).value.from == t)
            == Tokens(s, t) + One((e.Send? || e.SysSend?) && e.l.from == t)
  {
    match e
    case Send(_) => TokensAfterSend(s, e, t);
    case SysSend(_) => TokensAfterSend(s, e, t);
    case DeliverPm => TokensAfterDelivery(s, e, t);
    case DeliverUser => TokensAfterDelivery(s, e, t);
    case Forward =>
      RoomToForward(s);
      CountTail(s.user, t);
      CountAppend(s.pm, s.user[0], t);
    case Receive(d) =>
      TakeRdvCounts(s.tasks, d, t);
      RdvCountAt(s.tasks, d, s.tasks[d].rdv.value.from);
      assert Tokens(s, s.tasks[d].rdv.value.from) <= 1;
    case AcceptReply(d) =>
      RdvCountUpdate(s.tasks, d, s.tasks[d].(reply := false, waiting := None), t);
  }

  /** Which letter a task waits for changes only when it sends or returns. */
  lemma WaitingAfter(s: Ipc, e: Event, t: nat)
    requires Inv(s) && Enabled(s, e) && t < |s.tasks|
    ensures |Next(s, e).tasks| == |s.tasks|
    ensures Next(s, e).tasks[t].waiting ==
            if (e.Send? || e.SysSend?) && e.l.from == t then Some(e.l)
            else if e == AcceptReply(t) then None
            else s.tasks[t].waiting
  {
    if e.Send? {
      RoomToSend(s, e.l.from);
    }
  }

  /** A letter in flight is not the letter of a task that sends or returns now. */
  lemma StillAwaited(s: Ipc, e: Event, l: Letter)
    requires Inv(s) && Enabled(s, e) && Awaited(s, l)
    requires Count(s.pm, l.from) + Count(s.user, l.from) + RdvCount(s.tasks, l.from) >= 1
    ensures Awaited(Next(s, e), l)
  {
    assert Tokens(s, l.from) <= 1;
    WaitingAfter(s, e, l.from);
  }

  lemma LettersStayAwaited(s: Ipc, e: Event)
    requires Inv(s) && Enabled(s, e)
    ensures QueueAwaited(Next(s, e), s.pm) && QueueAwaited(Next(s, e), s.user)
    ensures forall d :: 0 <= d < |s.tasks| && s.tasks[d].rdv.Some? ==> Awaited(Next(s, e), s.tasks[d].rdv.value)
  {
    forall i | 0 <= i < |s.pm|
      ensures Awaited(Next(s, e), s.pm[i])
    {
      CountAt(s.pm, i, s.pm[i].from);
      StillAwaited(s, e, s.pm[i]);
    }
    forall i | 0 <= i < |s.user|
      ensures Awaited(Next(s, e), s.user[i])
    {
      CountAt(s.user, i, s.user[i].from);
      StillAwaited(s, e, s.user[i]);
    }
    forall d | 0 <= d < |s.tasks| && s.tasks[d].rdv.Some?
      ensures Awaited(Next(s, e), s.tasks[d].rdv.value)
    {
      RdvCountAt(s.tasks, d, s.tasks[d].rdv.value.from);
      StillAwaited(s, e, s.tasks[d].rdv.value);
    }
  }

  lemma ConservedKept(s: Ipc, e: Event)
    requires Inv(s) && Enabled(s, e)
    ensures Conserved(Next(s, e))
  {
    forall t: nat | t < |s.tasks|
      ensures Tokens(Next(s, e), t) <= One(Waits(Next(s, e), t))
    {
      TokensAfter(s, e, t);
      WaitingAfter(s, e, t);
      assert Tokens(s, t) <= One(Waits(s, t));
    }
    WaitingAfterAll(s, e);
  }

  lemma WaitingAfterAll(s: Ipc, e: Event)
    requires Inv(s) && Enabled(s, e)
    ensures |Next(s, e).tasks| == |s.tasks|
  {
  }

  lemma QueuesKept(s: Ipc, e: Event)
    requires Inv(s) && Enabled(s, e)
    ensures QueueAwaited(Next(s, e), Next(s, e).pm) && QueueAwaited(Next(s, e), Next(s, e).user)
  {
    var s' := Next(s, e);
    LettersStayAwaited(s, e);
    if e.Send? {
      RoomToSend(s, e.l.from);
      assert Awaited(s', e.l);
    } else if e.SysSend? {
      assert Awaited(s', e.l);
    }
  }

  /** A full slot holds what it held before, or the letter delivered to it. */
  lemma SlotAfter(s: Ipc, e: Event, d: nat)
    requires Enabled(s, e) && d < |Next(s, e).tasks| && Next(s, e).tasks[d].rdv.Some?
    ensures |Next(s, e).tasks| == |s.tasks|
    ensures var slot := Next(s, e).tasks[d].rdv;
      slot == s.tasks[d].rdv || (s.pm != [] && slot.value == s.pm[0]) || (s.user != [] && slot.value == s.user[0])
  {
  }

  lemma SlotsKept(s: Ipc, e: Event)
    requires Inv(s) && Enabled(s, e)
    ensures RdvAwaited(Next(s, e))
  {
    var s' := Next(s, e);
    LettersStayAwaited(s, e);
    forall d: nat | d < |s'.tasks| && s'.tasks[d].rdv.Some?
      ensures Awaited(s', s'.tasks[d].rdv.value)
    {
      SlotAfter(s, e, d);
    }
  }

  /** Token conservation: a waiting task owns at most one letter or reply, any other task
      none, and each letter in flight is the one its sender waits for. */
  lemma NextKeeps(s: Ipc, e: Event)
    requires Inv(s) && Enabled(s, e)
    ensures Inv(Next(s, e))
  {
    ConservedKept(s, e);
    QueuesKept(s, e);
    SlotsKept(s, e);
    WaitsForOwnKept(s, e);
  }

  lemma WaitsForOwnKept(s: Ipc, e: Event)
    requires Inv(s) && Enabled(s, e)
    ensures WaitsForOwn(Next(s, e))
  {
    var s' := Next(s, e);
    forall t: nat | t < |s.tasks| && Waits(s', t)
      ensures Awaited(s', s'.tasks[t].waiting.value) && s'.tasks[t].waiting.value.from == t
    {
      WaitingAfter(s, e, t);
    }
  }

  /** A letter is lost exactly when a delivery finds the rendezvous slot occupied, and it is
      the letter that was in the slot: that task becomes stranded and no other does. */
  lemma StrandedExactly(s: Ipc, e: Event, t: nat)
    requires Inv(s) && Enabled(s, e) && t < |s.tasks|
    ensures Stranded(Next(s, e), t) <==>
            Stranded(s, t) || (Displaced(s, e).Some? && Displaced(s, e).value.from == t)
  {
    TokensAfter(s, e, t);
    WaitingAfter(s, e, t);
    NextKeeps(s, e);
    assert Tokens(s, t) <= One(Waits(s, t));
    if Displaced(s, e).Some? {
      var l := Displaced(s, e).value;
      assert Awaited(s, l);
      RdvCountAt(s.tasks, l.dst, l.from);
    }
  }

  ghost predicate InQueue(q: seq<Letter>, t: nat) {
    exists i :: 0 <= i < |q| && q[i].from == t
  }

  ghost predicate InSlot(s: Ipc, t: nat) {
    exists d :: 0 <= d < |s.tasks| && RdvFrom(s.tasks[d], t)
  }

  /** A waiting task's letter is in exactly one of five places; any other task has none. */
  lemma ExactlyOnePlace(s: Ipc, t: nat)
    requires Inv(s) && t < |s.tasks|
    ensures One(InQueue(s.pm, t)) + One(InQueue(s.user, t)) + One(InSlot(s, t)) + One(s.tasks[t].reply)
            + One(Stranded(s, t)) == One(Waits(s, t))
  {
    assert Tokens(s, t) <= One(Waits(s, t));
    if Count(s.pm, t) >= 1 {
      var i := CountFinds(s.pm, t);
    }
    if Count(s.user, t) >= 1 {
      var i := CountFinds(s.user, t);
    }
    if RdvCount(s.tasks, t) >= 1 {
      var d := RdvCountFinds(s.tasks, t);
    }
    if InQueue(s.pm, t) {
      var i :| 0 <= i < |s.pm| && s.pm[i].from == t;
      CountAt(s.pm, i, t);
    }
    if InQueue(s.user, t) {
      var i :| 0 <= i < |s.user| && s.user[i].from == t;
      CountAt(s.user, i, t);
    }
    if InSlot(s, t) {
      var d :| 0 <= d < |s.tasks| && RdvFrom(s.tasks[d], t);
      RdvCountAt(s.tasks, d, t);
    }
  }
}
