/** The message passing as its source has it: two arrays of mail with their push and pop
    indices, and a slot and a flag in every task structure, all updated in place. */
module MessageSystem {
  import opened Common
  import opened IpcModel
  import opened IpcRuns
  import opened MailRing

  /** The fields of `struct pcb_struct` that message passing uses. */
  class PcbStruct {
    var rdv: Mail
    var reply: int

    constructor ()
      ensures rdv.letterType == 0 && reply == 0
    {
      rdv, reply := Mail(0, 0, 0, 0), 0;
    }
  }

  function RdvView(m: Mail): Option<Letter> {
    if m.letterType == 0 then None else Some(ToLetter(m))
  }

  /** Every letter in the rings is for a task that exists. */
  ghost predicate Deliverable(s: Ipc) {
    && (forall i :: 0 <= i < |s.pm| ==> s.pm[i].dst < |s.tasks|)
    && (forall i :: 0 <= i < |s.user| ==> s.user[i].dst < |s.tasks|)
  }

  /** One pass of step 8's daemon: both rings are emptied, `pm_mail` first. */
  ghost function Pass(s: Ipc): (s': Ipc)
    requires Deliverable(s)
    ensures s'.pm == [] && s'.user == []
    decreases |s.pm| + |s.user|
  {
    if s.pm != [] then Pass(Next(s, DeliverPm))
    else if s.user != [] then Pass(Next(s, DeliverUser))
    else s
  }

  lemma PassStep(s: Ipc, e: Event)
    requires Deliverable(s) && (s.pm != [] || s.user != [])
    requires e == if s.pm != [] then DeliverPm else DeliverUser
    ensures Enabled(s, e) && Deliverable(Next(s, e)) && Pass(s) == Pass(Next(s, e))
  {
  }

  /** A pass is a run of deliveries, so what holds of all runs holds of passes. */
  lemma {:induction false} PassIsRun(s: Ipc) returns (es: seq<Event>)
    requires Inv(s)
    ensures Deliverable(s) && Accepted(s, es) && Run(s, es) == Pass(s)
    ensures forall e :: e in es ==> e.DeliverPm? || e.DeliverUser?
    decreases |s.pm| + |s.user|
  {
    AwaitedIsDeliverable(s);
    if s.pm == [] && s.user == [] {
      es := [];
    } else {
      var e := if s.pm != [] then DeliverPm else DeliverUser;
      NextKeeps(s, e);
      var rest := PassIsRun(Next(s, e));
      RunInv(s, e, rest);
      es := [e] + rest;
    }
  }

  lemma AwaitedIsDeliverable(s: Ipc)
    requires Inv(s)
    ensures Deliverable(s)
  {
  }

  /** One ring: `pm_mail` with `index_push` and `index_pop`, or `user_ipc_mail` with
      `ipc_index_push` and `ipc_index_pop`. */
  class MailBuffer {
    const mail: array<Mail>
    var indexPush: nat
    var indexPop: nat
    ghost var queue: seq<Letter>

    constructor ()
      ensures Valid() && queue == [] && fresh(mail)
    {
      mail := new Mail[MAIL_SIZE](i => Mail(0, 0, 0, 0));
      indexPush, indexPop, queue := 0, 0, [];
    }

    ghost predicate Valid()
      reads this, mail
    {
      mail.Length == MAIL_SIZE && Holds(Ring(mail[..], indexPush, indexPop), queue)
    }

    /** The test of `send_msg`. */
    predicate Full()
      requires Valid()
      reads this, mail
      ensures Full() <==> |queue| == MAIL_SIZE
    {
      FullExactly(Ring(mail[..], indexPush, indexPop), queue);
      mail[indexPush].letterType != 0
    }

    /** The test of the daemon's loops. */
    predicate NonEmpty()
      requires Valid()
      reads this, mail
      ensures NonEmpty() <==> queue != []
    {
      FirstAtPop(Ring(mail[..], indexPush, indexPop), queue);
      mail[indexPop].letterType != 0
    }

    method Push(m: Mail)
      requires Valid() && |queue| < MAIL_SIZE && m.letterType == RENDEZVOUS
      modifies this, mail
      ensures Valid() && queue == old(queue) + [ToLetter(m)]
    {
      ghost var r := Ring(mail[..], indexPush, indexPop);
      PutAppends(r, queue, ToLetter(m));
      mail[indexPush] := m;
      indexPush := indexPush + 1;
      if indexPush == MAIL_SIZE {
        indexPush := 0;
      }
      assert Ring(mail[..], indexPush, indexPop) == Put(r, m);
      queue := queue + [ToLetter(m)];
    }

    method Pop() returns (m: Mail)
      requires Valid() && queue != []
      modifies this, mail
      ensures Valid() && old(queue) == [ToLetter(m)] + queue && m.letterType == RENDEZVOUS
    {
      ghost var r := Ring(mail[..], indexPush, indexPop);
      FirstAtPop(r, queue);
      TakeRemovesFirst(r, queue);
      m := mail[indexPop];
      mail[indexPop] := mail[indexPop].(letterType := 0);
      indexPop := indexPop + 1;
      if indexPop == MAIL_SIZE {
        indexPop := 0;
      }
      assert Ring(mail[..], indexPush, indexPop) == Take(r);
      queue := queue[1..];
    }
  }

  /** `task` is the task table and `waiting` records what each task waits for. */
  class MessageSystem {
    const pmMail: MailBuffer
    const userMail: MailBuffer
    const task: array<PcbStruct>
    ghost var waiting: seq<Option<Letter>>

    constructor (task: array<PcbStruct>)
      requires task.Length <= NR_TASKS
      requires forall i, j :: 0 <= i < j < task.Length ==> task[i] != task[j]
      requires forall i :: 0 <= i < task.Length ==> task[i].rdv.letterType == 0 && task[i].reply == 0
      ensures Valid() && this.task == task && Abs() == Start(task.Length)
      ensures fresh({pmMail, userMail, pmMail.mail, userMail.mail})
    {
      this.task := task;
      pmMail := new MailBuffer();
      userMail := new MailBuffer();
      waiting := seq(task.Length, i => None);
    }

    ghost function Mails(): set<object> {
      {pmMail, userMail, pmMail.mail, userMail.mail}
    }

    ghost predicate Valid()
      reads this, Mails(), task
    {
      && pmMail != userMail && pmMail.mail != userMail.mail && pmMail.Valid() && userMail.Valid()
      && |waiting| == task.Length
      && forall i, j :: 0 <= i < j < task.Length ==> task[i] != task[j]
    }

    ghost function Pcbs(): set<PcbStruct>
      reads task
    {
      set i | 0 <= i < task.Length :: task[i]
    }

    ghost function PcbAt(i: nat): Pcb
      requires i < task.Length
      reads this, task, task[i]
    {
      Pcb(RdvView(task[i].rdv), task[i].reply != 0, if i < |waiting| then waiting[i] else None)
    }

    ghost function Tasks(): (s: seq<Pcb>)
      reads this, task, Pcbs()
      ensures |s| == task.Length && forall i: nat :: i < |s| ==> s[i] == PcbAt(i)
    {
      seq(task.Length, i requires 0 <= i < task.Length reads this, task, Pcbs() => PcbAt(i))
    }

    ghost function Abs(): Ipc
      reads this, Mails(), task, Pcbs()
    {
      Ipc(pmMail.queue, userMail.queue, Tasks())
    }

    /** The task goes to wait in `accept_reply` for its letter. */
    ghost method StartWaiting(l: Letter)
      requires Valid() && l.from < task.Length
      modifies this`waiting
      ensures Valid() && Tasks() == Wait(old(Abs()), l)
    {
      waiting := waiting[l.from := Some(l)];
    }

    /** `send_msg` up to the wait in `accept_reply`; with a full ring it gives up at once. */
    method SendMsg(from: nat, pid: nat, msg: int)
      requires Valid() && Enabled(Abs(), Send(Letter(from, pid, msg)))
      modifies this, pmMail, pmMail.mail
      ensures Valid() && Abs() == Next(old(Abs()), Send(Letter(from, pid, msg)))
    {
      if pmMail.Full() {
        return;
      }
      pmMail.Push(Mail(RENDEZVOUS, pid, from, msg));
      StartWaiting(Letter(from, pid, msg));
    }

    /** `sys_send_msg` up to the wait in `accept_reply`: the slot is not tested, and need not be. */
    method SysSendMsg(from: nat, pid: nat, msg: int)
      requires Valid() && Inv(Abs()) && Enabled(Abs(), SysSend(Letter(from, pid, msg)))
      modifies this, userMail, userMail.mail
      ensures Valid() && Abs() == Next(old(Abs()), SysSend(Letter(from, pid, msg)))
    {
      RoomToSend(Abs(), from);
      assert |userMail.queue| < MAIL_SIZE;
      userMail.Push(Mail(RENDEZVOUS, pid, from, msg));
      StartWaiting(Letter(from, pid, msg));
    }

    /** The case Rendezvous of the daemon's switch over `pm_mail`. */
    method DeliverFromPm()
      requires Valid() && Enabled(Abs(), Event.DeliverPm)
      modifies pmMail, pmMail.mail, Pcbs()
      ensures Valid() && Abs() == Next(old(Abs()), Event.DeliverPm)
    {
      var m := pmMail.Pop();
      task[m.dst].rdv := m;
      assert Tasks() == PutRdv(old(Tasks()), ToLetter(m));
    }

    /** The same for `user_ipc_mail` in step 8. */
    method DeliverFromUser()
      requires Valid() && Enabled(Abs(), Event.DeliverUser)
      modifies userMail, userMail.mail, Pcbs()
      ensures Valid() && Abs() == Next(old(Abs()), Event.DeliverUser)
    {
      var m := userMail.Pop();
      task[m.dst].rdv := m;
      assert Tasks() == PutRdv(old(Tasks()), ToLetter(m));
    }

    /** The daemon's first inner loop in step 8. */
    method DrainPm()
      requires Valid() && Deliverable(Abs())
      modifies pmMail, pmMail.mail, Pcbs()
      ensures Valid() && Deliverable(Abs()) && Pass(Abs()) == Pass(old(Abs())) && pmMail.queue == []
    {
      ghost var s := Abs();
      while pmMail.NonEmpty()
        invariant Valid() && Abs() == s && Deliverable(s) && Pass(s) == Pass(old(Abs()))
        decreases |pmMail.queue|
      {
        PassStep(s, Event.DeliverPm);
        s := Next(s, Event.DeliverPm);
        DeliverFromPm();
      }
    }

    /** The daemon's second inner loop in step 8. */
    method DrainUser()
      requires Valid() && Deliverable(Abs()) && pmMail.queue == []
      modifies userMail, userMail.mail, Pcbs()
      ensures Valid() && Abs() == Pass(old(Abs()))
    {
      ghost var s := Abs();
      while userMail.NonEmpty()
        invariant Valid() && Abs() == s && Deliverable(s) && Pass(s) == Pass(old(Abs()))
        decreases |userMail.queue|
      {
        PassStep(s, Event.DeliverUser);
        s := Next(s, Event.DeliverUser);
        DeliverFromUser();
      }
    }

    /** One turn of `pm_daemon` in step 8, from one call of `schedule` to the next. */
    method DaemonPass()
      requires Valid() && Deliverable(Abs())
      modifies Mails(), Pcbs()
      ensures Valid() && Abs() == Pass(old(Abs()))
    {
      DrainPm();
      DrainUser();
    }

    /** `user_send_msg` of step 7: pushes into `pm_mail` on behalf of the sender, or drops. */
    method UserSendMsg(m: Mail)
      requires Valid() && m.letterType == RENDEZVOUS
      modifies pmMail, pmMail.mail
      ensures Valid()
      ensures pmMail.queue ==
              if |old(pmMail.queue)| >= MAIL_SIZE then old(pmMail.queue) else old(pmMail.queue) + [ToLetter(m)]
    {
      if pmMail.Full() {
        return;
      }
      pmMail.Push(m);
    }

    /** Step 7's handling of a letter in `user_ipc_mail`. */
    method ForwardFromUser()
      requires Valid() && Enabled(Abs(), Event.Forward)
      modifies Mails()
      ensures Valid() && Abs() == Next(old(Abs()), Event.Forward)
    {
      var m := userMail.Pop();
      UserSendMsg(m);
    }

    /** `reply` */
    method Reply(fromPcb: PcbStruct)
      modifies fromPcb`reply
      ensures fromPcb.reply == 1
    {
      fromPcb.reply := 1;
    }

    /** `recieve_msg` once its slot is occupied; `t` is the current task. */
    method ReceiveMsg(t: nat) returns (letter: Mail)
      requires Valid() && Enabled(Abs(), Event.Receive(t))
      modifies Pcbs()
      ensures Valid() && Abs() == Next(old(Abs()), Event.Receive(t))
      ensures Some(ToLetter(letter)) == old(Abs()).tasks[t].rdv
      ensures letter == old(task[t].rdv) && letter.letterType != 0
    {
      assert Tasks()[t] == PcbAt(t);
      letter := task[t].rdv;
      task[t].rdv := task[t].rdv.(letterType := 0);
      Reply(task[task[t].rdv.from]);
      assert Tasks() == TakeRdv(old(Tasks()), t);
    }

    /** The end of `accept_reply`, once the flag of the current task `t` is up. */
    method AcceptReply(t: nat)
      requires Valid() && Enabled(Abs(), Event.AcceptReply(t))
      modifies this`waiting, Pcbs()
      ensures Valid() && Abs() == Next(old(Abs()), Event.AcceptReply(t))
    {
      task[t].reply := 0;
      waiting := waiting[t := None];
    }
  }
}
