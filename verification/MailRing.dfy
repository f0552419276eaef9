/** The 64-slot mail ring: occupancy is known only from `letter_type`, and yet the ring is a
    first-in first-out queue of capacity 64. */
module MailRing {
  import opened IpcModel

  const RENDEZVOUS: int := 1

  /** `struct mailbox`; `from` is the sender's place in the task table. */
  datatype Mail = Mail(letterType: int, dst: nat, from: nat, msg: int)

  datatype Ring = Ring(slots: seq<Mail>, push: nat, pop: nat)

  function ToMail(l: Letter): Mail {
    Mail(RENDEZVOUS, l.dst, l.from, l.msg)
  }

  function ToLetter(m: Mail): Letter {
    Letter(m.from, m.dst, m.msg)
  }

  /** The slot `k` places after slot `p`. */
  function Pos(p: nat, k: nat): (i: nat)
    requires p < MAIL_SIZE && k <= MAIL_SIZE
    ensures i < MAIL_SIZE && i == (p + k) % MAIL_SIZE
  {
    if p + k < MAIL_SIZE then p + k else p + k - MAIL_SIZE
  }

  ghost predicate WellFormed(r: Ring) {
    |r.slots| == MAIL_SIZE && r.push < MAIL_SIZE && r.pop < MAIL_SIZE
  }

  /** The occupied slots are the cyclic interval from `pop` to `push`, and they hold `q`. */
  ghost predicate Holds(r: Ring, q: seq<Letter>) {
    && WellFormed(r) && |q| <= MAIL_SIZE && r.push == Pos(r.pop, |q|)
    && (forall k: nat :: k < MAIL_SIZE ==> (r.slots[Pos(r.pop, k)].letterType != 0 <==> k < |q|))
    && (forall k: nat :: k < |q| ==> r.slots[Pos(r.pop, k)] == ToMail(q[k]))
  }

  function Advance(i: nat): nat {
    if i + 1 == MAIL_SIZE then 0 else i + 1
  }

  /** An unchecked push, as `sys_send_msg` does it. */
  function Put(r: Ring, m: Mail): Ring
    requires r.push < |r.slots|
  {
    Ring(r.slots[r.push := m], Advance(r.push), r.pop)
  }

  /** The daemon empties the slot at `pop` and moves on. */
  function Take(r: Ring): Ring
    requires r.pop < |r.slots|
  {
    Ring(r.slots[r.pop := r.slots[r.pop].(letterType := 0)], r.push, Advance(r.pop))
  }

  /** The slot test of `send_msg` rejects exactly when 64 letters are held. */
  lemma FullExactly(r: Ring, q: seq<Letter>)
    requires Holds(r, q)
    ensures r.slots[r.push].letterType != 0 <==> |q| == 64
  {
    if |q| < MAIL_SIZE {
      assert r.slots[Pos(r.pop, |q|)].letterType == 0;
    } else {
      assert r.slots[Pos(r.pop, 0)].letterType != 0;
    }
  }

  /** The daemon's loop test succeeds exactly when a letter is held, and then it sees the
      oldest one. */
  lemma FirstAtPop(r: Ring, q: seq<Letter>)
    requires Holds(r, q)
    ensures r.slots[r.pop].letterType != 0 <==> q != []
    ensures q != [] ==> r.slots[r.pop] == ToMail(q[0])
  {
  }

  /** A ring holds one queue only. */
  lemma HoldsOne(r: Ring, q: seq<Letter>, q': seq<Letter>)
    requires Holds(r, q) && Holds(r, q')
    ensures q == q'
  {
  }

  lemma PutAppends(r: Ring, q: seq<Letter>, l: Letter)
    requires Holds(r, q) && |q| < MAIL_SIZE
    ensures Holds(Put(r, ToMail(l)), q + [l])
  {
  }

  lemma TakeRemovesFirst(r: Ring, q: seq<Letter>)
    requires Holds(r, q) && q != []
    ensures Holds(Take(r), q[1..])
  {
    var r' := Take(r);
    forall k: nat | k < MAIL_SIZE
      ensures Pos(r'.pop, k) == Pos(r.pop, if k == MAIL_SIZE - 1 then 0 else k + 1)
      ensures r'.slots[Pos(r'.pop, k)] ==
              if k == MAIL_SIZE - 1 then r.slots[r.pop].(letterType := 0) else r.slots[Pos(r.pop, k + 1)]
    {
    }
  }

  lemma AllOccupied(r: Ring, q: seq<Letter>)
    requires Holds(r, q) && forall i: nat :: i < MAIL_SIZE ==> r.slots[i].letterType != 0
    ensures r.push == r.pop
  {
  }

  /** The unchecked push keeps the ring a queue if and only if a slot is free: into a full
      ring it overwrites the oldest letter and would be delivered first. */
  lemma UncheckedPutExactly(r: Ring, q: seq<Letter>, l: Letter)
    requires Holds(r, q)
    ensures (exists q' :: Holds(Put(r, ToMail(l)), q')) <==> |q| < MAIL_SIZE
    ensures |q| == MAIL_SIZE ==> Put(r, ToMail(l)).slots[r.pop] == ToMail(l)
  {
    var r' := Put(r, ToMail(l));
    if |q| < MAIL_SIZE {
      PutAppends(r, q, l);
    } else {
      assert r'.push != r'.pop;
      forall i: nat | i < MAIL_SIZE
        ensures r'.slots[i].letterType != 0
      {
        assert i == Pos(r.pop, if i >= r.pop then i - r.pop else i - r.pop + MAIL_SIZE);
      }
      forall q' | Holds(r', q')
        ensures false
      {
        AllOccupied(r', q');
      }
    }
  }

  // ---- Order over whole runs --------------------------------------------------------

  datatype Op = Push(l: Letter) | Pop

  /** The ring after a sequence of checked pushes and pops, the letters popped and the
      letters accepted. */
  function Exec(r: Ring, ops: seq<Op>): (Ring, seq<Letter>, seq<Letter>)
    requires WellFormed(r)
    decreases |ops|
  {
    if ops == [] then (r, [], [])
    else
      match ops[0]
      case Push(l) =>
        if r.slots[r.push].letterType != 0 then Exec(r, ops[1..])
        else var (r', popped, pushed) := Exec(Put(r, ToMail(l)), ops[1..]); (r', popped, [l] + pushed)
      case Pop =>
        if r.slots[r.pop].letterType == 0 then Exec(r, ops[1..])
        else
          var l := ToLetter(r.slots[r.pop]);
          var (r', popped, pushed) := Exec(Take(r), ops[1..]); (r', [l] + popped, pushed)
  }

  lemma PopAndRest(q: seq<Letter>, popped: seq<Letter>, q': seq<Letter>, pushed: seq<Letter>)
    requires q != [] && popped + q' == q[1..] + pushed
    ensures ([q[0]] + popped) + q' == q + pushed
  {
    assert ([q[0]] + popped) + q' == [q[0]] + (popped + q');
    assert [q[0]] + (q[1..] + pushed) == q + pushed;
  }

  /** Letters leave in the order in which they were accepted, over every run and every
      wrap-around of the indices; none is lost or duplicated. */
  lemma {:induction false} FirstInFirstOut(r: Ring, q: seq<Letter>, ops: seq<Op>) returns (q': seq<Letter>)
    requires Holds(r, q)
    ensures var (r', popped, pushed) := Exec(r, ops);
      Holds(r', q') && popped + q' == q + pushed
    decreases |ops|
  {
    if ops == [] {
      q' := q;
    } else {
      FullExactly(r, q);
      FirstAtPop(r, q);
      match ops[0]
      case Push(l) =>
        if |q| == MAIL_SIZE {
          q' := FirstInFirstOut(r, q, ops[1..]);
        } else {
          PutAppends(r, q, l);
          q' := FirstInFirstOut(Put(r, ToMail(l)), q + [l], ops[1..]);
        }
      case Pop =>
        if q == [] {
          q' := FirstInFirstOut(r, q, ops[1..]);
        } else {
          TakeRemovesFirst(r, q);
          q' := FirstInFirstOut(Take(r), q[1..], ops[1..]);
          PopAndRest(q, Exec(Take(r), ops[1..]).1, q', Exec(Take(r), ops[1..]).2);
        }
    }
  }
}
