/** Reading the 64-bit system timer through two 32-bit registers while it runs. */
module SystemTimer {

  const WORD: nat := 0x1_0000_0000

  function Hi(v: nat): nat {
    v / WORD
  }

  function Lo(v: nat): nat {
    v % WORD
  }

  function Joined(h: nat, l: nat): nat {
    h * WORD + l
  }

  /** What `get_system_timer` returns when the counter stands at `v1`, `v2`, ... at its first,
      second, ... register access; the last two happen only if the high word has changed. */
  function TimerRead(v1: nat, v2: nat, v3: nat, v4: nat, v5: nat): nat {
    if Hi(v1) != Hi(v3) then Joined(Hi(v4), Lo(v5)) else Joined(Hi(v1), Lo(v2))
  }

  /** The read is linearisable: however fast the counter runs, the result lies between its
      values at the first and at the last access. */
  lemma ReadLinearises(v1: nat, v2: nat, v3: nat, v4: nat, v5: nat)
    requires v1 <= v2 <= v3 <= v4 <= v5
    ensures v1 <= TimerRead(v1, v2, v3, v4, v5) <= v5
  {
  }

  /** With fewer than 2^32 ticks during the call the result is the value of the counter at one
      of the two accesses to the low word. */
  lemma ReadIsASample(v1: nat, v2: nat, v3: nat, v4: nat, v5: nat)
    requires v1 <= v2 <= v3 <= v4 <= v5 < v1 + WORD
    ensures TimerRead(v1, v2, v3, v4, v5) == (if Hi(v1) == Hi(v3) then v2 else v5)
  {
  }

  /** One read of each word, without the second look at the high word, is torn if and only if
      the high word changes and the low word falls in between. */
  lemma RereadIsNeeded(v1: nat, v2: nat)
    requires v1 <= v2
    ensures v1 <= Joined(Hi(v1), Lo(v2)) <= v2 <==> Hi(v1) == Hi(v2) || Lo(v1) <= Lo(v2)
  {
  }

  /** The timer; between any two accesses it may count on by any amount. */
  class Timer {
    var now: nat

    method CountOn()
      modifies this
      ensures now >= old(now)
    {
      var ticks: int := *;
      if ticks > 0 {
        now := now + ticks;
      }
    }

    /** `get32(TIMER_CHI)` */
    method ReadHi() returns (h: nat)
      modifies this
      ensures now >= old(now) && h == Hi(now)
    {
      CountOn();
      h := now / WORD;
    }

    /** `get32(TIMER_CLO)` */
    method ReadLo() returns (l: nat)
      modifies this
      ensures now >= old(now) && l == Lo(now)
    {
      CountOn();
      l := now % WORD;
    }

    /** `get_system_timer`: a value of the counter between call and return. */
    method GetSystemTimer() returns (t: nat)
      modifies this
      ensures old(now) <= t <= now
    {
      var h := ReadHi();
      ghost var v1 := now;
      var l := ReadLo();
      ghost var v2 := now;
      var again := ReadHi();
      ghost var v3 := now;
      ghost var v4 := now;
      if h != again {
        h := ReadHi();
        v4 := now;
        l := ReadLo();
      }
      t := h * WORD + l;
      ReadLinearises(v1, v2, v3, v4, now);
    }
  }
}
