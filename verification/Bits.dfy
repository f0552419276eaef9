/** Bitwise operators of C on unsigned words, defined bit by bit on naturals, and the
    arithmetic they amount to for aligned values and contiguous masks. */
module Bits {

  function Pow2(k: nat): (r: nat)
    ensures r > 0
  {
    if k == 0 then 1 else 2 * Pow2(k - 1)
  }

  /** C's `a & b`. */
  function And(a: nat, b: nat): nat
    decreases a
  {
    if a == 0 || b == 0 then 0
    else 2 * And(a / 2, b / 2) + (if a % 2 == 1 && b % 2 == 1 then 1 else 0)
  }

  /** C's `a | b`. */
  function Or(a: nat, b: nat): nat
    decreases a
  {
    if a == 0 then b
    else if b == 0 then a
    else 2 * Or(a / 2, b / 2) + (if a % 2 == 1 || b % 2 == 1 then 1 else 0)
  }

  lemma {:induction false} AndUnfold(a: nat, b: nat)
    ensures And(a, b) == 2 * And(a / 2, b / 2) + (if a % 2 == 1 && b % 2 == 1 then 1 else 0)
  {
  }

  lemma HalfOfOddMask(h: nat)
    requires h > 0
    ensures (2 * h - 1) / 2 == h - 1 && (2 * h - 1) % 2 == 1
  {
  }

  lemma {:induction false} AndMaskStep(x: nat, h: nat)
    requires h > 0 && And(x / 2, h - 1) == x / 2 % h
    ensures And(x, 2 * h - 1) == x % (2 * h)
  {
    HalfOfOddMask(h);
    AndUnfold(x, 2 * h - 1);
    ModDouble(x, h);
  }

  lemma {:induction false} AndLowMask(x: nat, k: nat)
    ensures And(x, Pow2(k) - 1) == x % Pow2(k)
  {
    if k != 0 {
      var h := Pow2(k - 1);
      AndLowMask(x / 2, k - 1);
      AndMaskStep(x, h);
      assert Pow2(k) == 2 * h;
    }
  }

  lemma HalfOfEven(h: nat)
    ensures 2 * h / 2 == h && 2 * h % 2 == 0
  {
  }

  lemma {:induction false} AndHighStep(x: nat, h: nat, m: nat)
    requires 0 < h <= m && And(x / 2, m - h) == x / 2 - x / 2 % h
    ensures And(x, 2 * m - 2 * h) == x - x % (2 * h)
  {
    HalfOfEven(m - h);
    AndUnfold(x, 2 * (m - h));
    ModDouble(x, h);
  }

  lemma {:induction false} AndHighMask(x: nat, k: nat, n: nat)
    requires k <= n && x < Pow2(n)
    ensures Pow2(k) <= Pow2(n)
    ensures And(x, Pow2(n) - Pow2(k)) == x - x % Pow2(k)
    decreases k
  {
    if k == 0 {
      AndLowMask(x, n);
      DivModUnique(x, Pow2(n), 0, x);
    } else {
      var h, m := Pow2(k - 1), Pow2(n - 1);
      AndHighMask(x / 2, k - 1, n - 1);
      AndHighStep(x, h, m);
      assert Pow2(n) == 2 * m && Pow2(k) == 2 * h;
    }
  }

  lemma {:induction false} OrUnfold(a: nat, b: nat)
    ensures Or(a, b) == 2 * Or(a / 2, b / 2) + (if a % 2 == 1 || b % 2 == 1 then 1 else 0)
  {
  }

  lemma HalfOfEvenProduct(a: nat, h: nat)
    ensures a * h >= 0 && a * (2 * h) == 2 * (a * h)
    ensures a * (2 * h) / 2 == a * h && a * (2 * h) % 2 == 0
  {
  }

  lemma {:induction false} OrDisjoint(a: nat, b: nat, k: nat)
    requires b < Pow2(k)
    ensures Or(a * Pow2(k), b) == a * Pow2(k) + b
  {
    if k != 0 {
      var h := Pow2(k - 1);
      HalfOfEvenProduct(a, h);
      OrDisjoint(a, b / 2, k - 1);
      OrUnfold(a * Pow2(k), b);
    }
  }

  lemma ModDouble(x: nat, h: nat)
    requires h > 0
    ensures x % (2 * h) == 2 * (x / 2 % h) + x % 2
  {
    var q, r := x / 2 / h, x / 2 % h;
    assert x == 2 * (q * h + r) + x % 2;
    assert x == q * (2 * h) + (2 * r + x % 2);
    DivModUnique(x, 2 * h, q, 2 * r + x % 2);
  }

  lemma DivModUnique(x: int, d: int, q: int, r: int)
    requires d > 0 && 0 <= r < d && x == q * d + r
    ensures x / d == q && x % d == r
  {
    var q', r' := x / d, x % d;
    assert (q - q') * d == r' - r;
    MulBound(q - q', d);
  }

  lemma SumByMultiple(n: nat, h: nat, g: nat)
    requires n > 0
    ensures (n * h + g) % n == g % n
  {
    DivModUnique(n * h + g, n, h + g / n, g % n);
  }

  lemma MulBound(k: int, d: int)
    requires d > 0
    ensures k >= 1 ==> k * d >= d
    ensures k <= -1 ==> k * d <= -d
    ensures k == 0 ==> k * d == 0
  {
  }
}
