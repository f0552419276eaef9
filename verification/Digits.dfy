/** Numerals: the digits of a number in a base, and reading them back. */
module Digits {
  import Bits

  function Pow(b: nat, k: nat): nat {
    if k == 0 then 1 else b * Pow(b, k - 1)
  }

  /** The number a sequence of digits stands for, most significant digit first. */
  function Value(ds: seq<nat>, b: nat): nat {
    if ds == [] then 0 else Value(ds[..|ds| - 1], b) * b + ds[|ds| - 1]
  }

  /** The digits of `n` without leading zeros; zero is the one digit 0. */
  function Numeral(n: nat, b: nat): seq<nat>
    requires b >= 2
    decreases n
  {
    if n < b then [n] else Quotient(n, b); Numeral(n / b, b) + [n % b]
  }

  lemma Quotient(n: nat, d: nat)
    requires d >= 1
    ensures n == (n / d) * d + n % d && n % d < d
    ensures n < d <==> n / d == 0
    ensures d >= 2 && n >= d ==> n / d < n
  {
  }

  lemma MulMono(a: nat, b: nat, d: nat)
    requires a <= b
    ensures a * d <= b * d
  {
  }

  lemma {:induction false} NumeralMeans(n: nat, b: nat)
    requires b >= 2
    ensures var ds := Numeral(n, b);
      |ds| >= 1 && AreDigits(ds, b) && Value(ds, b) == n && (|ds| > 1 ==> ds[0] != 0) && (|ds| == 1 ==> ds == [n])
    decreases n
  {
    if n >= b {
      Quotient(n, b);
      NumeralMeans(n / b, b);
      var front := Numeral(n / b, b);
      assert (front + [n % b])[..|front|] == front;
    }
  }

  predicate AreDigits(ds: seq<nat>, b: nat) {
    forall i :: 0 <= i < |ds| ==> ds[i] < b
  }

  /** The `k` lowest digits of `n`, by division by falling powers of the base. */
  function Padded(n: nat, b: nat, k: nat): seq<nat>
    requires b >= 2
    decreases k
  {
    if k == 0 then [] else PowPositive(b, k - 1); [n / Pow(b, k - 1)] + Padded(n % Pow(b, k - 1), b, k - 1)
  }

  lemma {:induction false} PowPositive(b: nat, k: nat)
    requires b >= 2
    ensures Pow(b, k) >= 1
    ensures k > 0 ==> Pow(b, k) >= 2 && Pow(b, k) / b == Pow(b, k - 1)
    decreases k
  {
    if k > 0 {
      var p := Pow(b, k - 1);
      PowPositive(b, k - 1);
      Bits.MulBound(p, b);
      Bits.DivModUnique(b * p, b, p, 0);
    }
  }

  /** A numeral is unique: digits, the right value and no superfluous zero pin it down. */
  lemma {:induction false} NumeralUnique(ds: seq<nat>, n: nat, b: nat)
    requires b >= 2 && |ds| >= 1 && AreDigits(ds, b) && Value(ds, b) == n && (|ds| > 1 ==> ds[0] != 0)
    ensures ds == Numeral(n, b)
    decreases |ds|
  {
    var front, last := ds[..|ds| - 1], ds[|ds| - 1];
    var high := Value(front, b);
    assert n == high * b + last;
    Bits.DivModUnique(n, b, high, last);
    if |ds| > 1 {
      LeadingDigit(front, b);
      Bits.MulBound(high, b);
      NumeralUnique(front, high, b);
      assert n >= b;
      assert ds == front + [last];
    } else {
      assert front == [];
    }
  }

  lemma {:induction false} LeadingDigit(ds: seq<nat>, b: nat)
    requires b >= 2 && |ds| >= 1 && ds[0] != 0
    ensures Value(ds, b) >= 1
    decreases |ds|
  {
    if |ds| > 1 {
      LeadingDigit(ds[..|ds| - 1], b);
    }
  }

  lemma {:induction false} ValueOfFirst(d: nat, ds: seq<nat>, b: nat)
    ensures Value([d] + ds, b) == d * Pow(b, |ds|) + Value(ds, b)
    decreases |ds|
  {
    if ds == [] {
      assert ([d] + ds)[..0] == [];
    } else {
      var front, last := ds[..|ds| - 1], ds[|ds| - 1];
      assert ([d] + ds)[..|ds|] == [d] + front;
      ValueOfFirst(d, front, b);
      assert (d * Pow(b, |ds| - 1) + Value(front, b)) * b == d * (b * Pow(b, |ds| - 1)) + Value(front, b) * b;
    }
  }

  lemma {:induction false} PaddedValue(n: nat, b: nat, k: nat)
    requires b >= 2 && n < Pow(b, k)
    ensures |Padded(n, b, k)| == k && AreDigits(Padded(n, b, k), b) && Value(Padded(n, b, k), b) == n
    decreases k
  {
    if k > 0 {
      var p := Pow(b, k - 1);
      PowPositive(b, k - 1);
      Quotient(n, p);
      PaddedValue(n % p, b, k - 1);
      ValueOfFirst(n / p, Padded(n % p, b, k - 1), b);
      QuotientBound(n, p, b);
    }
  }

  lemma QuotientBound(n: nat, p: nat, b: nat)
    requires p > 0 && n < b * p
    ensures n / p < b
  {
  }

  /** Division by falling powers, begun at the right power, yields the numeral. */
  lemma PaddedIsNumeral(n: nat, b: nat, k: nat)
    requires b >= 2 && k >= 1 && n < Pow(b, k) && (k == 1 || Pow(b, k - 1) <= n)
    ensures Padded(n, b, k) == Numeral(n, b)
  {
    var p := Pow(b, k - 1);
    PowPositive(b, k - 1);
    PaddedValue(n, b, k);
    Quotient(n, p);
    assert n >= p ==> n / p != 0;
    NumeralUnique(Padded(n, b, k), n, b);
  }

  /** In a base of ten or more, a number below ten to the `k` has at most `k` digits. */
  lemma {:induction false} NumeralLength(n: nat, b: nat, k: nat)
    requires b >= 10 && k >= 1 && n < Pow(10, k)
    ensures |Numeral(n, b)| <= k
    decreases k
  {
    if n >= b {
      assert Pow(10, 1) == 10 * Pow(10, 0);
      Quotient(n, b);
      QuotientBound(n, b, Pow(10, k - 1)) by {
        assert n < 10 * Pow(10, k - 1);
        assert (b - 10) * Pow(10, k - 1) >= 0;
      }
      NumeralLength(n / b, b, k - 1);
    }
  }

  lemma PowTen()
    ensures Pow(10, 10) == 10_000_000_000
  {
  }
}
