/** The number formatting of printf.c: what is printed is the numeral, and what was printed
    reads back as the number. Buffers are arrays of characters ended by NUL. */
module Printf {
  import Bits
  import opened Digits

  const U32: nat := 0x1_0000_0000
  const INT_LIMIT: int := 0x8000_0000
  const NUL: char := 0 as char

  function DigitChar(d: nat, uc: bool): char
    requires d < 36
  {
    (d + if d < 10 then '0' as int else (if uc then 'A' as int else 'a' as int) - 10) as char
  }

  /** The digits are 0 to 9, then the letters of the alphabet in the case asked for. */
  lemma DigitsInOrder(d: nat, uc: bool)
    requires d < 35
    ensures DigitChar(0, uc) == '0' && DigitChar(10, false) == 'a' && DigitChar(10, true) == 'A'
    ensures d != 9 ==> DigitChar(d + 1, uc) as int == DigitChar(d, uc) as int + 1
  {
  }

  function Chars(ds: seq<nat>, uc: bool): (r: seq<char>)
    requires AreDigits(ds, 36)
    ensures |r| == |ds| && forall i :: 0 <= i < |r| ==> r[i] == DigitChar(ds[i], uc)
  {
    seq(|ds|, i requires 0 <= i < |ds| => DigitChar(ds[i], uc))
  }

  /** `a2d`: the value of a digit of a base up to 16, or -1. */
  function A2d(ch: char): int {
    if '0' <= ch <= '9' then ch as int - '0' as int
    else if 'a' <= ch <= 'f' then ch as int - 'a' as int + 10
    else if 'A' <= ch <= 'F' then ch as int - 'A' as int + 10
    else -1
  }

  /** The characters with a value, of both cases, and no others. */
  lemma ValuedExactly(ch: char)
    ensures -1 <= A2d(ch) < 16
    ensures forall d: nat :: d < 16 ==>
      (A2d(ch) == d <==> ch == "0123456789abcdef"[d] || ch == "0123456789ABCDEF"[d])
  {
  }

  // ---- Printing ---------------------------------------------------------------------

  function Printed(n: nat, base: nat, uc: bool): (r: seq<char>)
    requires 2 <= base <= 36
    ensures |r| == |Numeral(n, base)|
  {
    NumeralMeans(n, base);
    Chars(Numeral(n, base), uc)
  }

  /** The first loop of `ui2a`: the largest power of the base not above `num`, in 32 bits. */
  method LargestPower(num: nat, base: nat) returns (d: nat, ghost k: nat)
    requires num < U32 && 2 <= base <= 36
    ensures 1 <= d < U32 && num / d < base && (d == 1 || d <= num)
    ensures d == Pow(base, k) && num < Pow(base, k + 1) && (k == 0 || d <= num)
  {
    d, k := 1, 0;
    Quotient(num, d);
    while num / d >= base
      invariant d == Pow(base, k) && 1 <= d < U32 && (k == 0 || d <= num) && (d == 1 || d <= num)
      decreases num - d
    {
      Quotient(num, d);
      PowerFits(num, d, base);
      d, k := (d * base) % U32, k + 1;
    }
    Quotient(num, d);
    PowerExceeds(num, d, base);
  }

  /** `d *= base` does not overflow while the loop runs. */
  lemma PowerFits(num: nat, d: nat, base: nat)
    requires d >= 1 && base >= 2 && num / d >= base
    ensures d < d * base <= num
  {
  }

  lemma PowerExceeds(num: nat, d: nat, base: nat)
    requires d >= 1 && num / d < base
    ensures num < base * d
  {
    Quotient(num, d);
    MulMono(num / d + 1, base, d);
    assert (num / d + 1) * d == (num / d) * d + d;
  }

  /** The head of the second loop of `ui2a`: one digit is split off. */
  method NextDigit(ghost ds: seq<nat>, ghost n: nat, num: nat, base: nat, d: nat, ghost k: nat)
    returns (dgt: nat, num': nat, d': nat)
    requires DigitsLeft(ds, n, num, base, d, k) && d != 0
    ensures k > 0 && dgt == ds[n] < base && (n > 0 || dgt > 0 || d' == 0)
    ensures DigitsLeft(ds, n + 1, num', base, d', k - 1)
  {
    DigitStep(ds, n, num, base, d, k);
    dgt := num / d;
    num' := num % d;
    d' := d / base;
  }

  /** `*bf++ = c`, `c` being what the text `shown` goes on with. */
  method PutChar(bf: array<char>, at: nat, end: nat, c: char, ghost shown: seq<char>)
    requires at <= end < bf.Length && end - at < |shown| && bf[at..end] == shown[..end - at] && c == shown[end - at]
    modifies bf
    ensures bf[at..end + 1] == shown[..end + 1 - at]
    ensures bf[..at] == old(bf[..at]) && bf[end + 1..] == old(bf[end + 1..])
  {
    bf[end] := c;
  }

  /** The second loop of `ui2a`. */
  method PutDigits(number: nat, base: nat, uc: bool, bf: array<char>, at: nat, power: nat, ghost digits: nat,
      ghost ds: seq<nat>, ghost shown: seq<char>)
      returns (end: nat)
    requires base <= 36 && DigitsLeft(ds, 0, number, base, power, digits) && Shows(ds, shown, uc)
    requires at + |shown| < bf.Length
    modifies bf
    ensures end == at + |shown| && bf[at..end] == shown
    ensures bf[..at] == old(bf[..at]) && bf[end..] == old(bf[end..])
  {
    var num: nat, n: nat, d: nat := number, 0, power;
    ghost var k: nat := digits;
    end := at;
    while d != 0
      invariant DigitsLeft(ds, n, num, base, d, k) && end == at + n
      invariant bf[at..end] == shown[..n]
      invariant bf[..at] == old(bf[..at]) && bf[at + |ds|..] == old(bf[at + |ds|..])
      decreases k
    {
      var dgt: nat;
      dgt, num, d := NextDigit(ds, n, num, base, d, k);
      k := k - 1;
      if n > 0 || dgt > 0 || d == 0 {
        PutChar(bf, at, end, DigitChar(dgt, uc), shown);
        end := end + 1;
        n := n + 1;
      }
    }
    DigitsDone(ds, n, num, base, d, k);
  }

  /** `ui2a` prints the numeral: no digit is missing, none is superfluous, and nothing but the
      numeral and its NUL is written. */
  method Ui2a(number: nat, base: nat, uc: bool, bf: array<char>, at: nat) returns (end: nat)
    requires number < U32 && 2 <= base <= 36 && at + |Printed(number, base, uc)| < bf.Length
    modifies bf
    ensures end == at + |Printed(number, base, uc)|
    ensures bf[at..end] == Printed(number, base, uc) && bf[end] == NUL
    ensures bf[..at] == old(bf[..at]) && bf[end + 1..] == old(bf[end + 1..])
  {
    var d: nat;
    ghost var k: nat;
    d, k := LargestPower(number, base);
    FirstDigit(number, base, uc, d, k + 1);
    end := PutDigits(number, base, uc, bf, at, d, k + 1, Numeral(number, base), Printed(number, base, uc));
    bf[end] := NUL;
  }

  /** The second loop of `ui2a` after `n` digits: `k` digits are left, and they are those of
      what remains of the number. */
  ghost predicate DigitsLeft(ds: seq<nat>, n: nat, num: nat, base: nat, d: nat, k: nat) {
    && base >= 2 && n + k == |ds| && AreDigits(ds, base) && (|ds| > 1 ==> ds[0] != 0)
    && d == (if k > 0 then Pow(base, k - 1) else 0)
    && Padded(num, base, k) == ds[n..]
  }

  lemma FirstDigit(number: nat, base: nat, uc: bool, d: nat, k: nat)
    requires 2 <= base <= 36 && k > 0 && d == Pow(base, k - 1)
    requires number < Pow(base, k) && (k == 1 || d <= number)
    ensures DigitsLeft(Numeral(number, base), 0, number, base, d, k)
    ensures Shows(Numeral(number, base), Printed(number, base, uc), uc)
  {
    NumeralMeans(number, base);
    PaddedIsNumeral(number, base, k);
    PaddedValue(number, base, k);
  }

  ghost predicate Shows(ds: seq<nat>, text: seq<char>, uc: bool) {
    |ds| == |text| && forall i :: 0 <= i < |ds| ==> ds[i] < 36 && text[i] == DigitChar(ds[i], uc)
  }

  lemma DigitsDone(ds: seq<nat>, n: nat, num: nat, base: nat, d: nat, k: nat)
    requires DigitsLeft(ds, n, num, base, d, k) && d == 0
    ensures n == |ds|
  {
    PowPositive(base, if k > 0 then k - 1 else 0);
  }

  lemma DigitStep(ds: seq<nat>, n: nat, num: nat, base: nat, d: nat, k: nat)
    requires DigitsLeft(ds, n, num, base, d, k) && d != 0
    ensures k > 0 && num / d == ds[n] < base && (n > 0 || num / d > 0 || d / base == 0)
    ensures DigitsLeft(ds, n + 1, num % d, base, d / base, k - 1)
  {
    PowPositive(base, k - 1);
    SmallQuotient(base);
    assert Padded(num, base, k)[0] == num / d;
    assert Padded(num % d, base, k - 1) == Padded(num, base, k)[1..];
    assert ds[n..][1..] == ds[n + 1..];
  }

  lemma SmallQuotient(base: nat)
    requires base >= 2
    ensures 1 / base == 0
  {
  }

  /** C's negation of an `int`, and the conversion of an `int` to `unsigned`. */
  function Negated(x: int): int {
    if -x >= INT_LIMIT then -x - U32 else -x
  }

  function Unsigned(x: int): nat {
    if x < 0 then (x + U32) % U32 else x
  }

  function Magnitude(x: int): nat {
    if x < 0 then -x else x
  }

  /** What `i2a` prints: a sign if need be, and the numeral of the magnitude. */
  function PrintedInt(x: int): seq<char> {
    (if x < 0 then ['-'] else []) + Printed(Magnitude(x), 10, false)
  }

  /** Sign, digits and NUL fit the buffer of 12 bytes, down to the least `int`. */
  lemma IntFits(x: int)
    requires -INT_LIMIT <= x < INT_LIMIT
    ensures |PrintedInt(x)| + 1 <= 12
  {
    PowTen();
    NumeralLength(Magnitude(x), 10, 10);
  }

  /** `i2a` */
  method I2a(number: int, bf: array<char>) returns (end: nat)
    requires -INT_LIMIT <= number < INT_LIMIT && bf.Length == 12
    modifies bf
    ensures end == |PrintedInt(number)| < 12 && bf[..end] == PrintedInt(number) && bf[end] == NUL
  {
    IntFits(number);
    var num, at := number, 0;
    if num < 0 {
      num := Negated(num);
      bf[0] := '-';
      at := 1;
    }
    assert Unsigned(num) == Magnitude(number);
    ghost var before := bf[..at];
    end := Ui2a(Unsigned(num), 10, false, bf, at);
    assert bf[..end] == bf[..at] + bf[at..end];
  }

  // ---- Reading ----------------------------------------------------------------------

  /** The test of `a2i`, which lets a digit equal to the base through. */
  predicate Accepts(ch: char, base: nat) {
    0 <= A2d(ch) <= base
  }

  /** How many characters `a2i` takes. */
  function Taken(text: seq<char>, base: nat): (k: nat)
    ensures k <= |text|
    ensures forall i :: 0 <= i < k ==> Accepts(text[i], base)
    ensures k < |text| ==> !Accepts(text[k], base)
  {
    if text == [] || !Accepts(text[0], base) then 0 else 1 + Taken(text[1..], base)
  }

  function ReadDigits(text: seq<char>, base: nat): (ds: seq<nat>)
    requires forall i :: 0 <= i < |text| ==> Accepts(text[i], base)
    ensures |ds| == |text| && forall i :: 0 <= i < |ds| ==> ds[i] == A2d(text[i])
  {
    assert forall i :: 0 <= i < |text| ==> Accepts(text[i], base);
    seq(|text|, i requires 0 <= i < |text| && Accepts(text[i], base) => A2d(text[i]))
  }

  /** The number `a2i` makes of a text. */
  function ReadNumber(text: seq<char>, base: nat): nat {
    Value(ReadDigits(text[..Taken(text, base)], base), base)
  }

  lemma {:induction false} ValueGrows(ds: seq<nat>, k: nat, b: nat)
    requires k <= |ds| && b >= 1
    ensures Value(ds[..k], b) <= Value(ds, b)
    decreases |ds| - k
  {
    if k == |ds| {
      assert ds[..k] == ds;
    } else {
      assert ds[..k + 1][..k] == ds[..k];
      Bits.MulBound(b, Value(ds[..k], b) + 1);
      assert Value(ds[..k], b) * b >= Value(ds[..k], b) by {
        assert Value(ds[..k], b) * (b - 1) >= 0;
      }
      ValueGrows(ds, k + 1, b);
    }
  }

  lemma OneMoreDigit(ds: seq<nat>, i: nat, base: nat, num: nat)
    requires i < |ds| && base >= 1 && num == Value(ds[..i], base)
    ensures num * base + ds[i] == Value(ds[..i + 1], base) <= Value(ds, base)
  {
    assert ds[..i + 1][..i] == ds[..i];
    ValueGrows(ds, i + 1, base);
  }

  /** `a2i`: `ch` was read already, the rest of the text starts at `src[from]`. It ends at the
      first character it does not accept, behind which it leaves the pointer; while the number
      fits an `int` nothing overflows on the way. */
  method A2i(ch: char, src: array<char>, from: nat, base: nat) returns (ch': char, p: nat, num: nat)
    requires from <= src.Length && base >= 1
    requires Taken([ch] + src[from..], base) < |[ch] + src[from..]|
    requires ReadNumber([ch] + src[from..], base) < INT_LIMIT
    ensures num == ReadNumber([ch] + src[from..], base)
    ensures p == from + Taken([ch] + src[from..], base)
    ensures ch' == ([ch] + src[from..])[Taken([ch] + src[from..], base)]
  {
    ghost var text := [ch] + src[from..];
    ghost var k := Taken(text, base);
    ghost var ds := ReadDigits(text[..k], base);
    ch', p, num := ch, from, 0;
    var digit := A2d(ch');
    while digit >= 0
      invariant from <= p <= src.Length && p - from <= k
      invariant ch' == text[p - from] && digit == A2d(ch')
      invariant num == Value(ds[..p - from], base)
      decreases src.Length - p
    {
      if digit > base {
        break;
      }
      assert p - from < k;
      OneMoreDigit(ds, p - from, base, num);
      num := num * base + digit;
      ch' := src[p];
      p := p + 1;
      digit := A2d(ch');
    }
    assert p - from == k;
    assert ds[..k] == ds;
  }

  /** What `ui2a` prints in a base from 2 to 16 reads back as the number, whatever character
      that is not taken follows. */
  lemma RoundTrip(n: nat, base: nat, uc: bool, rest: seq<char>)
    requires 2 <= base <= 16 && rest != [] && !Accepts(rest[0], base)
    ensures var text := Printed(n, base, uc) + rest;
      Taken(text, base) == |Printed(n, base, uc)| && ReadNumber(text, base) == n
  {
    var ds := Numeral(n, base);
    NumeralMeans(n, base);
    var printed := Printed(n, base, uc);
    var text := printed + rest;
    forall i | 0 <= i < |ds|
      ensures A2d(text[i]) == ds[i]
    {
      assert text[i] == DigitChar(ds[i], uc);
    }
    TakenIs(text, base, |ds|);
    assert ReadDigits(text[..|ds|], base) == ds;
  }

  lemma {:induction false} TakenIs(text: seq<char>, base: nat, k: nat)
    requires k < |text| && !Accepts(text[k], base) && forall i :: 0 <= i < k ==> Accepts(text[i], base)
    ensures Taken(text, base) == k
    decreases k
  {
  }

  /** The end of the digits of the base in a text. */
  function DigitsEnd(text: seq<char>, base: nat): (k: nat)
    ensures k <= |text|
    ensures forall i :: 0 <= i < k ==> 0 <= A2d(text[i]) < base
    ensures k < |text| ==> !(0 <= A2d(text[k]) < base)
  {
    if text == [] || !(0 <= A2d(text[0]) < base) then 0 else 1 + DigitsEnd(text[1..], base)
  }

  /** `a2i` stops where the digits of the base end if and only if no digit equal to the base
      stands there; in base 10 it goes on over the letter a. */
  lemma {:induction false} TakesDigitsExactly(text: seq<char>, base: nat)
    ensures DigitsEnd(text, base) <= Taken(text, base)
    ensures Taken(text, base) == DigitsEnd(text, base) <==>
            DigitsEnd(text, base) == |text| || A2d(text[DigitsEnd(text, base)]) != base
    decreases |text|
  {
  }

  /** In base 10 the text 1a is read as twenty: the digits end behind the 1, and the letter is
      taken with the value 10. */
  lemma LetterInBaseTen()
    ensures var text := ['1', 'a', NUL];
      DigitsEnd(text, 10) == 1 && Taken(text, 10) == 2 && ReadNumber(text, 10) == 20
  {
    var text := ['1', 'a', NUL];
    TakenIs(text, 10, 2);
    assert text[1..] == ['a', NUL];
    assert DigitsEnd(text[1..], 10) == 0;
    var ds := ReadDigits(text[..2], 10);
    assert ds == [1, 10] && ds[..1] == [1] && [1][..0] == [];
    assert Value([1], 10) == 1;
  }

  // ---- Padding ----------------------------------------------------------------------

  /** The text of a buffer up to its NUL. */
  function Text(s: seq<char>): seq<char> {
    if s == [] || s[0] == NUL then [] else [s[0]] + Text(s[1..])
  }

  lemma {:induction false} TextIs(s: seq<char>, k: nat)
    requires k < |s| && s[k] == NUL && forall i :: 0 <= i < k ==> s[i] != NUL
    ensures Text(s) == s[..k]
    decreases k
  {
    if k > 0 {
      TextIs(s[1..], k - 1);
      assert s[..k] == [s[0]] + s[1..][..k - 1];
    }
  }

  function Fill(fc: char, n: int): (r: seq<char>)
    ensures |r| == if n > 0 then n else 0
  {
    seq(if n > 0 then n else 0, i => fc)
  }

  /** `putchw`: the text, filled up on the left to the width and never cut. `len` is the place
      of the NUL. */
  method Putchw(width: int, z: bool, bf: array<char>, ghost len: nat) returns (out: seq<char>)
    requires len < bf.Length && bf[len] == NUL && forall i :: 0 <= i < len ==> bf[i] != NUL
    ensures Text(bf[..]) == bf[..len]
    ensures out == Fill(if z then '0' else ' ', width - len) + Text(bf[..])
  {
    TextIs(bf[..], len);
    var fc := if z then '0' else ' ';
    var n, p := width, 0;
    while bf[p] != NUL && n > 0
      invariant p <= len && n == width - p && (p > 0 ==> n >= 0)
      decreases n
    {
      p := p + 1;
      n := n - 1;
    }
    assert n > 0 ==> n == width - len;
    assert n <= 0 ==> width - len <= 0;
    out := [];
    ghost var m := n;
    while n > 0
      invariant n <= m && (m > 0 ==> n >= 0) && (m <= 0 ==> n == m)
      invariant out == Fill(fc, m - n)
    {
      n := n - 1;
      out := out + [fc];
    }
    ghost var filled := out;
    assert |filled| == |Fill(fc, width - len)|;
    assert filled == Fill(fc, width - len);
    p := 0;
    while bf[p] != NUL
      invariant p <= len && out == filled + bf[..p]
      decreases len - p
    {
      out := out + [bf[p]];
      p := p + 1;
    }
  }
}
