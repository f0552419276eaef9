/** The divisor computation of `sd_clk` on 32-bit words: the five-step search for the highest
    bit, and the two encodings of the divisor in the register CONTROL1. */
module SdClock {

  const BASE_CLOCK: nat := 41666666
  const OTHER_BITS: bv32 := 0xffff003f

  /** `s` is the place of the highest bit of `x`. */
  predicate HighestBit(x: bv32, s: bv32) {
    s < 32 && x >> s == 1
  }

  /** The search over 16, 8, 4, 2 and 1 bits finds the bit length of `x`, for every `x`. */
  method BitLength(x: bv32) returns (s: bv32)
    ensures x == 0 ==> s == 0
    ensures x != 0 ==> 1 <= s <= 32 && HighestBit(x, s - 1)
  {
    s := 32;
    if x == 0 {
      s := 0;
    } else {
      var y := x;
      if y & 0xffff0000 == 0 { y := y << 16; s := s - 16; }
      if y & 0xff000000 == 0 { y := y << 8; s := s - 8; }
      if y & 0xf0000000 == 0 { y := y << 4; s := s - 4; }
      if y & 0xc0000000 == 0 { y := y << 2; s := s - 2; }
      if y & 0x80000000 == 0 { y := y << 1; s := s - 1; }
    }
  }

  predicate PowerOfTwo(d: bv32) {
    d != 0 && d & (d - 1) == 0
  }

  /** The divisor for the ratio `c`: `c` itself from version 3 on, before that the power of
      two just below `c`, within 2 and 128. */
  predicate DivisorFor(c: bv32, v3: bool, d: bv32) {
    if v3 then d == if c <= 2 then 2 else c
    else
      && PowerOfTwo(d) && 2 <= d <= 128
      && (3 <= c <= 256 ==> d < c <= 2 * d) && (c < 3 ==> d == 2) && (c > 256 ==> d == 128)
  }

  method Divisor(c: bv32, v3: bool) returns (d: bv32)
    requires c != 0
    ensures DivisorFor(c, v3, d)
  {
    var s := BitLength(c - 1);
    if s > 0 {
      s := s - 1;
    }
    if s > 7 {
      s := 7;
    }
    if v3 {
      d := c;
    } else {
      d := 1 << s;
    }
    if d <= 2 {
      d := 2;
      s := 0;
    }
  }

  /** The divisor as a controller of version 3 reads it: low bits in 15-8, high bits in 7-6. */
  function Decoded(control1: bv32): bv32 {
    ((control1 >> 8) & 0xff) | (((control1 >> 6) & 0x3) << 8)
  }

  /** The divisor as an older controller reads it. */
  function DecodedOld(control1: bv32): bv32 {
    (control1 >> 8) & 0xff
  }

  function Field(d: bv32, v3: bool): bv32 {
    ((d & 0x0ff) << 8) | if v3 then (d & 0x300) >> 2 else 0
  }

  /** The register with the field of `d` in place of the old one. */
  function Encoded(control1: bv32, d: bv32, v3: bool): bv32 {
    (control1 & OTHER_BITS) | Field(d, v3)
  }

  lemma EncodedKeeps(control1: bv32, d: bv32, v3: bool)
    ensures Encoded(control1, d, v3) & OTHER_BITS == control1 & OTHER_BITS
    ensures Encoded(control1, d, v3) >> 16 == control1 >> 16 && Encoded(control1, d, v3) & 0x3f == control1 & 0x3f
  {
  }

  /** The field decodes to the divisor exactly while it fits: 10 bits from version 3 on. */
  lemma EncodedDecodes(control1: bv32, d: bv32)
    ensures Decoded(Encoded(control1, d, true)) == d <==> d < 1024
  {
  }

  /** Before that it has 8 bits. */
  lemma EncodedDecodesOld(control1: bv32, d: bv32)
    ensures DecodedOld(Encoded(control1, d, false)) == d <==> d < 256
  {
  }

  lemma RatioInRange(f: nat)
    requires 1 <= f <= BASE_CLOCK
    ensures 1 <= BASE_CLOCK / f <= BASE_CLOCK
  {
  }

  /** The encoding as `sd_clk` computes it. */
  method Encode(control1: bv32, d: bv32, v3: bool) returns (control1': bv32)
    ensures control1' == Encoded(control1, d, v3)
  {
    var h: bv32 := 0;
    if v3 {
      h := (d & 0x300) >> 2;
    }
    var field := ((d & 0x0ff) << 8) | h;
    control1' := (control1 & OTHER_BITS) | field;
  }

  /** The register reads back as `d`: from version 3 on if and only if `d` fits 10 bits. */
  predicate ReadsBack(control1: bv32, d: bv32, v3: bool) {
    if v3 then Decoded(control1) == d <==> d < 1024 else DecodedOld(control1) == d
  }

  lemma EncodedReadsBack(control1: bv32, c: bv32, d: bv32, v3: bool)
    requires DivisorFor(c, v3, d)
    ensures ReadsBack(Encoded(control1, d, v3), d, v3)
  {
    EncodedDecodes(control1, d);
    EncodedDecodesOld(control1, d);
  }

  /** The computation after the division. */
  method SetDivisor(control1: bv32, c: bv32, v3: bool) returns (control1': bv32, divisor: bv32)
    requires c != 0
    ensures DivisorFor(c, v3, divisor) && control1' == Encoded(control1, divisor, v3)
    ensures ReadsBack(control1', divisor, v3) && control1' & OTHER_BITS == control1 & OTHER_BITS
  {
    divisor := Divisor(c, v3);
    EncodedReadsBack(control1, c, divisor, v3);
    EncodedKeeps(control1, divisor, v3);
    control1' := Encode(control1, divisor, v3);
  }

  /** The whole computation for a frequency `f`; `divisor` is what is encoded. */
  method SetClock(control1: bv32, f: nat, v3: bool) returns (control1': bv32, divisor: bv32)
    requires 1 <= f <= 41666666
    ensures DivisorFor((41666666 / f) as bv32, v3, divisor)
    ensures control1' == Encoded(control1, divisor, v3)
    ensures ReadsBack(control1', divisor, v3) && control1' & OTHER_BITS == control1 & OTHER_BITS
  {
    RatioInRange(f);
    var c := (BASE_CLOCK / f) as bv32;
    assert c != 0;
    control1', divisor := SetDivisor(control1, c, v3);
  }
}
