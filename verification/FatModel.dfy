/** FAT volumes: the layout formulas, cluster chains, and what loading a chain into the flat
    buffer at `_end` does to it. Offsets into the buffer count from `_end`. */
module FatModel {
  import opened Finite

  type Byte = b: int | 0 <= b < 256

  const SECTOR: nat := 512
  const CHAIN_END: nat := 0xFFF8
  const WORD: nat := 0x1_0000_0000

  // ---- The card ---------------------------------------------------------------------

  /** The bytes of the card, and the sectors it cannot read. */
  datatype Card = Card(data: seq<Byte>, bad: set<nat>)

  predicate Readable(card: Card, n: nat) {
    n !in card.bad && SECTOR * n + SECTOR <= |card.data|
  }

  ghost predicate AllReadable(card: Card, n: nat, num: nat) {
    forall k: nat :: n <= k < n + num ==> Readable(card, k)
  }

  function Overlay(mem: seq<Byte>, at: nat, bytes: seq<Byte>): (r: seq<Byte>)
    requires at + |bytes| <= |mem|
    ensures |r| == |mem|
  {
    mem[..at] + bytes + mem[at + |bytes|..]
  }

  function SectorBytes(card: Card, n: nat): (r: seq<Byte>)
    requires Readable(card, n)
    ensures |r| == SECTOR
  {
    card.data[SECTOR * n..SECTOR * n + SECTOR]
  }

  /** `num` sectors are copied one after the other until one cannot be read. */
  function CopySectors(card: Card, mem: seq<Byte>, n: nat, at: nat, num: nat): (r: (seq<Byte>, bool))
    requires at + SECTOR * num <= |mem|
    ensures |r.0| == |mem|
    decreases num
  {
    if num == 0 then (mem, true)
    else if !Readable(card, n) then (mem, false)
    else CopySectors(card, Overlay(mem, at, SectorBytes(card, n)), n + 1, at + SECTOR, num - 1)
  }

  /** A copy succeeds exactly when every sector is readable, and then the buffer holds that
      stretch of the card; nothing outside `[at, at + 512 * num)` changes in any case. */
  lemma {:induction false} CopySectorsResult(card: Card, mem: seq<Byte>, n: nat, at: nat, num: nat)
    requires at + SECTOR * num <= |mem|
    ensures var (mem', ok) := CopySectors(card, mem, n, at, num);
      && mem'[..at] == mem[..at] && mem'[at + SECTOR * num..] == mem[at + SECTOR * num..]
      && (ok <==> AllReadable(card, n, num))
      && (ok && num > 0 ==> SECTOR * (n + num) <= |card.data|)
      && (ok && num > 0 ==> mem'[at..at + SECTOR * num] == card.data[SECTOR * n..SECTOR * (n + num)])
    decreases num
  {
    if num > 0 && Readable(card, n) {
      var mem1 := Overlay(mem, at, SectorBytes(card, n));
      CopySectorsResult(card, mem1, n + 1, at + SECTOR, num - 1);
      var (mem', ok) := CopySectors(card, mem, n, at, num);
      assert mem'[..at] == mem'[..at + SECTOR][..at];
      assert mem1[..at + SECTOR][..at] == mem[..at];
      assert mem1[at + SECTOR * num..] == mem[at + SECTOR * num..];
      if ok && num > 1 {
        assert mem'[at..at + SECTOR] == mem'[..at + SECTOR][at..] == SectorBytes(card, n);
        assert mem'[at..at + SECTOR * num] == mem'[at..at + SECTOR] + mem'[at + SECTOR..at + SECTOR * num];
        assert card.data[SECTOR * n..SECTOR * (n + num)] ==
               SectorBytes(card, n) + card.data[SECTOR * (n + 1)..SECTOR * (n + num)];
      } else if ok {
        assert mem' == mem1;
        assert mem1[at..at + SECTOR] == SectorBytes(card, n);
      }
    }
  }

  lemma CopyOk(card: Card, mem: seq<Byte>, n: nat, at: nat, num: nat)
    requires at + SECTOR * num <= |mem|
    ensures CopySectors(card, mem, n, at, num).1 <==> AllReadable(card, n, num)
  {
    CopySectorsResult(card, mem, n, at, num);
  }

  /** Copying `num` sectors to `at` is what is left to do to reach `final`. */
  ghost predicate CopyPending(card: Card, mem: seq<Byte>, n: nat, at: nat, num: nat, final: (seq<Byte>, bool)) {
    at + SECTOR * num <= |mem| && CopySectors(card, mem, n, at, num) == final
  }

  lemma CopyStep(card: Card, mem: seq<Byte>, n: nat, at: nat, num: nat, final: (seq<Byte>, bool), mem': seq<Byte>)
    requires num > 0 && CopyPending(card, mem, n, at, num, final) && Readable(card, n)
    requires at + SECTOR <= |mem| ==> mem' == Overlay(mem, at, SectorBytes(card, n))
    ensures CopyPending(card, mem', n + 1, at + SECTOR, num - 1, final)
  {
  }

  lemma CopyStops(card: Card, mem: seq<Byte>, n: nat, at: nat, num: nat, final: (seq<Byte>, bool))
    requires CopyPending(card, mem, n, at, num, final)
    ensures num > 0 && !Readable(card, n) ==> final == (mem, false)
    ensures num == 0 ==> final == (mem, true)
  {
  }

  // ---- The layout of a volume -------------------------------------------------------

  /** The fields of the BIOS parameter block that the reader uses. */
  datatype Bpb = Bpb(bps: nat, spc: nat, rsc: nat, nf: nat, nr: nat, spf16: nat, spf32: nat)

  function Le16(m: seq<Byte>, i: nat): (r: nat)
    requires i + 2 <= |m|
    ensures r < 0x1_0000
  {
    var lo: int, hi: int := m[i], m[i + 1];
    lo + hi * 0x100
  }

  function Le32(m: seq<Byte>, i: nat): (r: nat)
    requires i + 4 <= |m|
    ensures r < WORD
  {
    Le16(m, i) + Le16(m, i + 2) * 0x1_0000
  }

  function ParseBpb(m: seq<Byte>): Bpb
    requires |m| >= SECTOR
  {
    Bpb(Le16(m, 11), m[13], Le16(m, 14), m[16], Le16(m, 17), Le16(m, 22), Le32(m, 36))
  }

  function FatSize(b: Bpb): nat {
    if b.spf16 > 0 then b.spf16 else b.spf32
  }

  /** `data_sec` in 32-bit arithmetic; `lba` is the first sector of the partition. */
  function DataSec(b: Bpb, lba: nat): nat {
    ((FatSize(b) * b.nf) % WORD + b.rsc + (if b.spf16 > 0 then (b.nr * 32 + 511) / 512 else 0) + lba) % WORD
  }

  /** The sector the loop passes to the card for cluster `c`, in 32-bit arithmetic. */
  function SectorOf(spc: nat, dataSec: nat, c: nat): (r: nat)
    requires c >= 2
  {
    ((c - 2) * spc + dataSec) % WORD
  }

  function ClusterSec(b: Bpb, lba: nat, c: nat): nat
    requires c >= 2
  {
    SectorOf(b.spc, DataSec(b, lba), c)
  }

  /** The first sector of cluster `c` as the FAT specification defines it: reserved sectors,
      all FATs, the root directory, then the clusters. */
  function SpecClusterSec(b: Bpb, c: nat): nat
    requires c >= 2 && b.bps > 0
  {
    b.rsc + b.nf * FatSize(b) + (b.nr * 32 + (b.bps - 1)) / b.bps + (c - 2) * b.spc
  }

  /** The code's sector number is the specified one modulo 2^32 if the volume has 512-byte
      sectors and a FAT32 volume has no fixed root directory. */
  lemma ClusterSecIsSpecified(b: Bpb, lba: nat, c: nat)
    requires c >= 2 && b.bps == SECTOR && (b.spf16 == 0 ==> b.nr == 0)
    ensures ClusterSec(b, lba, c) == (lba + SpecClusterSec(b, c)) % 0x1_0000_0000
  {
    assert (c - 2) * b.spc >= 0 && b.nf * FatSize(b) == FatSize(b) * b.nf;
    var root := if b.spf16 > 0 then (b.nr * 32 + 511) / 512 else 0;
    SumOfRests(FatSize(b) * b.nf, b.rsc + root + lba, (c - 2) * b.spc);
  }

  lemma SameRest(x: nat, y: nat, k: nat)
    requires y == x + WORD * k
    ensures y % WORD == x % WORD
  {
  }

  lemma SumOfRests(p: nat, q: nat, r: nat)
    ensures (r + (p % WORD + q) % WORD) % WORD == (p + q + r) % WORD
  {
    SameRest(p % WORD + q + r, p + q + r, p / WORD);
    SameRest(r + (p % WORD + q) % WORD, p % WORD + q + r, (p % WORD + q) / WORD);
  }

  // ---- Chains -----------------------------------------------------------------------

  /** One copy of the file allocation table; `wide` on FAT32. */
  datatype Fat = Fat(bytes: seq<Byte>, wide: bool)

  function EntrySize(f: Fat): nat {
    if f.wide then 4 else 2
  }

  /** The condition of the reader's loop, on FAT16 and FAT32 alike. */
  predicate Live(c: nat) {
    1 < c < CHAIN_END
  }

  predicate InFat(f: Fat, c: nat) {
    EntrySize(f) * c + EntrySize(f) <= |f.bytes|
  }

  function Entry(f: Fat, c: nat): nat
    requires InFat(f, c)
  {
    if f.wide then Le32(f.bytes, 4 * c) else Le16(f.bytes, 2 * c)
  }

  /** `cs` is the chain the reader's loop follows from `c`; every entry lies in the table. */
  ghost predicate IsChain(f: Fat, c: nat, cs: seq<nat>)
    decreases |cs|
  {
    if !Live(c) then cs == []
    else cs != [] && cs[0] == c && InFat(f, c) && IsChain(f, Entry(f, c), cs[1..])
  }

  /** The `n`-th cluster from `c` on. */
  ghost function Nth(f: Fat, c: nat, n: nat): nat
    decreases n
  {
    if n == 0 then c else if InFat(f, c) then Nth(f, Entry(f, c), n - 1) else 0
  }

  ghost predicate LiveUpTo(f: Fat, c: nat, n: nat) {
    forall k: nat :: k <= n ==> Live(Nth(f, c, k))
  }

  /** The chain visits no cluster twice. */
  ghost predicate Acyclic(f: Fat, c: nat) {
    forall i: nat, j: nat :: i < j && LiveUpTo(f, c, j) ==> Nth(f, c, i) != Nth(f, c, j)
  }

  ghost predicate StaysInFat(f: Fat, c: nat) {
    forall k: nat :: LiveUpTo(f, c, k) ==> InFat(f, Nth(f, c, k))
  }

  lemma {:induction false} NthInChain(f: Fat, c: nat, cs: seq<nat>, n: nat)
    requires IsChain(f, c, cs) && n <= |cs|
    ensures n < |cs| ==> Nth(f, c, n) == cs[n] && Live(cs[n]) && InFat(f, cs[n])
    ensures n == |cs| ==> !Live(Nth(f, c, n))
    ensures IsChain(f, Nth(f, c, n), cs[n..])
    decreases n
  {
    if n > 0 {
      NthInChain(f, Entry(f, c), cs[1..], n - 1);
      assert cs[1..][n - 1..] == cs[n..];
    }
  }

  lemma {:induction false} ChainUnique(f: Fat, c: nat, cs: seq<nat>, ds: seq<nat>)
    requires IsChain(f, c, cs) && IsChain(f, c, ds)
    ensures cs == ds
    decreases |cs|
  {
    if Live(c) {
      ChainUnique(f, Entry(f, c), cs[1..], ds[1..]);
    }
  }

  lemma ChainAcyclic(f: Fat, c: nat, cs: seq<nat>)
    requires IsChain(f, c, cs)
    ensures Acyclic(f, c) && StaysInFat(f, c)
  {
    forall i: nat, j: nat | i < j && LiveUpTo(f, c, j)
      ensures Nth(f, c, i) != Nth(f, c, j)
    {
      LiveIsInside(f, c, cs, j);
      NthInChain(f, c, cs, i);
      NthInChain(f, c, cs, j);
      if Nth(f, c, i) == Nth(f, c, j) {
        ChainUnique(f, Nth(f, c, i), cs[i..], cs[j..]);
        assert false;
      }
    }
    forall k: nat | LiveUpTo(f, c, k)
      ensures InFat(f, Nth(f, c, k))
    {
      LiveIsInside(f, c, cs, k);
      NthInChain(f, c, cs, k);
    }
  }

  lemma LiveIsInside(f: Fat, c: nat, cs: seq<nat>, k: nat)
    requires IsChain(f, c, cs) && LiveUpTo(f, c, k)
    ensures k < |cs|
  {
    NthInChain(f, c, cs, |cs|);
  }

  // ---- Acyclic chains end -----------------------------------------------------------

  ghost function Visited(f: Fat, c: nat, n: nat): set<nat> {
    if n == 0 then {} else Visited(f, c, n - 1) + {Nth(f, c, n - 1)}
  }

  lemma {:induction false} VisitedAt(f: Fat, c: nat, n: nat, x: nat) returns (k: nat)
    requires x in Visited(f, c, n)
    ensures k < n && Nth(f, c, k) == x
    decreases n
  {
    if x in Visited(f, c, n - 1) {
      k := VisitedAt(f, c, n - 1, x);
    } else {
      k := n - 1;
    }
  }

  lemma {:induction false} VisitedSize(f: Fat, c: nat, n: nat)
    requires Acyclic(f, c) && LiveUpTo(f, c, n)
    ensures |Visited(f, c, n)| == n
    decreases n
  {
    if n > 0 {
      assert LiveUpTo(f, c, n - 1);
      VisitedSize(f, c, n - 1);
      if Nth(f, c, n - 1) in Visited(f, c, n - 1) {
        var k := VisitedAt(f, c, n - 1, Nth(f, c, n - 1));
        assert false;
      }
    }
  }

  lemma AcyclicEnds(f: Fat, c: nat, n: nat)
    requires Acyclic(f, c) && n >= CHAIN_END
    ensures !LiveUpTo(f, c, n)
  {
    if LiveUpTo(f, c, n) {
      VisitedSize(f, c, n);
      forall x | x in Visited(f, c, n)
        ensures x in Below(n) - {0}
      {
        var k := VisitedAt(f, c, n, x);
        assert Live(Nth(f, c, k));
      }
      SubsetSize(Visited(f, c, n), Below(n) - {0});
    }
  }

  lemma NthShift(f: Fat, c: nat, n: nat)
    requires InFat(f, c)
    ensures Nth(f, Entry(f, c), n) == Nth(f, c, n + 1)
  {
  }

  lemma {:induction false} BuildChain(f: Fat, c: nat, n: nat) returns (cs: seq<nat>)
    requires StaysInFat(f, c) && !LiveUpTo(f, c, n)
    ensures IsChain(f, c, cs)
    decreases n
  {
    if !Live(c) {
      cs := [];
    } else if n == 0 {
      assert Nth(f, c, 0) == c;
      cs := [];
    } else {
      assert Nth(f, c, 0) == c && LiveUpTo(f, c, 0);
      var d := Entry(f, c);
      forall k: nat | LiveUpTo(f, d, k)
        ensures InFat(f, Nth(f, d, k))
      {
        LiveTail(f, c, k);
        assert LiveUpTo(f, c, k + 1);
        NthShift(f, c, k);
      }
      if LiveUpTo(f, d, n - 1) {
        LiveTail(f, c, n - 1);
      }
      var rest := BuildChain(f, d, n - 1);
      cs := [c] + rest;
    }
  }

  lemma LiveTail(f: Fat, c: nat, n: nat)
    requires Live(c) && InFat(f, c) && LiveUpTo(f, Entry(f, c), n)
    ensures LiveUpTo(f, c, n + 1)
  {
  }

  ghost predicate Ends(f: Fat, c: nat) {
    exists cs :: IsChain(f, c, cs)
  }

  /** The reader's loop ends, with every look-up inside the table, if and only if the chain
      stays in the table and visits no cluster twice. */
  lemma ChainIffAcyclic(f: Fat, c: nat)
    ensures Ends(f, c) <==> Acyclic(f, c) && StaysInFat(f, c)
  {
    if Acyclic(f, c) && StaysInFat(f, c) {
      AcyclicEnds(f, c, CHAIN_END);
      var cs := BuildChain(f, c, CHAIN_END);
      assert IsChain(f, c, cs);
    }
    if Ends(f, c) {
      var cs :| IsChain(f, c, cs);
      ChainAcyclic(f, c, cs);
    }
  }

  // ---- Where chains end on FAT32 ----------------------------------------------------

  /** End of chain as the FAT specification has it: from 0xFFF8 on FAT16, on FAT32 from
      0x0FFFFFF8 in the low 28 bits. */
  predicate SpecLive(f: Fat, c: nat) {
    if f.wide then 1 < c % 0x1000_0000 < 0x0FFF_FFF8 else 1 < c < 0xFFF8
  }

  ghost predicate IsSpecChain(f: Fat, c: nat, cs: seq<nat>)
    decreases |cs|
  {
    var m := if f.wide then c % 0x1000_0000 else c;
    if !SpecLive(f, c) then cs == []
    else cs != [] && cs[0] == m && InFat(f, m) && IsSpecChain(f, Entry(f, m), cs[1..])
  }

  /** The numbers by which the specified chain names its clusters, reserved bits included. */
  ghost function RawNumbers(f: Fat, c: nat, spec: seq<nat>): (r: seq<nat>)
    requires IsSpecChain(f, c, spec)
    ensures |r| == |spec|
    decreases |spec|
  {
    if spec == [] then [] else [c] + RawNumbers(f, Entry(f, spec[0]), spec[1..])
  }

  lemma {:induction false} RawNumbersMean(f: Fat, c: nat, spec: seq<nat>)
    requires IsSpecChain(f, c, spec)
    ensures var raw := RawNumbers(f, c, spec);
      forall i :: 0 <= i < |spec| ==> spec[i] == if f.wide then raw[i] % 0x1000_0000 else raw[i]
    decreases |spec|
  {
    if spec != [] {
      RawNumbersMean(f, Entry(f, spec[0]), spec[1..]);
    }
  }

  predicate AllBelowEnd(ns: seq<nat>) {
    forall i :: 0 <= i < |ns| ==> ns[i] < CHAIN_END
  }

  lemma FirstBelowEnd(c: nat, ns: seq<nat>)
    ensures AllBelowEnd([c] + ns) <==> c < CHAIN_END && AllBelowEnd(ns)
  {
    assert forall i :: 0 <= i < |ns| ==> ([c] + ns)[i + 1] == ns[i];
    assert ([c] + ns)[0] == c;
  }

  /** The loop reads a prefix of the specified chain, and the whole of it if and only if every
      number on the way, taken with its reserved bits, is below 0xFFF8: always on FAT16. A
      FAT32 chain is cut before the first cluster that is 0xFFF8 or more, and before the first
      one that is named with a reserved bit set. */
  lemma {:induction false} ReadsSpecifiedChain(f: Fat, c: nat, cs: seq<nat>, spec: seq<nat>)
    requires IsChain(f, c, cs) && IsSpecChain(f, c, spec)
    ensures cs <= spec
    ensures cs == spec <==> AllBelowEnd(RawNumbers(f, c, spec))
    ensures !f.wide ==> cs == spec
    ensures |cs| < |spec| ==> RawNumbers(f, c, spec)[|cs|] >= CHAIN_END
    decreases |spec|
  {
    if spec != [] && Live(c) {
      ReadsSpecifiedChain(f, Entry(f, c), cs[1..], spec[1..]);
      var raw, tail := RawNumbers(f, c, spec), RawNumbers(f, Entry(f, c), spec[1..]);
      assert cs == [c] + cs[1..] && spec == [c] + spec[1..] && raw == [c] + tail;
      FirstBelowEnd(c, tail);
      assert |cs| < |spec| ==> raw[|cs|] == tail[|cs| - 1];
    } else if spec != [] {
      assert RawNumbers(f, c, spec)[0] == c;
    }
  }

  /** Byte `k` of a little-endian 32-bit word. */
  function ByteOf(w: nat, k: nat): Byte
    requires w < WORD && k < 4
  {
    if k == 0 then w % 0x100 else if k == 1 then w / 0x100 % 0x100
    else if k == 2 then w / 0x100 / 0x100 % 0x100 else w / 0x100 / 0x100 / 0x100
  }

  lemma BytesMakeWord(w: nat)
    requires w < WORD
    ensures (ByteOf(w, 0) as int + ByteOf(w, 1) * 0x100) + (ByteOf(w, 2) as int + ByteOf(w, 3) * 0x100) * 0x1_0000 == w
  {
    var a, b := w / 0x100, w / 0x100 / 0x100;
    assert w == a * 0x100 + w % 0x100 && a == b * 0x100 + a % 0x100 && b == b / 0x100 * 0x100 + b % 0x100;
  }

  /** The bytes of a table with the given entries: 4 or 2 for each, the lowest first. */
  function TableOf(entries: seq<nat>, wide: bool): Fat
    requires forall i :: 0 <= i < |entries| ==> entries[i] < if wide then WORD else 0x1_0000
  {
    var size := if wide then 4 else 2;
    Fat(seq(size * |entries|, i requires 0 <= i < size * |entries| => ByteOf(entries[i / size], i % size)), wide)
  }

  lemma ByteOfTable(entries: seq<nat>, wide: bool, c: nat, k: nat)
    requires forall i :: 0 <= i < |entries| ==> entries[i] < if wide then WORD else 0x1_0000
    requires c < |entries| && k < if wide then 4 else 2
    ensures var f := TableOf(entries, wide); |f.bytes| == EntrySize(f) * |entries|
    ensures var f := TableOf(entries, wide); f.bytes[EntrySize(f) * c + k] == ByteOf(entries[c], k)
  {
    var size := if wide then 4 else 2;
    assert (size * c + k) / size == c && (size * c + k) % size == k;
  }

  lemma WideEntry(f: Fat, c: nat, e: nat)
    requires f.wide && InFat(f, c) && e < WORD
    requires forall k :: 0 <= k < 4 ==> f.bytes[4 * c + k] == ByteOf(e, k)
    ensures Entry(f, c) == e
  {
    assert f.bytes[4 * c + 0] == ByteOf(e, 0) && f.bytes[4 * c + 1] == ByteOf(e, 1);
    assert f.bytes[4 * c + 2] == ByteOf(e, 2) && f.bytes[4 * c + 3] == ByteOf(e, 3);
    BytesMakeWord(e);
  }

  lemma NarrowEntry(f: Fat, c: nat, e: nat)
    requires !f.wide && InFat(f, c) && e < 0x1_0000
    requires f.bytes[2 * c] == ByteOf(e, 0) && f.bytes[2 * c + 1] == ByteOf(e, 1)
    ensures Entry(f, c) == e
  {
  }

  /** The reader's look-up finds the entries of a table of either width. */
  lemma EntryOfTable(entries: seq<nat>, wide: bool, c: nat)
    requires forall i :: 0 <= i < |entries| ==> entries[i] < if wide then WORD else 0x1_0000
    requires c < |entries|
    ensures InFat(TableOf(entries, wide), c) && Entry(TableOf(entries, wide), c) == entries[c]
  {
    ByteOfTable(entries, wide, c, 0);
    ByteOfTable(entries, wide, c, 1);
    if wide {
      ByteOfTable(entries, wide, c, 2);
      ByteOfTable(entries, wide, c, 3);
      WideEntry(TableOf(entries, wide), c, entries[c]);
    } else {
      NarrowEntry(TableOf(entries, wide), c, entries[c]);
    }
  }

  /** A FAT32 table of `n` entries that all end a chain, except that entry 2 holds `next`. */
  function TableWithEntry2(n: nat, next: nat): Fat
    requires next < WORD
  {
    TableOf(seq(n, i => if i == 2 then next else 0x0fff_ffff), true)
  }

  /** Both ways of losing the rest of a FAT32 file, in tables of 65536 entries: cluster 2 is
      followed by cluster 0xFFF8, or by cluster 3 with a reserved bit set. The specified
      chains have two clusters, the loop reads one. */
  lemma CutChains()
    ensures var f := TableWithEntry2(0x1_0000, 0xfff8); IsSpecChain(f, 2, [2, 0xfff8]) && IsChain(f, 2, [2])
    ensures var f := TableWithEntry2(0x1_0000, 0x1000_0003); IsSpecChain(f, 2, [2, 3]) && IsChain(f, 2, [2])
  {
    CutChain(0x1_0000, 0xfff8, 0xfff8);
    CutChain(0x1_0000, 0x1000_0003, 3);
  }

  lemma CutChain(n: nat, next: nat, c: nat)
    requires CHAIN_END <= next < WORD && c == next % 0x1000_0000 && 2 < c < n < 0x0fff_fff8
    ensures IsSpecChain(TableWithEntry2(n, next), 2, [2, c]) && IsChain(TableWithEntry2(n, next), 2, [2])
  {
    var f := TableWithEntry2(n, next);
    var entries := seq(n, i => if i == 2 then next else 0x0fff_ffff);
    EntryOfTable(entries, true, 2);
    EntryOfTable(entries, true, c);
    assert [2, c][1..] == [c] && [c][1..] == [] && [2][1..] == [];
    assert IsSpecChain(f, Entry(f, c), []);
    assert IsSpecChain(f, next, [c]);
    assert IsChain(f, next, []);
  }
}
