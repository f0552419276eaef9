/** The loop of the FAT reader on any buffer: it follows the table it finds in the buffer, also
    when the read of the FAT has failed. On a mounted volume it follows the chain on the card;
    and the FAT copy is right if and only if its sectors could be read. */
module FatLoop {
  import opened FatModel
  import opened FatLoad

  /** The variables of the loop: the buffer, the pointer and the cluster. */
  datatype Loop = Loop(mem: seq<Byte>, ptr: nat, cluster: nat)

  /** Where the entry of cluster `c` is looked up. */
  function EntryPlace(b: Bpb, c: nat): nat {
    SECTOR * b.rsc + if b.spf16 > 0 then 2 * c else 4 * c
  }

  predicate EntryFits(b: Bpb, size: nat, c: nat) {
    EntryPlace(b, c) + (if b.spf16 > 0 then 2 else 4) <= size
  }

  function EntryAt(b: Bpb, mem: seq<Byte>, c: nat): nat
    requires EntryFits(b, |mem|, c)
  {
    if b.spf16 > 0 then Le16(mem, EntryPlace(b, c)) else Le32(mem, EntryPlace(b, c))
  }

  /** A turn is due, and the buffer is large enough for it. */
  predicate CanTurn(b: Bpb, s: Loop) {
    Live(s.cluster) && s.ptr + SECTOR * ReadSize(b.spc) <= |s.mem| && EntryFits(b, |s.mem|, s.cluster)
  }

  function Turn(card: Card, b: Bpb, lba: nat, s: Loop): (s': Loop)
    requires CanTurn(b, s)
    ensures |s'.mem| == |s.mem|
  {
    var mem := CopySectors(card, s.mem, ClusterSec(b, lba, s.cluster), s.ptr, ReadSize(b.spc)).0;
    Loop(mem, s.ptr + Stride(b), EntryAt(b, mem, s.cluster))
  }

  /** `t` is a whole run of the loop: its states one after the other, up to its end. */
  ghost predicate IsRun(card: Card, b: Bpb, lba: nat, t: seq<Loop>) {
    && t != [] && !Live(t[|t| - 1].cluster)
    && forall i :: 0 <= i < |t| - 1 ==> IsTurn(card, b, lba, t[i], t[i + 1])
  }

  predicate IsTurn(card: Card, b: Bpb, lba: nat, s: Loop, s': Loop) {
    CanTurn(b, s) && s' == Turn(card, b, lba, s)
  }

  /** Where the file goes: a failed read of the FAT counts as no bytes. */
  ghost function DataStart(card: Card, b: Bpb, lba: nat): nat {
    var n := ReadSize(FatSize(b) + b.rsc);
    SECTOR + if AllReadable(card, lba + 1, n) then SECTOR * n else 0
  }

  ghost function Begin(card: Card, b: Bpb, lba: nat, mem: seq<Byte>, first: nat): Loop
    requires |mem| >= SECTOR && FileStart(ParseBpb(mem)) <= |mem|
  {
    Loop(LoadFat(card, lba, mem), DataStart(card, b, lba), first)
  }

  // ---- A mounted volume -------------------------------------------------------------

  lemma EntryInBuffer(b: Bpb, mem: seq<Byte>, c: nat)
    requires SECTOR * (b.rsc + FatSize(b)) <= |mem| && InFat(FatInBuffer(b, mem), c)
    ensures EntryFits(b, |mem|, c) && EntryAt(b, mem, c) == Entry(FatInBuffer(b, mem), c)
  {
    var f := FatInBuffer(b, mem);
    assert forall k: nat :: k < |f.bytes| ==> f.bytes[k] == mem[SECTOR * b.rsc + k];
  }

  /** A turn that loads a cluster behind the FAT copy follows the FAT copy. */
  lemma TurnFollowsFat(card: Card, b: Bpb, lba: nat, s: Loop)
    requires CanTurn(b, s) && FileStart(b) <= s.ptr && InFat(FatInBuffer(b, s.mem), s.cluster)
    ensures var s' := Turn(card, b, lba, s);
      && s'.mem[..FileStart(b)] == s.mem[..FileStart(b)] && FatInBuffer(b, s'.mem) == FatInBuffer(b, s.mem)
      && s'.cluster == Entry(FatInBuffer(b, s.mem), s.cluster)
  {
    var s' := Turn(card, b, lba, s);
    CopySectorsResult(card, s.mem, ClusterSec(b, lba, s.cluster), s.ptr, ReadSize(b.spc));
    assert s'.mem[..FileStart(b)] == s'.mem[..s.ptr][..FileStart(b)];
    assert s.mem[..FileStart(b)] == s.mem[..s.ptr][..FileStart(b)];
    LowerPartKept(b, s.mem, s'.mem);
    EntryInBuffer(b, s'.mem, s.cluster);
  }

  lemma TurnLoads(card: Card, b: Bpb, lba: nat, s: Loop, cs: seq<nat>)
    requires CanTurn(b, s) && cs != [] && cs[0] == s.cluster && AreClusters(cs) && Fits(b, |s.mem|, s.ptr, |cs|)
    ensures AreClusters(cs[1..]) && Fits(b, |s.mem|, s.ptr + Stride(b), |cs| - 1)
    ensures LoadChain(card, b, lba, s.mem, s.ptr, cs)
         == LoadChain(card, b, lba, Turn(card, b, lba, s).mem, s.ptr + Stride(b), cs[1..])
  {
  }

  lemma RunAfterTurn(card: Card, b: Bpb, lba: nat, s: Loop, t: seq<Loop>)
    requires IsRun(card, b, lba, t) && IsTurn(card, b, lba, s, t[0])
    ensures IsRun(card, b, lba, [s] + t)
  {
    var t' := [s] + t;
    forall i | 0 <= i < |t'| - 1
      ensures IsTurn(card, b, lba, t'[i], t'[i + 1])
    {
      if i > 0 {
        assert IsTurn(card, b, lba, t[i - 1], t[i]);
      }
    }
  }

  /** A state that `f` is the table and `cs` the rest of the chain of. */
  ghost predicate OnChain(b: Bpb, s: Loop, f: Fat, cs: seq<nat>) {
    && FileStart(b) <= s.ptr && SECTOR * (b.rsc + FatSize(b)) <= |s.mem| && FatInBuffer(b, s.mem) == f
    && IsChain(f, s.cluster, cs) && AreClusters(cs) && Fits(b, |s.mem|, s.ptr, |cs|)
  }

  lemma OnChainCanTurn(b: Bpb, s: Loop, f: Fat, cs: seq<nat>)
    requires OnChain(b, s, f, cs) && cs != []
    ensures cs[0] == s.cluster && Live(s.cluster) && InFat(f, s.cluster) && CanTurn(b, s)
    ensures IsChain(f, Entry(f, s.cluster), cs[1..])
  {
    EntryInBuffer(b, s.mem, s.cluster);
  }

  lemma OnChainTurn(card: Card, b: Bpb, lba: nat, s: Loop, f: Fat, cs: seq<nat>) returns (s': Loop)
    requires OnChain(b, s, f, cs) && cs != []
    ensures IsTurn(card, b, lba, s, s') && OnChain(b, s', f, cs[1..])
    ensures LoadChain(card, b, lba, s.mem, s.ptr, cs) == LoadChain(card, b, lba, s'.mem, s'.ptr, cs[1..])
  {
    OnChainCanTurn(b, s, f, cs);
    TurnFollowsFat(card, b, lba, s);
    TurnLoads(card, b, lba, s, cs);
    s' := Turn(card, b, lba, s);
  }

  lemma {:induction false} LoopFollowsChain(card: Card, b: Bpb, lba: nat, s: Loop, f: Fat, cs: seq<nat>)
      returns (t: seq<Loop>)
    requires OnChain(b, s, f, cs)
    ensures IsRun(card, b, lba, t) && t[0] == s && |t| == |cs| + 1
    ensures t[|t| - 1].mem == LoadChain(card, b, lba, s.mem, s.ptr, cs)
    decreases |cs|
  {
    if cs == [] {
      t := [s];
    } else {
      var s' := OnChainTurn(card, b, lba, s, f, cs);
      t := LoopFollowsChain(card, b, lba, s', f, cs[1..]);
      RunAfterTurn(card, b, lba, s, t);
      t := [s] + t;
    }
  }

  lemma ChainOfClusters(f: Fat, c: nat, cs: seq<nat>)
    requires IsChain(f, c, cs)
    ensures AreClusters(cs)
  {
    forall i | 0 <= i < |cs|
      ensures cs[i] >= 2
    {
      NthInChain(f, c, cs, i);
    }
  }

  lemma BeginsOnChain(card: Card, b: Bpb, lba: nat, mem: seq<Byte>, first: nat, cs: seq<nat>)
    requires Mounted(card, lba, mem) && b == ParseBpb(mem)
    requires IsChain(CardFat(card, b, lba), first, cs) && Fits(b, |mem|, FileStart(b), |cs|)
    ensures FileStart(b) <= |mem| && Begin(card, b, lba, mem, first).ptr == FileStart(b)
    ensures OnChain(b, Begin(card, b, lba, mem, first), CardFat(card, b, lba), cs)
  {
    FatCopied(card, lba, mem);
    ChainOfClusters(CardFat(card, b, lba), first, cs);
  }

  /** On a mounted volume the loop in the buffer ends after the chain on the card, and leaves
      the buffer with that chain loaded behind the FAT. */
  lemma MountedLoop(card: Card, lba: nat, mem: seq<Byte>, first: nat, cs: seq<nat>) returns (t: seq<Loop>)
    requires Mounted(card, lba, mem)
    requires var b := ParseBpb(mem); IsChain(CardFat(card, b, lba), first, cs) && Fits(b, |mem|, FileStart(b), |cs|)
    ensures AreClusters(cs)
    ensures var b := ParseBpb(mem);
      && IsRun(card, b, lba, t) && |t| == |cs| + 1
      && t[0] == Begin(card, b, lba, mem, first) && t[0].ptr == FileStart(b)
      && t[|cs|].mem == LoadChain(card, b, lba, LoadFat(card, lba, mem), FileStart(b), cs)
  {
    var b := ParseBpb(mem);
    BeginsOnChain(card, b, lba, mem, first, cs);
    t := LoopFollowsChain(card, b, lba, Begin(card, b, lba, mem, first), CardFat(card, b, lba), cs);
  }

  // ---- When the FAT copy is right ---------------------------------------------------

  lemma OverlayHolds(mem: seq<Byte>, at: nat, bytes: seq<Byte>)
    requires at + |bytes| <= |mem|
    ensures Overlay(mem, at, bytes)[at..at + |bytes|] == bytes
  {
  }

  lemma FirstAndRest(card: Card, mem1: seq<Byte>, r: seq<Byte>, n: nat, at: nat, k: nat)
    requires k > 0 && Readable(card, n) && SECTOR * (n + k) <= |card.data| && at + SECTOR * k <= |mem1| == |r|
    requires mem1[at..at + SECTOR] == SectorBytes(card, n) && r[..at + SECTOR] == mem1[..at + SECTOR]
    requires k > 1 ==> r[at + SECTOR..at + SECTOR * k] == card.data[SECTOR * (n + 1)..SECTOR * (n + k)]
    ensures r[at..at + SECTOR * k] == card.data[SECTOR * n..SECTOR * (n + k)]
  {
    assert r[at..at + SECTOR] == r[..at + SECTOR][at..] == mem1[..at + SECTOR][at..] == SectorBytes(card, n);
    assert r[at..at + SECTOR * k] == r[at..at + SECTOR] + r[at + SECTOR..at + SECTOR * k];
    assert card.data[SECTOR * n..SECTOR * (n + k)]
        == SectorBytes(card, n) + card.data[SECTOR * (n + 1)..SECTOR * (n + k)];
  }

  lemma LastReadable(card: Card, n: nat, k: nat)
    requires k > 0 && AllReadable(card, n, k)
    ensures Readable(card, n) && SECTOR * (n + k) <= |card.data|
  {
    assert Readable(card, n + k - 1);
  }

  /** A copy that gets `k` sectors far has copied these `k`. */
  lemma {:induction false} CopyGetsFar(card: Card, mem: seq<Byte>, n: nat, at: nat, num: nat, k: nat)
    requires at + SECTOR * num <= |mem| && k <= num && AllReadable(card, n, k)
    ensures k > 0 ==> SECTOR * (n + k) <= |card.data|
    ensures k > 0 ==>
      CopySectors(card, mem, n, at, num).0[at..at + SECTOR * k] == card.data[SECTOR * n..SECTOR * (n + k)]
    decreases num
  {
    if k > 0 {
      LastReadable(card, n, k);
      var mem1 := Overlay(mem, at, SectorBytes(card, n));
      var (r, ok) := CopySectors(card, mem1, n + 1, at + SECTOR, num - 1);
      CopySectorsResult(card, mem1, n + 1, at + SECTOR, num - 1);
      CopyGetsFar(card, mem1, n + 1, at + SECTOR, num - 1, k - 1);
      OverlayHolds(mem, at, SectorBytes(card, n));
      FirstAndRest(card, mem1, r, n, at, k);
    }
  }

  lemma OverlayStops(mem: seq<Byte>, at: nat, bytes: seq<Byte>, low: nat)
    requires at + |bytes| <= low <= |mem|
    ensures Overlay(mem, at, bytes)[low..] == mem[low..]
  {
  }

  /** A copy that stops within the first `k` sectors leaves the buffer from the last of them
      on as it was. */
  lemma {:induction false} CopyStopsEarly(card: Card, mem: seq<Byte>, n: nat, at: nat, num: nat, k: nat)
    requires at + SECTOR * num <= |mem| && k <= num && !AllReadable(card, n, k)
    ensures k > 0 && CopySectors(card, mem, n, at, num).0[at + SECTOR * (k - 1)..] == mem[at + SECTOR * (k - 1)..]
    decreases num
  {
    if Readable(card, n) {
      assert !AllReadable(card, n + 1, k - 1);
      var mem1, low := Overlay(mem, at, SectorBytes(card, n)), at + SECTOR * (k - 1);
      CopyStopsEarly(card, mem1, n + 1, at + SECTOR, num - 1, k - 1);
      assert at + SECTOR + SECTOR * (k - 2) == low;
      OverlayStops(mem, at, SectorBytes(card, n), low);
    }
  }

  /** Whatever the buffer held behind the boot record `boot`, it holds the FAT afterwards. */
  ghost predicate AlwaysCopied(card: Card, b: Bpb, lba: nat, boot: seq<Byte>, size: nat)
    requires |boot| == SECTOR && ParseBpb(boot) == b && FileStart(b) <= size
    requires SECTOR * (lba + b.rsc + FatSize(b)) <= |card.data|
  {
    forall mem: seq<Byte> :: |mem| == size && mem[..SECTOR] == boot ==> CopiedInto(card, b, lba, mem)
  }

  ghost predicate CopiedInto(card: Card, b: Bpb, lba: nat, mem: seq<Byte>)
    requires FileStart(b) <= |mem| && SECTOR * (lba + b.rsc + FatSize(b)) <= |card.data|
  {
    ParseBpb(mem) == b ==> FatInBuffer(b, LoadFat(card, lba, mem)) == CardFat(card, b, lba)
  }

  /** The FAT copy is right, whatever was in the buffer, if and only if every sector of the
      partition up to the end of the FAT can be read; the boot sector is there already. */
  lemma FatCopiedExactly(card: Card, b: Bpb, lba: nat, boot: seq<Byte>, size: nat)
    requires |boot| == SECTOR && ParseBpb(boot) == b && FileStart(b) <= size && FatSize(b) > 0
    requires SECTOR * (lba + b.rsc + FatSize(b)) <= |card.data| && boot == card.data[SECTOR * lba..SECTOR * (lba + 1)]
    ensures AlwaysCopied(card, b, lba, boot, size) <==> AllReadable(card, lba + 1, b.rsc + FatSize(b) - 1)
  {
    if AllReadable(card, lba + 1, b.rsc + FatSize(b) - 1) {
      forall mem: seq<Byte> | |mem| == size && mem[..SECTOR] == boot
        ensures CopiedInto(card, b, lba, mem)
      {
        ReadableIsCopied(card, b, lba, mem);
      }
    } else {
      var mem := Unlike(card, b, lba, boot, size);
      SameBpb(mem, boot);
      StaysUnlike(card, b, lba, boot, size);
    }
  }

  lemma ReadableIsCopied(card: Card, b: Bpb, lba: nat, mem: seq<Byte>)
    requires FileStart(b) <= |mem| && FatSize(b) > 0 && SECTOR * (lba + b.rsc + FatSize(b)) <= |card.data|
    requires mem[..SECTOR] == card.data[SECTOR * lba..SECTOR * (lba + 1)]
    requires AllReadable(card, lba + 1, b.rsc + FatSize(b) - 1)
    ensures CopiedInto(card, b, lba, mem)
  {
    if ParseBpb(mem) == b {
      var n := b.rsc + FatSize(b);
      StartIsCopied(card, lba, mem, n, LoadFat(card, lba, mem));
      FatInPlace(card, b, lba, LoadFat(card, lba, mem), n);
    }
  }

  lemma StartIsCopied(card: Card, lba: nat, mem: seq<Byte>, n: nat, r: seq<Byte>)
    requires n > 0 && SECTOR + SECTOR * n <= |mem| && SECTOR * (lba + n) <= |card.data|
    requires mem[..SECTOR] == card.data[SECTOR * lba..SECTOR * (lba + 1)] && AllReadable(card, lba + 1, n - 1)
    requires r == CopySectors(card, mem, lba + 1, SECTOR, n).0
    ensures r[..SECTOR * n] == card.data[SECTOR * lba..SECTOR * (lba + n)]
  {
    CopySectorsResult(card, mem, lba + 1, SECTOR, n);
    CopyGetsFar(card, mem, lba + 1, SECTOR, n, n - 1);
    StartOfPartition(card, lba, r, n - 1);
  }

  /** A buffer that differs from the card in the last byte of the FAT. */
  function Unlike(card: Card, b: Bpb, lba: nat, boot: seq<Byte>, size: nat): (r: seq<Byte>)
    requires |boot| == SECTOR <= size && FatSize(b) > 0 && SECTOR * (lba + b.rsc + FatSize(b)) <= |card.data|
    ensures |r| == size && r[..SECTOR] == boot
  {
    var last: Byte := card.data[SECTOR * (lba + b.rsc + FatSize(b)) - 1];
    boot + seq(size - SECTOR, _ => if last == 0 then 1 else 0)
  }

  lemma StaysUnlike(card: Card, b: Bpb, lba: nat, boot: seq<Byte>, size: nat)
    requires |boot| == SECTOR && ParseBpb(boot) == b && FileStart(b) <= size && FatSize(b) > 0
    requires SECTOR * (lba + b.rsc + FatSize(b)) <= |card.data|
    requires !AllReadable(card, lba + 1, b.rsc + FatSize(b) - 1)
    ensures ParseBpb(Unlike(card, b, lba, boot, size)) == b
    ensures !CopiedInto(card, b, lba, Unlike(card, b, lba, boot, size))
  {
    var mem := Unlike(card, b, lba, boot, size);
    SameBpb(mem, boot);
    LastByteStays(card, lba, mem, b.rsc + FatSize(b), LoadFat(card, lba, mem));
    LastByteTells(card, b, lba, LoadFat(card, lba, mem));
  }

  lemma LastByteStays(card: Card, lba: nat, mem: seq<Byte>, n: nat, r: seq<Byte>)
    requires n > 0 && SECTOR + SECTOR * n <= |mem| && !AllReadable(card, lba + 1, n - 1)
    requires r == CopySectors(card, mem, lba + 1, SECTOR, n).0
    ensures r[SECTOR * n - 1] == mem[SECTOR * n - 1]
  {
    CopyStopsEarly(card, mem, lba + 1, SECTOR, n, n - 1);
    var low := SECTOR * (n - 1);
    assert r[SECTOR * n - 1] == r[low..][SECTOR - 1] && mem[SECTOR * n - 1] == mem[low..][SECTOR - 1];
  }

  lemma LastByteTells(card: Card, b: Bpb, lba: nat, r: seq<Byte>)
    requires FatSize(b) > 0 && SECTOR * (b.rsc + FatSize(b)) <= |r|
    requires SECTOR * (lba + b.rsc + FatSize(b)) <= |card.data|
    requires r[SECTOR * (b.rsc + FatSize(b)) - 1] != card.data[SECTOR * (lba + b.rsc + FatSize(b)) - 1]
    ensures FatInBuffer(b, r) != CardFat(card, b, lba)
  {
    var k := SECTOR * FatSize(b) - 1;
    assert FatInBuffer(b, r).bytes[k] == r[SECTOR * b.rsc + k];
    assert CardFat(card, b, lba).bytes[k] == card.data[SECTOR * (lba + b.rsc) + k];
  }

  // ---- When the read of the FAT has failed ------------------------------------------

  /** When the read of the FAT fails, the first cluster is loaded right behind the boot record. */
  lemma FailedReadIsOverwritten(card: Card, lba: nat, mem: seq<Byte>, first: nat)
    requires |mem| >= SECTOR && FileStart(ParseBpb(mem)) <= |mem| && Live(first)
    requires var b := ParseBpb(mem);
      && !AllReadable(card, lba + 1, ReadSize(FatSize(b) + b.rsc))
      && b.spc >= 1 && ClusterReadable(card, b, lba, first) && CanTurn(b, Begin(card, b, lba, mem, first))
    ensures var b := ParseBpb(mem); var s := Turn(card, b, lba, Begin(card, b, lba, mem, first));
      s.mem[SECTOR..SECTOR + SECTOR * b.spc] == ClusterBytes(card, b, lba, first)
  {
    var b := ParseBpb(mem);
    CopySectorsResult(card, LoadFat(card, lba, mem), ClusterSec(b, lba, first), SECTOR, b.spc);
  }

  /** The `i`-th turn of a run that starts at sector 1 of the buffer loads to sector `lo`. */
  lemma {:induction false} PointerAt(card: Card, b: Bpb, lba: nat, t: seq<Loop>, i: nat, lo: nat)
    requires IsRun(card, b, lba, t) && i < |t| && t[0].ptr == SECTOR && b.bps == SECTOR && lo == 1 + i * b.spc
    ensures t[i].ptr == SECTOR * lo && |t[i].mem| == |t[0].mem|
    decreases i
  {
    if i > 0 {
      OneLess(i, b.spc);
      PointerAt(card, b, lba, t, i - 1, lo - b.spc);
      assert IsTurn(card, b, lba, t[i - 1], t[i]);
      StrideHolds(b);
    }
  }

  lemma OneLess(i: nat, n: nat)
    requires i > 0
    ensures i * n == (i - 1) * n + n && (i - 1) * n >= 0
  {
  }

  /** A turn whose cluster ends before sector `top` of the buffer changes nothing from there
      on. */
  lemma TurnSpares(card: Card, b: Bpb, lba: nat, s: Loop, top: nat)
    requires CanTurn(b, s) && b.spc >= 1 && s.ptr + SECTOR * b.spc <= top <= |s.mem|
    ensures Turn(card, b, lba, s).mem[top..] == s.mem[top..]
  {
    var end := s.ptr + SECTOR * b.spc;
    var mem := Turn(card, b, lba, s).mem;
    CopySectorsResult(card, s.mem, ClusterSec(b, lba, s.cluster), s.ptr, b.spc);
    assert mem[top..] == mem[end..][top - end..] && s.mem[top..] == s.mem[end..][top - end..];
  }

  /** A turn whose cluster reaches sector `top` of the buffer puts the cluster's sector there. */
  lemma TurnHits(card: Card, b: Bpb, lba: nat, s: Loop, top: nat)
    requires CanTurn(b, s) && s.ptr <= top && top + SECTOR <= s.ptr + SECTOR * b.spc
    requires ClusterReadable(card, b, lba, s.cluster)
    ensures var at := top - s.ptr;
      Turn(card, b, lba, s).mem[top..top + SECTOR] == ClusterBytes(card, b, lba, s.cluster)[at..at + SECTOR]
  {
    var mem, bytes := Turn(card, b, lba, s).mem, ClusterBytes(card, b, lba, s.cluster);
    CopySectorsResult(card, s.mem, ClusterSec(b, lba, s.cluster), s.ptr, b.spc);
    assert mem[s.ptr..s.ptr + SECTOR * b.spc] == bytes;
    forall k | top <= k < top + SECTOR
      ensures mem[k] == bytes[k - s.ptr]
    {
      assert mem[s.ptr..s.ptr + SECTOR * b.spc][k - s.ptr] == mem[k];
    }
  }

  lemma SameFat(b: Bpb, mem: seq<Byte>, mem': seq<Byte>)
    requires SECTOR * (b.rsc + FatSize(b)) <= |mem| == |mem'| && mem[SECTOR * b.rsc..] == mem'[SECTOR * b.rsc..]
    ensures FatInBuffer(b, mem) == FatInBuffer(b, mem')
  {
    var n := SECTOR * FatSize(b);
    assert FatInBuffer(b, mem).bytes == mem[SECTOR * b.rsc..][..n];
    assert FatInBuffer(b, mem').bytes == mem'[SECTOR * b.rsc..][..n];
  }

  lemma {:induction false} UnhitSoFar(card: Card, b: Bpb, lba: nat, t: seq<Loop>, i: nat, lo: nat)
    requires IsRun(card, b, lba, t) && i < |t| && t[0].ptr == SECTOR && b.bps == SECTOR && lo == 1 + i * b.spc
    requires b.spc >= 1 && lo <= b.rsc && SECTOR * b.rsc <= |t[0].mem|
    ensures |t[i].mem| == |t[0].mem| && t[i].mem[SECTOR * b.rsc..] == t[0].mem[SECTOR * b.rsc..]
    decreases i
  {
    if i > 0 {
      OneLess(i, b.spc);
      UnhitSoFar(card, b, lba, t, i - 1, lo - b.spc);
      PointerAt(card, b, lba, t, i - 1, lo - b.spc);
      assert IsTurn(card, b, lba, t[i - 1], t[i]);
      TurnSpares(card, b, lba, t[i - 1], SECTOR * b.rsc);
    }
  }

  /** The `i`-th cluster reaches sector `rsc` of the buffer. */
  lemma ClusterReaches(card: Card, b: Bpb, lba: nat, t: seq<Loop>, i: nat, lo: nat)
    requires IsRun(card, b, lba, t) && i + 1 < |t| && t[0].ptr == SECTOR && b.bps == SECTOR && lo == 1 + i * b.spc
    requires lo <= b.rsc < lo + b.spc && ClusterReadable(card, b, lba, t[i].cluster)
    ensures SECTOR * (b.rsc + 1) <= |t[i + 1].mem|
    ensures t[i + 1].mem[SECTOR * b.rsc..SECTOR * (b.rsc + 1)]
         == ClusterBytes(card, b, lba, t[i].cluster)[SECTOR * (b.rsc - lo)..SECTOR * (b.rsc - lo + 1)]
  {
    PointerAt(card, b, lba, t, i, lo);
    assert IsTurn(card, b, lba, t[i], t[i + 1]);
    TurnHits(card, b, lba, t[i], SECTOR * b.rsc);
  }

  /** How many clusters it takes to reach the FAT copy after a failed read. The `i`-th cluster
      goes to sector `lo` of the buffer. Those that end before sector `rsc` leave the place of
      the copy as the failed read left it; the one that reaches that sector puts its bytes at
      the start of the copy. */
  lemma FailedReadReachesFat(card: Card, lba: nat, mem: seq<Byte>, first: nat, t: seq<Loop>, i: nat, lo: nat)
    requires |mem| >= SECTOR && FileStart(ParseBpb(mem)) <= |mem|
    requires var b := ParseBpb(mem);
      && !AllReadable(card, lba + 1, ReadSize(FatSize(b) + b.rsc)) && b.bps == SECTOR && b.spc >= 1
      && IsRun(card, b, lba, t) && t[0] == Begin(card, b, lba, mem, first) && i < |t| && lo == 1 + i * b.spc
    ensures var b := ParseBpb(mem); |t[i].mem| == |mem| && SECTOR * (b.rsc + FatSize(b)) <= |mem|
    ensures var b := ParseBpb(mem); lo <= b.rsc ==> FatInBuffer(b, t[i].mem) == FatInBuffer(b, t[0].mem)
    ensures var b := ParseBpb(mem);
      i + 1 < |t| && lo <= b.rsc < lo + b.spc && ClusterReadable(card, b, lba, t[i].cluster) ==>
        && SECTOR * (b.rsc + 1) <= |t[i + 1].mem|
        && t[i + 1].mem[SECTOR * b.rsc..SECTOR * (b.rsc + 1)]
           == ClusterBytes(card, b, lba, t[i].cluster)[SECTOR * (b.rsc - lo)..SECTOR * (b.rsc - lo + 1)]
  {
    var b := ParseBpb(mem);
    PointerAt(card, b, lba, t, i, lo);
    if lo <= b.rsc {
      UnhitSoFar(card, b, lba, t, i, lo);
      SameFat(b, t[0].mem, t[i].mem);
    }
    if i + 1 < |t| && lo <= b.rsc < lo + b.spc && ClusterReadable(card, b, lba, t[i].cluster) {
      ClusterReaches(card, b, lba, t, i, lo);
    }
  }
}
